/** The iOS per-model wrapper. Unlike the Android one it keeps the session it
    created at load time for every generation, and it frames each prompt with
    the Gemma chat-turn markers before adding it to that session. */
module IosInference {
  import opened Common
  import opened Events
  import opened NativeEngine

  /** The `sessionError` a generation throws when there is no session. */
  const SessionNotInitialized: string := "Session not initialized"

  /** Prefix of the model-load error every `init` failure is rethrown as. */
  const LoadFailed: string := "Failed to load model: "
  /** Prefix of the session error a failing session creation throws. */
  const SessionFailed: string := "Failed to create LLM session: "

  /** The message of the error `init` throws: a session failure is wrapped
      twice, an engine failure once. */
  function LoadError(load: Load): (m: string)
    requires !load.Loaded?
    ensures |m| == |LoadFailed| + (if load.SessionRejected? then |SessionFailed| else 0) + |load.message|
    ensures m[..|LoadFailed|] == LoadFailed
    ensures m[|m| - |load.message|..] == load.message
  {
    LoadFailed + (if load.SessionRejected? then SessionFailed else "") + load.message
  }

  const StartTurn: string := "<start_of_turn>"
  const EndTurn: string := "<end_of_turn>"

  /** What precedes the user's text in a framed prompt. */
  const UserHeader: string := StartTurn + "user\n"
  /** What follows the user's text: the end of the user turn and the opening
      of the model's turn. */
  const ModelFooter: string := EndTurn + StartTurn + "model"

  /** `formatPrompt`: the user's text as one user turn followed by an open
      model turn. */
  function FormatPrompt(text: string): (p: string)
    ensures |p| == |UserHeader| + |text| + |ModelFooter|
    ensures p[..|UserHeader|] == UserHeader
    ensures p[|UserHeader|..|UserHeader| + |text|] == text
    ensures p[|UserHeader| + |text|..] == ModelFooter
  {
    UserHeader + text + ModelFooter
  }

  /** The inverse of `FormatPrompt`: the user's text inside a framed prompt,
      or None when `p` does not carry the frame. */
  function UserText(p: string): Option<string>
  {
    if |p| >= |UserHeader| + |ModelFooter|
       && p[..|UserHeader|] == UserHeader
       && p[|p| - |ModelFooter|..] == ModelFooter
    then Some(p[|UserHeader|..|p| - |ModelFooter|])
    else None
  }

  /** Framing a prompt loses nothing: the text can be read back. */
  lemma UserTextFormatPrompt(text: string)
    ensures UserText(FormatPrompt(text)) == Some(text)
  {
    var p := FormatPrompt(text);
    assert |p| - |ModelFooter| == |UserHeader| + |text|;
  }

  /** Every framed prompt is the frame around the text read back from it. */
  lemma FormatPromptUserText(p: string)
    requires UserText(p).Some?
    ensures FormatPrompt(UserText(p).value) == p
  {
    var t := UserText(p).value;
    assert p == p[..|UserHeader|] + t + p[|p| - |ModelFooter|..];
  }

  /** Distinct texts give distinct prompts. */
  lemma FormatPromptInjective(a: string, b: string)
    requires FormatPrompt(a) == FormatPrompt(b)
    ensures a == b
  {
    UserTextFormatPrompt(a);
    UserTextFormatPrompt(b);
  }

  class LlmInferenceModel {
    const handle: int
    const modelPath: string
    const maxTokens: int
    const topK: int
    const temperature: real
    const randomSeed: int
    /** The message `init` threw with, if it threw. */
    const failure: Option<string>

    /** The session created by `init`; never replaced afterwards. */
    var session: Option<nat>
    /** The query chunks added to that session, oldest first. */
    var queries: seq<string>
    /** Reset at the start of every generation and not otherwise used. */
    var currentResponse: string

    /** `init`: create the engine and then one session. A session failure
        is thrown as a session error, and every failure is rethrown as a
        model-load error around the message of the one it caught. */
    constructor (modelPath: string, maxTokens: int, topK: int, temperature: real, randomSeed: int,
                 handle: int, load: Load)
      ensures this.handle == handle && this.modelPath == modelPath && this.maxTokens == maxTokens
      ensures this.topK == topK && this.temperature == temperature && this.randomSeed == randomSeed
      ensures load.Loaded? ==> failure == None && session == Some(0)
      ensures load.EngineRejected? ==> failure == Some(LoadFailed + load.message) && session == None
      ensures load.SessionRejected? ==> failure == Some(LoadFailed + SessionFailed + load.message) && session == None
      ensures queries == [] && currentResponse == ""
    {
      this.handle := handle;
      this.modelPath := modelPath;
      this.maxTokens := maxTokens;
      this.topK := topK;
      this.temperature := temperature;
      this.randomSeed := randomSeed;
      queries := [];
      currentResponse := "";
      if load.Loaded? {
        failure := None;
        session := Some(0);
      } else {
        failure := Some(LoadError(load));
        session := None;
      }
    }

    /** `generateResponse`: with no session, throw before anything happens.
        Otherwise add the framed prompt to the session and relay the stream:
        one partial event per fragment, then success with the concatenation;
        a failing query or stream gives exactly one error event and a
        failed completion. A stream that never ends never completes. */
    method GenerateResponse(requestId: int, prompt: string, addQuery: Option<string>, stream: Stream)
      returns (thrown: Option<string>, emitted: seq<Event>, completion: Option<Result<string>>)
      modifies this
      ensures session == old(session)
      ensures old(session).None? ==>
                && thrown == Some(SessionNotInitialized) && emitted == [] && completion == None
                && queries == old(queries) && currentResponse == old(currentResponse)
      ensures old(session).Some? ==> thrown == None && currentResponse == ""
      ensures old(session).Some? && addQuery.Some? ==>
                && queries == old(queries)
                && emitted == [ErrorResponse(handle, requestId, addQuery.value)]
                && completion == Some(Failure(addQuery.value))
      ensures old(session).Some? && addQuery.None? ==>
                && queries == old(queries) + [FormatPrompt(prompt)]
                && completion == (match stream.end
                                  case Finished => Some(Success(Concat(stream.parts)))
                                  case Broken(message) => Some(Failure(message))
                                  case Stalled => None)
                && emitted == PartialEvents(handle, requestId, stream.parts)
                              + (if stream.end.Broken? then [ErrorResponse(handle, requestId, stream.end.message)]
                                 else [])
    {
      if session.None? {
        thrown, emitted, completion := Some(SessionNotInitialized), [], None;
        return;
      }
      thrown := None;
      currentResponse := "";
      if addQuery.Some? {
        emitted, completion := [ErrorResponse(handle, requestId, addQuery.value)], Some(Failure(addQuery.value));
        return;
      }
      queries := queries + [FormatPrompt(prompt)];
      var fullResponse := "";
      emitted := [];
      var parts := stream.parts;
      var i := 0;
      while i < |parts|
        invariant 0 <= i <= |parts|
        invariant emitted == PartialEvents(handle, requestId, parts[..i])
        invariant fullResponse == Concat(parts[..i])
      {
        emitted := emitted + [PartialResponse(handle, requestId, parts[i])];
        assert parts[..i + 1][..i] == parts[..i];
        fullResponse := fullResponse + parts[i];
        i := i + 1;
      }
      assert parts[..i] == parts;
      match stream.end {
        case Finished =>
          completion := Some(Success(fullResponse));
        case Broken(message) =>
          emitted := emitted + [ErrorResponse(handle, requestId, message)];
          completion := Some(Failure(message));
        case Stalled =>
          completion := None;
      }
    }

    /** `generateStreamingResponse`: the same relay without accumulating the
        text; completes with true after the last fragment and with false
        after an error event. */
    method GenerateStreamingResponse(requestId: int, prompt: string, addQuery: Option<string>, stream: Stream)
      returns (thrown: Option<string>, emitted: seq<Event>, completion: Option<bool>)
      modifies this
      ensures session == old(session)
      ensures old(session).None? ==>
                && thrown == Some(SessionNotInitialized) && emitted == [] && completion == None
                && queries == old(queries) && currentResponse == old(currentResponse)
      ensures old(session).Some? ==> thrown == None && currentResponse == ""
      ensures old(session).Some? && addQuery.Some? ==>
                && queries == old(queries)
                && emitted == [ErrorResponse(handle, requestId, addQuery.value)]
                && completion == Some(false)
      ensures old(session).Some? && addQuery.None? ==>
                && queries == old(queries) + [FormatPrompt(prompt)]
                && completion == (if stream.end.Stalled? then None else Some(stream.end.Finished?))
                && emitted == PartialEvents(handle, requestId, stream.parts)
                              + (if stream.end.Broken? then [ErrorResponse(handle, requestId, stream.end.message)]
                                 else [])
    {
      if session.None? {
        thrown, emitted, completion := Some(SessionNotInitialized), [], None;
        return;
      }
      thrown := None;
      currentResponse := "";
      if addQuery.Some? {
        emitted, completion := [ErrorResponse(handle, requestId, addQuery.value)], Some(false);
        return;
      }
      queries := queries + [FormatPrompt(prompt)];
      emitted := [];
      var parts := stream.parts;
      var i := 0;
      while i < |parts|
        invariant 0 <= i <= |parts|
        invariant emitted == PartialEvents(handle, requestId, parts[..i])
      {
        emitted := emitted + [PartialResponse(handle, requestId, parts[i])];
        assert parts[..i + 1][..i] == parts[..i];
        i := i + 1;
      }
      assert parts[..i] == parts;
      match stream.end {
        case Finished =>
          completion := Some(true);
        case Broken(message) =>
          emitted := emitted + [ErrorResponse(handle, requestId, message)];
          completion := Some(false);
        case Stalled =>
          completion := None;
      }
    }
  }
}
