/** The Android per-model wrapper around the MediaPipe engine: it owns one
    engine and one session, records the current request, recreates the
    session before every generation and relays streamed fragments to its
    inference listener, which tags them with the model's handle. */
module AndroidInference {
  import opened Common
  import opened Events
  import opened NativeEngine

  /** Where the model file a wrapper loads comes from. */
  datatype ModelSource =
    | FilePath(path: string)          // `createModel`: a path given by the caller
    | InternalFile(name: string)      // `createModelFromAsset`: the copy in the app's files directory
    | DownloadedFile(name: string)    // `createModelFromDownloaded`: a file of the download directory

  /** One native session: its serial number among the sessions this wrapper
      created, and the options it was created with. */
  datatype Session = Session(serial: nat, options: SessionOptions)

  class LlmInferenceModel {
    /** The handle the wrapper's inference listener tags every event with. */
    const handle: int
    const source: ModelSource
    const maxTokens: int
    const options: SessionOptions
    const randomSeed: int
    /** The message of the exception `init` threw, if it threw. */
    const failure: Option<string>

    var engineOpen: bool
    var session: Session
    var sessionOpen: bool
    var sessionsCreated: nat
    var requestId: int
    var requestResult: string

    /** A loaded wrapper: its current session was created by it, with its options. */
    ghost predicate Valid()
      reads this
    {
      && failure.None?
      && session.options == options
      && session.serial < sessionsCreated
    }

    /** Runs `init`: create the engine, then the first session. When session
        creation throws, the engine is closed before the exception leaves. */
    constructor (handle: int, source: ModelSource, maxTokens: int, options: SessionOptions,
                 randomSeed: int, load: Load)
      ensures this.handle == handle && this.source == source && this.maxTokens == maxTokens
      ensures this.options == options && this.randomSeed == randomSeed
      ensures load.Loaded? ==> failure == None && Valid()
      ensures load.Loaded? ==> engineOpen && sessionOpen && session == Session(0, options)
      ensures !load.Loaded? ==> failure == Some(load.message)
      ensures !load.Loaded? ==> !engineOpen && !sessionOpen
      ensures requestId == 0 && requestResult == ""
    {
      this.handle := handle;
      this.source := source;
      this.maxTokens := maxTokens;
      this.options := options;
      this.randomSeed := randomSeed;
      requestId := 0;
      requestResult := "";
      session := Session(0, options);
      match load {
        case Loaded =>
          failure := None;
          engineOpen := true;
          sessionOpen := true;
          sessionsCreated := 1;
        case EngineRejected(message) =>
          failure := Some(message);
          engineOpen := false;
          sessionOpen := false;
          sessionsCreated := 0;
        case SessionRejected(message) =>
          failure := Some(message);
          sessionOpen := false;
          sessionsCreated := 0;
          // the engine was created; it is closed before rethrowing
          engineOpen := false;
      }
    }

    /** `generateResponseAsync`: record the request, reset the accumulated
        result, replace the session by a fresh one with the same options, add
        the prompt, and relay each fragment the engine streams. The callback
        gets the accumulated result with the fragment flagged as finished, or
        "" when preparing the query throws (after one error event). The
        engine options set no error listener and the progress listener sees
        only results, so an engine failure mid-stream reaches nobody: no
        error event, and no callback. */
    method GenerateResponseAsync(requestId: int, prompt: string, setup: Setup, stream: Stream)
      returns (emitted: seq<Event>, callback: Option<string>)
      requires Valid()
      modifies this
      ensures Valid()
      ensures this.requestId == requestId
      ensures engineOpen == old(engineOpen)
      ensures setup.SessionCreateFails? ==>
                session == old(session) && !sessionOpen && sessionsCreated == old(sessionsCreated)
      ensures !setup.SessionCreateFails? ==>
                && session == Session(old(sessionsCreated), options) && sessionOpen
                && sessionsCreated == old(sessionsCreated) + 1
      ensures setup.Ready? ==>
                && emitted == PartialEvents(handle, requestId, stream.parts)
                && requestResult == Concat(stream.parts)
                && callback == (if stream.end.Finished? && |stream.parts| > 0
                                then Some(Concat(stream.parts)) else None)
      ensures !setup.Ready? ==>
                && emitted == [ErrorResponse(handle, requestId, setup.message)]
                && requestResult == ""
                && callback == Some("")
    {
      this.requestId := requestId;
      requestResult := "";
      sessionOpen := false;
      if setup.SessionCreateFails? {
        emitted, callback := [ErrorResponse(handle, requestId, setup.message)], Some("");
        return;
      }
      session := Session(sessionsCreated, options);
      sessionsCreated := sessionsCreated + 1;
      sessionOpen := true;
      if setup.AddQueryFails? {
        emitted, callback := [ErrorResponse(handle, requestId, setup.message)], Some("");
        return;
      }
      emitted, callback := [], None;
      var parts := stream.parts;
      var i := 0;
      while i < |parts|
        invariant 0 <= i <= |parts|
        invariant emitted == PartialEvents(handle, requestId, parts[..i])
        invariant requestResult == Concat(parts[..i])
        invariant callback == (if i == |parts| && i > 0 && stream.end.Finished?
                               then Some(Concat(parts)) else None)
        invariant Valid() && this.requestId == requestId && sessionOpen
        invariant engineOpen == old(engineOpen)
        invariant session == Session(old(sessionsCreated), options)
        invariant sessionsCreated == old(sessionsCreated) + 1
      {
        var result := parts[i];
        emitted := emitted + [PartialResponse(handle, requestId, result)];
        assert parts[..i + 1][..i] == parts[..i];
        requestResult := requestResult + result;
        var isFinished := i == |parts| - 1 && stream.end.Finished?;
        if isFinished {
          assert parts[..i + 1] == parts;
          callback := Some(requestResult);
        }
        i := i + 1;
      }
      assert parts[..i] == parts;
    }

    /** `generateResponse`: the same preparation, then one blocking call that
        returns the whole text. Nothing is streamed; a failure is reported as
        one error event and then rethrown. When the engine never finishes,
        the call never returns (None). */
    method GenerateResponse(requestId: int, prompt: string, setup: Setup, stream: Stream)
      returns (r: Option<Result<string>>, emitted: seq<Event>)
      requires Valid()
      modifies this
      ensures Valid()
      ensures this.requestId == requestId && requestResult == ""
      ensures engineOpen == old(engineOpen)
      ensures setup.SessionCreateFails? ==>
                session == old(session) && !sessionOpen && sessionsCreated == old(sessionsCreated)
      ensures !setup.SessionCreateFails? ==>
                && session == Session(old(sessionsCreated), options) && sessionOpen
                && sessionsCreated == old(sessionsCreated) + 1
      ensures setup.Ready? && stream.end.Finished? ==> r == Some(Success(Concat(stream.parts))) && emitted == []
      ensures setup.Ready? && stream.end.Stalled? ==> r == None && emitted == []
      ensures !setup.Ready? ==>
                r == Some(Failure(setup.message)) && emitted == [ErrorResponse(handle, requestId, setup.message)]
      ensures setup.Ready? && stream.end.Broken? ==>
                && r == Some(Failure(stream.end.message))
                && emitted == [ErrorResponse(handle, requestId, stream.end.message)]
    {
      this.requestId := requestId;
      requestResult := "";
      sessionOpen := false;
      if setup.SessionCreateFails? {
        r, emitted := Some(Failure(setup.message)), [ErrorResponse(handle, requestId, setup.message)];
        return;
      }
      session := Session(sessionsCreated, options);
      sessionsCreated := sessionsCreated + 1;
      sessionOpen := true;
      if setup.AddQueryFails? {
        r, emitted := Some(Failure(setup.message)), [ErrorResponse(handle, requestId, setup.message)];
        return;
      }
      match stream.end {
        case Finished =>
          r, emitted := Some(Success(Concat(stream.parts))), [];
        case Broken(message) =>
          r, emitted := Some(Failure(message)), [ErrorResponse(handle, requestId, message)];
        case Stalled =>
          r, emitted := None, [];
      }
    }

    /** `close`: release the session and the engine. */
    method Close()
      modifies this
      ensures !engineOpen && !sessionOpen
      ensures session == old(session) && sessionsCreated == old(sessionsCreated)
      ensures requestId == old(requestId) && requestResult == old(requestResult)
    {
      sessionOpen := false;
      engineOpen := false;
    }
  }
}
