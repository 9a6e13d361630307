/** The JavaScript side of the binding: choosing how to load a model from a
    hook configuration, numbering requests, and turning the native event
    stream back into one request's text by filtering on (handle, request
    id, abort signal). */
module JsModule {
  import opened Common
  import opened Events

  datatype ModelLocation = Asset(modelName: string) | File(modelPath: string)

  datatype LlmInferenceConfig = LlmInferenceConfig(location: ModelLocation, maxTokens: Option<int>,
                                                   topK: Option<int>, temperature: Option<real>,
                                                   randomSeed: Option<int>)

  /** The native creation call the hook makes. */
  datatype CreateCall = CreateCall(fromAsset: bool, key: string, maxTokens: int, topK: int,
                                   temperature: real, randomSeed: int)

  const DefaultMaxTokens: int := 512
  const DefaultTopK: int := 40
  const DefaultTemperature: real := 0.8
  const DefaultRandomSeed: int := 0

  function OrElse<T>(o: Option<T>, default: T): T
  {
    if o.Some? then o.value else default
  }

  /** `getConfigStorageKey`: the asset name or the file path. */
  function GetConfigStorageKey(config: LlmInferenceConfig): (key: string)
    ensures config.location.Asset? ==> key == config.location.modelName
    ensures config.location.File? ==> key == config.location.modelPath
  {
    match config.location
    case Asset(name) => name
    case File(path) => path
  }

  /** What the hook's effect asks the native module to do: nothing for an
      empty key, otherwise load from the bundle or from the path, with each
      omitted parameter replaced by its default. */
  function LoadPlan(config: LlmInferenceConfig): Option<CreateCall>
  {
    var key := GetConfigStorageKey(config);
    if |key| == 0 then None
    else Some(CreateCall(config.location.Asset?, key,
                         OrElse(config.maxTokens, DefaultMaxTokens),
                         OrElse(config.topK, DefaultTopK),
                         OrElse(config.temperature, DefaultTemperature),
                         OrElse(config.randomSeed, DefaultRandomSeed)))
  }

  /** A model is loaded exactly when the storage key is not empty, from the
      place the location names. */
  lemma LoadPlanSkipsEmptyKey(config: LlmInferenceConfig)
    ensures LoadPlan(config).None? <==> (config.location.Asset? && config.location.modelName == "")
                                        || (config.location.File? && config.location.modelPath == "")
    ensures LoadPlan(config).Some? ==>
              && LoadPlan(config).value.fromAsset == config.location.Asset?
              && LoadPlan(config).value.key == GetConfigStorageKey(config)
  {
  }

  /** Every given parameter is passed on unchanged (a given 0 included);
      every omitted one becomes 512 tokens, topK 40, temperature 0.8 or
      seed 0. */
  lemma LoadPlanParameters(config: LlmInferenceConfig)
    requires LoadPlan(config).Some?
    ensures var c := LoadPlan(config).value;
            && (config.maxTokens.Some? ==> c.maxTokens == config.maxTokens.value)
            && (config.maxTokens.None? ==> c.maxTokens == 512)
            && (config.topK.Some? ==> c.topK == config.topK.value)
            && (config.topK.None? ==> c.topK == 40)
            && (config.temperature.Some? ==> c.temperature == config.temperature.value)
            && (config.temperature.None? ==> c.temperature == 0.8)
            && (config.randomSeed.Some? ==> c.randomSeed == config.randomSeed.value)
            && (config.randomSeed.None? ==> c.randomSeed == 0)
  {
  }

  /** A generation event the request's listeners act on: same handle, same
      request id, and the abort signal not raised. */
  predicate Matches(ev: Event, handle: int, requestId: int, aborted: bool)
  {
    (ev.PartialResponse? || ev.ErrorResponse?) && ev.handle == handle && ev.requestId == requestId && !aborted
  }

  /** The fragments a request's partial listener takes from the incoming
      events; the abort signal is raised from event `abortAt` on. */
  function Delivered(evs: seq<Event>, handle: int, requestId: int, abortAt: nat): seq<string>
  {
    if |evs| == 0 then []
    else
      var n := |evs| - 1;
      Delivered(evs[..n], handle, requestId, abortAt)
      + (if evs[n].PartialResponse? && Matches(evs[n], handle, requestId, n >= abortAt)
         then [evs[n].response] else [])
  }

  /** The index of the first incoming error event the request's error
      listener acts on. */
  function FirstError(evs: seq<Event>, handle: int, requestId: int, abortAt: nat): (k: Option<nat>)
    ensures k.Some? ==> k.value < |evs| && evs[k.value].ErrorResponse?
                        && Matches(evs[k.value], handle, requestId, k.value >= abortAt)
    ensures k.Some? ==> forall j :: 0 <= j < k.value && evs[j].ErrorResponse? ==>
                          !Matches(evs[j], handle, requestId, j >= abortAt)
    ensures k.None? ==> forall j :: 0 <= j < |evs| && evs[j].ErrorResponse? ==>
                          !Matches(evs[j], handle, requestId, j >= abortAt)
  {
    if |evs| == 0 then None
    else
      var n := |evs| - 1;
      var earlier := FirstError(evs[..n], handle, requestId, abortAt);
      if earlier.Some? then earlier
      else if evs[n].ErrorResponse? && Matches(evs[n], handle, requestId, n >= abortAt) then Some(n)
      else None
  }

  /** Before the abort signal is raised the listener sees exactly the
      fragments the native side sent for this request. */
  lemma {:induction false} DeliveredUnaborted(evs: seq<Event>, handle: int, requestId: int, abortAt: nat)
    requires abortAt >= |evs|
    ensures Delivered(evs, handle, requestId, abortAt) == ResponsesFor(evs, handle, requestId)
  {
    if |evs| > 0 {
      DeliveredUnaborted(evs[..|evs| - 1], handle, requestId, abortAt);
    }
  }

  /** After the abort signal is raised nothing more is delivered. */
  lemma {:induction false} DeliveredAfterAbort(evs: seq<Event>, handle: int, requestId: int, abortAt: nat)
    requires abortAt <= |evs|
    ensures Delivered(evs, handle, requestId, abortAt) == Delivered(evs[..abortAt], handle, requestId, abortAt)
  {
    if |evs| > abortAt {
      var n := |evs| - 1;
      DeliveredAfterAbort(evs[..n], handle, requestId, abortAt);
      assert evs[..n][..abortAt] == evs[..abortAt];
    } else {
      assert evs[..abortAt] == evs;
    }
  }

  /** A request that is not aborted receives, in order, exactly the fragments
      the model streamed for it, even when another request's events are
      interleaved before it. */
  lemma StreamedTextArrives(other: seq<string>, otherHandle: int, otherRequest: int,
                            parts: seq<string>, handle: int, requestId: int)
    requires otherHandle != handle || otherRequest != requestId
    ensures var evs := PartialEvents(otherHandle, otherRequest, other) + PartialEvents(handle, requestId, parts);
            Delivered(evs, handle, requestId, |evs|) == parts
  {
    var a := PartialEvents(otherHandle, otherRequest, other);
    var b := PartialEvents(handle, requestId, parts);
    DeliveredUnaborted(a + b, handle, requestId, |a + b|);
    ResponsesForAppend(a, b, handle, requestId);
    ResponsesForOtherRequest(otherHandle, otherRequest, other, handle, requestId);
    ResponsesForPartialEvents(handle, requestId, parts);
  }

  /** The emitter's listener registry. */
  class EventBus {
    var subscriptions: set<nat>
    var nextId: nat

    ghost predicate Valid()
      reads this
    {
      forall s :: s in subscriptions ==> s < nextId
    }

    constructor ()
      ensures Valid() && subscriptions == {}
    {
      subscriptions := {};
      nextId := 0;
    }

    method AddListener() returns (id: nat)
      requires Valid()
      modifies this
      ensures Valid()
      ensures id !in old(subscriptions) && subscriptions == old(subscriptions) + {id}
    {
      id := nextId;
      nextId := nextId + 1;
      subscriptions := subscriptions + {id};
    }

    method Remove(id: nat)
      requires Valid()
      modifies this
      ensures Valid()
      ensures subscriptions == old(subscriptions) - {id}
    {
      subscriptions := subscriptions - {id};
    }
  }

  /** `generateStreamingText`: a falsy handle (0) rejects at once. Otherwise
      subscribe to both event kinds, then hand every incoming event to them:
      matching fragments go to `onPartialResponse` and into `fullResponse`;
      the first matching error goes to `onError`, removes both
      subscriptions and rejects. If no error matched, the native promise
      decides: either way both subscriptions are removed and the outcome
      passed on; while it is pending the subscriptions stay. */
  method GenerateStreamingText(bus: EventBus, modelHandle: int, requestId: int,
                               hasOnPartial: bool, hasOnError: bool,
                               incoming: seq<Event>, abortAt: nat, native: Settlement<bool>)
    returns (r: Settlement<()>, partials: seq<string>, errors: seq<string>, fullResponse: string)
    requires bus.Valid()
    modifies bus
    ensures bus.Valid()
    ensures modelHandle == 0 ==>
              && r == Rejected("Error", "Invalid model handle")
              && partials == [] && errors == [] && fullResponse == ""
              && bus.subscriptions == old(bus.subscriptions)
    ensures modelHandle != 0 ==>
              var stop := FirstError(incoming, modelHandle, requestId, abortAt);
              var seen := if stop.Some? then incoming[..stop.value] else incoming;
              && fullResponse == Concat(Delivered(seen, modelHandle, requestId, abortAt))
              && partials == (if hasOnPartial then Delivered(seen, modelHandle, requestId, abortAt) else [])
              && errors == (if hasOnError && stop.Some? then [incoming[stop.value].error] else [])
              && r == (if stop.Some? then Rejected("Error", incoming[stop.value].error)
                       else match native
                            case Resolved(_) => Resolved(())
                            case Rejected(code, message) => Rejected(code, message)
                            case Pending => Pending)
              && (r.Pending? ==> |bus.subscriptions - old(bus.subscriptions)| == 2)
              && (!r.Pending? ==> bus.subscriptions == old(bus.subscriptions))
  {
    partials, errors, fullResponse := [], [], "";
    if modelHandle == 0 {
      r := Rejected("Error", "Invalid model handle");
      return;
    }
    var partialSubscription := bus.AddListener();
    var errorSubscription := bus.AddListener();
    var stop;
    stop, partials, fullResponse := RelayEvents(modelHandle, requestId, hasOnPartial, incoming, abortAt);
    if stop.Some? {
      if hasOnError {
        errors := [incoming[stop.value].error];
      }
      bus.Remove(errorSubscription);
      bus.Remove(partialSubscription);
      r := Rejected("Error", incoming[stop.value].error);
      return;
    }
    match native {
      case Resolved(_) =>
        bus.Remove(errorSubscription);
        bus.Remove(partialSubscription);
        r := Resolved(());
      case Rejected(code, message) =>
        bus.Remove(errorSubscription);
        bus.Remove(partialSubscription);
        r := Rejected(code, message);
      case Pending =>
        assert bus.subscriptions - old(bus.subscriptions) == {partialSubscription, errorSubscription};
        r := Pending;
    }
  }

  /** The two listeners of `generateStreamingText` at work: every incoming
      event is looked at in order; matching fragments go to
      `onPartialResponse` (when given) and into `fullResponse`, and the first
      matching error stops the relay. */
  method RelayEvents(modelHandle: int, requestId: int, hasOnPartial: bool, incoming: seq<Event>, abortAt: nat)
    returns (stop: Option<nat>, partials: seq<string>, fullResponse: string)
    ensures stop == FirstError(incoming, modelHandle, requestId, abortAt)
    ensures var seen := if stop.Some? then incoming[..stop.value] else incoming;
            && fullResponse == Concat(Delivered(seen, modelHandle, requestId, abortAt))
            && partials == (if hasOnPartial then Delivered(seen, modelHandle, requestId, abortAt) else [])
  {
    partials, fullResponse := [], "";
    var i := 0;
    while i < |incoming|
      invariant 0 <= i <= |incoming|
      invariant FirstError(incoming[..i], modelHandle, requestId, abortAt).None?
      invariant fullResponse == Concat(Delivered(incoming[..i], modelHandle, requestId, abortAt))
      invariant partials == (if hasOnPartial then Delivered(incoming[..i], modelHandle, requestId, abortAt) else [])
    {
      var ev := incoming[i];
      RelayStep(incoming, i, modelHandle, requestId, abortAt);
      if Matches(ev, modelHandle, requestId, i >= abortAt) {
        if ev.PartialResponse? {
          if hasOnPartial {
            partials := partials + [ev.response];
          }
          ConcatSnoc(Delivered(incoming[..i], modelHandle, requestId, abortAt), ev.response);
          fullResponse := fullResponse + ev.response;
        } else {
          stop := Some(i);
          FirstErrorPrefix(incoming, i + 1, modelHandle, requestId, abortAt);
          return;
        }
      } else {
        assert Delivered(incoming[..i + 1], modelHandle, requestId, abortAt)
            == Delivered(incoming[..i], modelHandle, requestId, abortAt);
      }
      i := i + 1;
    }
    assert incoming[..i] == incoming;
    stop := None;
  }

  /** One more event extends what the listeners have seen by at most that
      event. */
  lemma RelayStep(evs: seq<Event>, i: nat, handle: int, requestId: int, abortAt: nat)
    requires i < |evs|
    ensures Delivered(evs[..i + 1], handle, requestId, abortAt)
         == Delivered(evs[..i], handle, requestId, abortAt)
            + (if evs[i].PartialResponse? && Matches(evs[i], handle, requestId, i >= abortAt)
               then [evs[i].response] else [])
    ensures FirstError(evs[..i + 1], handle, requestId, abortAt)
         == (if FirstError(evs[..i], handle, requestId, abortAt).Some?
             then FirstError(evs[..i], handle, requestId, abortAt)
             else if evs[i].ErrorResponse? && Matches(evs[i], handle, requestId, i >= abortAt) then Some(i)
             else None)
  {
    assert evs[..i + 1][..i] == evs[..i];
  }

  /** An error found within a prefix is the first error of the whole run. */
  lemma {:induction false} FirstErrorPrefix(evs: seq<Event>, k: nat, handle: int, requestId: int, abortAt: nat)
    requires k <= |evs|
    requires FirstError(evs[..k], handle, requestId, abortAt).Some?
    ensures FirstError(evs, handle, requestId, abortAt) == FirstError(evs[..k], handle, requestId, abortAt)
  {
    if k < |evs| {
      var n := |evs| - 1;
      assert evs[..n][..k] == evs[..k];
      FirstErrorPrefix(evs[..n], k, handle, requestId, abortAt);
    } else {
      assert evs[..k] == evs;
    }
  }

  /** The state `useLlmInference` keeps across renders. */
  class LlmInferenceHook {
    var modelHandle: Option<int>
    var nextRequestId: int

    constructor ()
      ensures modelHandle == None && nextRequestId == 0
    {
      modelHandle := None;
      nextRequestId := 0;
    }

    /** The loading effect: nothing for an empty key; otherwise the creation
        call of `LoadPlan`, and on success the handle becomes the hook's. A
        failed creation leaves the hook's handle as it was. `release` is the
        handle the effect's cleanup passes to `releaseModel`: the one this
        effect created, and nothing when its creation failed or has not
        resolved by the time the cleanup runs. */
    method LoadModel(config: LlmInferenceConfig, created: Settlement<int>)
      returns (call: Option<CreateCall>, release: Option<int>)
      modifies this
      ensures call == LoadPlan(config)
      ensures call.Some? && created.Resolved? ==> modelHandle == Some(created.value)
      ensures call.None? || !created.Resolved? ==> modelHandle == old(modelHandle)
      ensures release.Some? <==> call.Some? && created.Resolved?
      ensures release.Some? ==> release == Some(created.value) && modelHandle == release
      ensures nextRequestId == old(nextRequestId)
    {
      call := LoadPlan(config);
      var newHandle: Option<int> := None;
      if call.Some? && created.Resolved? {
        modelHandle := Some(created.value);
        newHandle := Some(created.value);
      }
      release := newHandle;
    }

    /** `generateResponse`: throw without a handle; otherwise take the next
        request id, forward this request's matching events to the callbacks
        while the native call runs, and remove both subscriptions when it
        settles. */
    method GenerateResponse(bus: EventBus, prompt: string, hasOnPartial: bool, hasOnError: bool,
                            incoming: seq<Event>, abortAt: nat, native: Settlement<string>)
      returns (r: Settlement<string>, partials: seq<string>, errors: seq<string>)
      requires bus.Valid()
      modifies this, bus
      ensures bus.Valid()
      ensures modelHandle == old(modelHandle)
      ensures old(modelHandle).None? ==>
                && r == Rejected("Error", "Model handle is not defined")
                && partials == [] && errors == []
                && nextRequestId == old(nextRequestId)
                && bus.subscriptions == old(bus.subscriptions)
      ensures old(modelHandle).Some? ==>
                && nextRequestId == old(nextRequestId) + 1
                && r == native
                && partials == (if hasOnPartial
                                then Delivered(incoming, old(modelHandle).value, old(nextRequestId), abortAt)
                                else [])
                && errors == (if hasOnError
                              then Errors(incoming, old(modelHandle).value, old(nextRequestId), abortAt)
                              else [])
                && (r.Pending? ==> |bus.subscriptions - old(bus.subscriptions)| == 2)
                && (!r.Pending? ==> bus.subscriptions == old(bus.subscriptions))
    {
      partials, errors := [], [];
      if modelHandle.None? {
        r := Rejected("Error", "Model handle is not defined");
        return;
      }
      var handle := modelHandle.value;
      var requestId := nextRequestId;
      nextRequestId := nextRequestId + 1;
      var partialSubscription := bus.AddListener();
      var errorSubscription := bus.AddListener();
      partials, errors := ForwardEvents(handle, requestId, hasOnPartial, hasOnError, incoming, abortAt);
      r := native;
      if !native.Pending? {
        // finally
        bus.Remove(partialSubscription);
        bus.Remove(errorSubscription);
      } else {
        assert bus.subscriptions - old(bus.subscriptions) == {partialSubscription, errorSubscription};
      }
    }
  }

  /** The hook's two listeners while a request runs: a matching fragment
      goes to `onPartial` and a matching error to `onError`, when given;
      neither stops the other. */
  method ForwardEvents(handle: int, requestId: int, hasOnPartial: bool, hasOnError: bool,
                       incoming: seq<Event>, abortAt: nat)
    returns (partials: seq<string>, errors: seq<string>)
    ensures partials == (if hasOnPartial then Delivered(incoming, handle, requestId, abortAt) else [])
    ensures errors == (if hasOnError then Errors(incoming, handle, requestId, abortAt) else [])
  {
    partials, errors := [], [];
    var i := 0;
    while i < |incoming|
      invariant 0 <= i <= |incoming|
      invariant partials == (if hasOnPartial then Delivered(incoming[..i], handle, requestId, abortAt) else [])
      invariant errors == (if hasOnError then Errors(incoming[..i], handle, requestId, abortAt) else [])
    {
      var ev := incoming[i];
      assert incoming[..i + 1][..i] == incoming[..i];
      if Matches(ev, handle, requestId, i >= abortAt) {
        if ev.PartialResponse? && hasOnPartial {
          partials := partials + [ev.response];
        } else if ev.ErrorResponse? && hasOnError {
          errors := errors + [ev.error];
        }
      }
      i := i + 1;
    }
    assert incoming[..i] == incoming;
  }

  /** The messages a request's error listener takes from the incoming events. */
  function Errors(evs: seq<Event>, handle: int, requestId: int, abortAt: nat): seq<string>
  {
    if |evs| == 0 then []
    else
      var n := |evs| - 1;
      Errors(evs[..n], handle, requestId, abortAt)
      + (if evs[n].ErrorResponse? && Matches(evs[n], handle, requestId, n >= abortAt)
         then [evs[n].error] else [])
  }
}
