/** The Android native module: a handle registry over per-model wrappers, a
    download manager over the app's `llm_models` directory, and the event
    channel both report through. The file system is a map from file name to
    size; the HTTP body is a sequence of chunk sizes; the engine is a value
    saying how each native call turns out. */
module AndroidModule {
  import opened Common
  import opened Events
  import opened NativeEngine
  import opened DownloadProgress
  import opened AndroidInference

  /** `downloadModel` options; `timeout` and `headers` only shape the HTTP request. */
  datatype DownloadOptions = DownloadOptions(overwrite: Option<bool>, timeout: Option<int>)

  /** What the HTTP transfer does. Either opening the connection throws
      (malformed URL, connect failure, HTTP error), or a body arrives in
      chunks of the given sizes with the announced content length (-1 when
      absent) and then either ends or throws on the next read or write. */
  datatype Transfer =
    | ConnectFails(message: string)
    | Body(contentLength: int, chunks: seq<nat>, breaksWith: Option<string>)

  /** Defaults `createModelFromDownloaded` uses for omitted parameters. */
  const DownloadedMaxTokens: int := 1024
  const DownloadedTopK: int := 40
  const DownloadedTemperature: real := 0.7
  const DownloadedRandomSeed: int := 42

  /** The file a download is written to before it is renamed. */
  function TempName(name: string): string
  {
    name + ".temp"
  }

  function OrElse<T>(o: Option<T>, default: T): T
  {
    if o.Some? then o.value else default
  }

  class ExpoLlmMediapipeModule {
    var nextHandle: int
    var modelMap: map<int, LlmInferenceModel>
    /** Names with a download job registered. */
    var activeDownloads: set<string>
    /** `<filesDir>/llm_models`: file name to size. */
    var modelFiles: map<string, nat>
    /** `<filesDir>`: where bundled assets are copied, file name to size. */
    var internalFiles: map<string, nat>
    /** The APK's bundled assets, name to size. */
    const assets: map<string, nat>
    /** Everything sent on the event channel, oldest first. */
    var events: seq<Event>

    /** Handles are positive, below the counter, and each wrapper is loaded
        and tags its events with its own handle. */
    ghost predicate Valid()
      reads this, modelMap.Values
    {
      && nextHandle >= 1
      && forall h :: h in modelMap ==>
           && 1 <= h < nextHandle
           && modelMap[h].handle == h
           && modelMap[h].Valid()
    }

    /** The wrapper object behind `handle`, if any. */
    ghost function ModelAt(handle: int): set<object>
      reads this
    {
      if handle in modelMap then {modelMap[handle]} else {}
    }

    constructor (assets: map<string, nat>, modelFiles: map<string, nat>, internalFiles: map<string, nat>)
      ensures Valid()
      ensures nextHandle == 1 && modelMap == map[] && activeDownloads == {} && events == []
      ensures this.assets == assets && this.modelFiles == modelFiles && this.internalFiles == internalFiles
    {
      this.assets := assets;
      this.modelFiles := modelFiles;
      this.internalFiles := internalFiles;
      nextHandle := 1;
      modelMap := map[];
      activeDownloads := {};
      events := [];
    }

    /** `createModelInternal`: take the next handle, then build the wrapper;
        store it only when `init` did not throw. */
    method CreateModelInternal(source: ModelSource, maxTokens: int, topK: int, temperature: real,
                               randomSeed: int, load: Load)
      returns (r: Result<int>)
      requires Valid()
      modifies this
      ensures Valid()
      ensures nextHandle == old(nextHandle) + 1
      ensures load.Loaded? ==>
                && r == Success(old(nextHandle))
                && old(nextHandle) !in old(modelMap)
                && modelMap.Keys == old(modelMap.Keys) + {old(nextHandle)}
                && (forall h :: h in old(modelMap) ==> modelMap[h] == old(modelMap[h]))
                && fresh(modelMap[old(nextHandle)])
                && modelMap[old(nextHandle)].engineOpen && modelMap[old(nextHandle)].sessionOpen
                && modelMap[old(nextHandle)].source == source
                && modelMap[old(nextHandle)].maxTokens == maxTokens
                && modelMap[old(nextHandle)].options == SessionOptions(temperature, topK)
                && modelMap[old(nextHandle)].randomSeed == randomSeed
      ensures !load.Loaded? ==> r == Failure(load.message) && modelMap == old(modelMap)
      ensures activeDownloads == old(activeDownloads) && modelFiles == old(modelFiles)
      ensures internalFiles == old(internalFiles) && events == old(events)
    {
      var modelHandle := nextHandle;
      nextHandle := nextHandle + 1;
      var model := new LlmInferenceModel(modelHandle, source, maxTokens,
                                         SessionOptions(temperature, topK), randomSeed, load);
      if model.failure.Some? {
        r := Failure(model.failure.value);
        return;
      }
      modelMap := modelMap[modelHandle := model];
      r := Success(modelHandle);
    }

    /** `createModel`: load a model from a path. */
    method CreateModel(modelPath: string, maxTokens: int, topK: int, temperature: real,
                       randomSeed: int, load: Load)
      returns (r: Settlement<int>)
      requires Valid()
      modifies this
      ensures Valid()
      ensures nextHandle == old(nextHandle) + 1
      ensures load.Loaded? ==>
                && r == Resolved(old(nextHandle))
                && modelMap.Keys == old(modelMap.Keys) + {old(nextHandle)}
                && (forall h :: h in old(modelMap) ==> modelMap[h] == old(modelMap[h]))
                && fresh(modelMap[old(nextHandle)])
                && modelMap[old(nextHandle)].engineOpen && modelMap[old(nextHandle)].sessionOpen
                && modelMap[old(nextHandle)].source == FilePath(modelPath)
      ensures !load.Loaded? ==>
                r == Rejected("MODEL_CREATION_FAILED", load.message) && modelMap == old(modelMap)
      ensures activeDownloads == old(activeDownloads) && modelFiles == old(modelFiles)
      ensures internalFiles == old(internalFiles) && events == old(events)
    {
      var created := CreateModelInternal(FilePath(modelPath), maxTokens, topK, temperature,
                                         randomSeed, load);
      r := match created
           case Success(h) => Resolved(h)
           case Failure(message) => Rejected("MODEL_CREATION_FAILED", message);
    }

    /** `createModelFromAsset`: copy the bundled asset into the files
        directory unless a file of that name is already there, then load the
        copy. A missing asset rejects before a handle is taken. */
    method CreateModelFromAsset(modelName: string, maxTokens: int, topK: int, temperature: real,
                                randomSeed: int, load: Load)
      returns (r: Settlement<int>)
      requires Valid()
      modifies this
      ensures Valid()
      ensures modelName !in old(internalFiles) && modelName !in assets ==>
                && r == Rejected("MODEL_CREATION_FAILED",
                                 "Asset file " + modelName + " does not exist in assets")
                && nextHandle == old(nextHandle) && modelMap == old(modelMap)
                && internalFiles == old(internalFiles)
      ensures modelName in old(internalFiles) || modelName in assets ==>
                && internalFiles == (if modelName in old(internalFiles) then old(internalFiles)
                                     else old(internalFiles)[modelName := assets[modelName]])
                && nextHandle == old(nextHandle) + 1
                && (load.Loaded? ==>
                      && r == Resolved(old(nextHandle))
                      && modelMap.Keys == old(modelMap.Keys) + {old(nextHandle)}
                      && (forall h :: h in old(modelMap) ==> modelMap[h] == old(modelMap[h]))
                      && modelMap[old(nextHandle)].source == InternalFile(modelName))
                && (!load.Loaded? ==>
                      r == Rejected("MODEL_CREATION_FAILED", load.message) && modelMap == old(modelMap))
      ensures activeDownloads == old(activeDownloads) && modelFiles == old(modelFiles)
      ensures events == old(events)
    {
      if modelName !in internalFiles {
        if modelName !in assets {
          r := Rejected("MODEL_CREATION_FAILED", "Asset file " + modelName + " does not exist in assets");
          return;
        }
        internalFiles := internalFiles[modelName := assets[modelName]];
      }
      var created := CreateModelInternal(InternalFile(modelName), maxTokens, topK, temperature,
                                         randomSeed, load);
      r := match created
           case Success(h) => Resolved(h)
           case Failure(message) => Rejected("MODEL_CREATION_FAILED", message);
    }

    /** `releaseModel`: drop the entry for `handle`. The wrapper is not
        closed: its engine and session stay open (see the Findings). */
    method ReleaseModel(handle: int) returns (r: Settlement<bool>)
      requires Valid()
      modifies this
      ensures Valid()
      ensures handle in old(modelMap) ==> r == Resolved(true)
      ensures handle !in old(modelMap) ==>
                r == Rejected("INVALID_HANDLE", "No model found for handle " + IntToString(handle))
      ensures modelMap == old(modelMap) - {handle}
      ensures nextHandle == old(nextHandle) && activeDownloads == old(activeDownloads)
      ensures modelFiles == old(modelFiles) && internalFiles == old(internalFiles) && events == old(events)
    {
      var removed := handle in modelMap;
      modelMap := modelMap - {handle};
      if removed {
        r := Resolved(true);
      } else {
        r := Rejected("INVALID_HANDLE", "No model found for handle " + IntToString(handle));
      }
    }

    /** The corrected `releaseModel`: drop the entry and close the wrapper,
        releasing its engine and session before resolving. */
    method ReleaseModelAndClose(handle: int) returns (r: Settlement<bool>)
      requires Valid()
      modifies this, ModelAt(handle)
      ensures Valid()
      ensures handle in old(modelMap) ==>
                && r == Resolved(true)
                && !old(modelMap[handle]).engineOpen && !old(modelMap[handle]).sessionOpen
      ensures handle !in old(modelMap) ==>
                r == Rejected("INVALID_HANDLE", "No model found for handle " + IntToString(handle))
      ensures modelMap == old(modelMap) - {handle}
      ensures nextHandle == old(nextHandle) && activeDownloads == old(activeDownloads)
      ensures modelFiles == old(modelFiles) && internalFiles == old(internalFiles) && events == old(events)
    {
      if handle in modelMap {
        var model := modelMap[handle];
        modelMap := modelMap - {handle};
        model.Close();
        r := Resolved(true);
      } else {
        r := Rejected("INVALID_HANDLE", "No model found for handle " + IntToString(handle));
      }
    }

    /** `generateResponse`: the buffered generation. An unknown handle is
        rejected without touching any wrapper; a failure of the wrapper is
        rejected with `GENERATION_FAILED` after its error event. */
    method GenerateResponse(handle: int, requestId: int, prompt: string, setup: Setup, stream: Stream)
      returns (r: Settlement<string>)
      requires Valid()
      modifies this, ModelAt(handle)
      ensures Valid()
      ensures modelMap == old(modelMap) && nextHandle == old(nextHandle)
      ensures activeDownloads == old(activeDownloads) && modelFiles == old(modelFiles)
      ensures internalFiles == old(internalFiles)
      ensures handle !in modelMap ==>
                && r == Rejected("INVALID_HANDLE", "No model found for handle " + IntToString(handle))
                && events == old(events)
      ensures handle in modelMap ==> modelMap[handle].requestId == requestId
      ensures handle in modelMap && setup.Ready? && stream.end.Finished? ==>
                r == Resolved(Concat(stream.parts)) && events == old(events)
      ensures handle in modelMap && setup.Ready? && stream.end.Stalled? ==>
                r == Pending && events == old(events)
      ensures handle in modelMap && !setup.Ready? ==>
                && r == Rejected("GENERATION_FAILED", setup.message)
                && events == old(events) + [ErrorResponse(handle, requestId, setup.message)]
      ensures handle in modelMap && setup.Ready? && stream.end.Broken? ==>
                && r == Rejected("GENERATION_FAILED", stream.end.message)
                && events == old(events) + [ErrorResponse(handle, requestId, stream.end.message)]
    {
      if handle !in modelMap {
        r := Rejected("INVALID_HANDLE", "No model found for handle " + IntToString(handle));
        return;
      }
      var model := modelMap[handle];
      var result, emitted := model.GenerateResponse(requestId, prompt, setup, stream);
      events := events + emitted;
      r := match result
           case None => Pending
           case Some(Success(text)) => Resolved(text)
           case Some(Failure(message)) => Rejected("GENERATION_FAILED", message);
    }

    /** `generateResponseAsync`: the streaming generation. Fragments go out as
        `onPartialResponse` events; the promise resolves `true` (never the
        text) once the finished fragment arrives with a non-empty total, is
        rejected with `GENERATION_FAILED` when the total is empty or the
        query could not be prepared, and is left pending when the stream
        never reports completion. */
    method GenerateResponseAsync(handle: int, requestId: int, prompt: string, setup: Setup, stream: Stream)
      returns (r: Settlement<bool>)
      requires Valid()
      modifies this, ModelAt(handle)
      ensures Valid()
      ensures modelMap == old(modelMap) && nextHandle == old(nextHandle)
      ensures activeDownloads == old(activeDownloads) && modelFiles == old(modelFiles)
      ensures internalFiles == old(internalFiles)
      ensures handle !in modelMap ==>
                && r == Rejected("INVALID_HANDLE", "No model found for handle " + IntToString(handle))
                && events == old(events)
      ensures handle in modelMap && setup.Ready? ==>
                && events == old(events) + PartialEvents(handle, requestId, stream.parts)
                && r == (if !stream.end.Finished? || |stream.parts| == 0 then Pending
                         else if Concat(stream.parts) == "" then
                           Rejected("GENERATION_FAILED", "Failed to generate response")
                         else Resolved(true))
      ensures handle in modelMap && !setup.Ready? ==>
                && events == old(events) + [ErrorResponse(handle, requestId, setup.message)]
                && r == Rejected("GENERATION_FAILED", "Failed to generate response")
    {
      if handle !in modelMap {
        r := Rejected("INVALID_HANDLE", "No model found for handle " + IntToString(handle));
        return;
      }
      var model := modelMap[handle];
      var emitted, callback := model.GenerateResponseAsync(requestId, prompt, setup, stream);
      events := events + emitted;
      r := match callback
           case None => Pending
           case Some(result) =>
             if result == "" then Rejected("GENERATION_FAILED", "Failed to generate response")
             else Resolved(true);
    }

    /** `isModelDownloaded`: the file exists and is not empty. */
    method IsModelDownloaded(modelName: string) returns (b: bool)
      ensures b <==> modelName in modelFiles && modelFiles[modelName] > 0
    {
      b := modelName in modelFiles && modelFiles[modelName] > 0;
    }

    /** `getDownloadedModels`: every entry of the download directory,
        including the `.temp` file of a download in progress. */
    method GetDownloadedModels() returns (names: set<string>)
      ensures names == modelFiles.Keys
    {
      names := modelFiles.Keys;
    }

    /** `deleteDownloadedModel`: false when there is no such file. */
    method DeleteDownloadedModel(modelName: string) returns (b: bool)
      modifies this
      ensures b == (modelName in old(modelFiles))
      ensures modelFiles == old(modelFiles) - {modelName}
      ensures nextHandle == old(nextHandle) && modelMap == old(modelMap)
      ensures activeDownloads == old(activeDownloads) && internalFiles == old(internalFiles)
      ensures events == old(events)
    {
      b := modelName in modelFiles;
      modelFiles := modelFiles - {modelName};
    }

    /** `downloadModel`, up to launching the job: a name that already has a
        job is rejected first; then an existing file resolves `true` unless
        `overwrite` is set; otherwise a job is registered and the promise is
        settled by the job (`RunDownloadJob`). */
    method DownloadModel(url: string, modelName: string, options: Option<DownloadOptions>)
      returns (r: Settlement<bool>)
      modifies this
      ensures modelName in old(activeDownloads) ==>
                && r == Rejected("ERR_ALREADY_DOWNLOADING", "This model is already being downloaded")
                && activeDownloads == old(activeDownloads)
      ensures modelName !in old(activeDownloads) && modelName in modelFiles
              && !(options.Some? && OrElse(options.value.overwrite, false)) ==>
                r == Resolved(true) && activeDownloads == old(activeDownloads)
      ensures modelName !in old(activeDownloads)
              && (modelName !in modelFiles || (options.Some? && OrElse(options.value.overwrite, false))) ==>
                r == Pending && activeDownloads == old(activeDownloads) + {modelName}
      ensures nextHandle == old(nextHandle) && modelMap == old(modelMap)
      ensures modelFiles == old(modelFiles) && internalFiles == old(internalFiles)
      ensures events == old(events)
    {
      var overwrite := options.Some? && OrElse(options.value.overwrite, false);
      if modelName in activeDownloads {
        r := Rejected("ERR_ALREADY_DOWNLOADING", "This model is already being downloaded");
        return;
      }
      if modelName in modelFiles && !overwrite {
        r := Resolved(true);
        return;
      }
      activeDownloads := activeDownloads + {modelName};
      r := Pending;
    }

    /** The read loop of the download job: copy the body into `<name>.temp`
        chunk by chunk, checking for cancellation before each read (`isActive`
        reads false from chunk `cancelAt` on) and sending a progress event
        whenever more than 100 ms have passed since the last one. Returns
        whether the whole body was read; a cancelled loop deletes the temp
        file and sends the `cancelled` event. */
    method ReceiveBody(url: string, modelName: string, contentLength: int, chunks: seq<nat>,
                       clock: seq<int>, startTime: int, cancelAt: nat)
      returns (received: bool)
      requires |clock| == |chunks|
      modifies this
      ensures received == (cancelAt >= |chunks|)
      ensures received ==>
                && modelFiles == old(modelFiles)[TempName(modelName) := Sum(chunks)]
                && events == old(events) + ProgressEvents(url, modelName, contentLength, chunks, clock, startTime)
      ensures !received ==>
                && modelFiles == old(modelFiles) - {TempName(modelName)}
                && events == old(events)
                             + ProgressEvents(url, modelName, contentLength,
                                              chunks[..cancelAt], clock[..cancelAt], startTime)
                             + [CancelledEvent(url, modelName)]
      ensures activeDownloads == old(activeDownloads)
      ensures nextHandle == old(nextHandle) && modelMap == old(modelMap)
      ensures internalFiles == old(internalFiles)
    {
      var temp := TempName(modelName);
      modelFiles := modelFiles[temp := 0];
      var total, sent, read := ReadChunks(url, modelName, contentLength, chunks, clock, startTime, cancelAt);
      events := events + sent;
      if read < |chunks| {
        modelFiles := modelFiles - {temp};
        events := events + [CancelledEvent(url, modelName)];
        received := false;
        return;
      }
      assert chunks[..read] == chunks && clock[..read] == clock;
      modelFiles := modelFiles[temp := total];
      received := true;
    }

    /** The download job: read the body (`ReceiveBody`); when it ends, replace
        the target by the temp file and report completion with the file's
        length. A failure to connect, read or write reports an `error`
        event and rejects with `ERR_DOWNLOAD`; a cancelled job never settles
        its promise. The job's entry leaves `activeDownloads` on every exit. */
    method RunDownloadJob(url: string, modelName: string, transfer: Transfer,
                          clock: seq<int>, startTime: int, cancelAt: nat)
      returns (r: Settlement<bool>)
      requires transfer.Body? ==> |clock| == |transfer.chunks|
      modifies this
      ensures activeDownloads == old(activeDownloads) - {modelName}
      ensures nextHandle == old(nextHandle) && modelMap == old(modelMap)
      ensures internalFiles == old(internalFiles)
      ensures transfer.ConnectFails? ==>
                && r == Rejected("ERR_DOWNLOAD", "Failed to download model: " + transfer.message)
                && modelFiles == old(modelFiles)
                && events == old(events) + [ErrorEvent(url, modelName, transfer.message)]
      ensures transfer.Body? && cancelAt < |transfer.chunks| ==>
                && r == Pending
                && modelFiles == old(modelFiles) - {TempName(modelName)}
                && events == old(events)
                             + ProgressEvents(url, modelName, transfer.contentLength,
                                              transfer.chunks[..cancelAt], clock[..cancelAt], startTime)
                             + [CancelledEvent(url, modelName)]
      ensures transfer.Body? && cancelAt >= |transfer.chunks| && transfer.breaksWith.Some? ==>
                && r == Rejected("ERR_DOWNLOAD", "Failed to download model: " + transfer.breaksWith.value)
                && modelFiles == old(modelFiles)[TempName(modelName) := Sum(transfer.chunks)]
                && events == old(events)
                             + ProgressEvents(url, modelName, transfer.contentLength,
                                              transfer.chunks, clock, startTime)
                             + [ErrorEvent(url, modelName, transfer.breaksWith.value)]
      ensures transfer.Body? && cancelAt >= |transfer.chunks| && transfer.breaksWith.None? ==>
                && r == Resolved(true)
                && modelFiles == (old(modelFiles) - {TempName(modelName)})[modelName := Sum(transfer.chunks)]
                && events == old(events)
                             + ProgressEvents(url, modelName, transfer.contentLength,
                                              transfer.chunks, clock, startTime)
                             + [CompletedEvent(url, modelName, Sum(transfer.chunks))]
    {
      if transfer.ConnectFails? {
        events := events + [ErrorEvent(url, modelName, transfer.message)];
        r := Rejected("ERR_DOWNLOAD", "Failed to download model: " + transfer.message);
      } else {
        var received := ReceiveBody(url, modelName, transfer.contentLength, transfer.chunks,
                                    clock, startTime, cancelAt);
        if !received {
          r := Pending;
        } else if transfer.breaksWith.Some? {
          events := events + [ErrorEvent(url, modelName, transfer.breaksWith.value)];
          r := Rejected("ERR_DOWNLOAD", "Failed to download model: " + transfer.breaksWith.value);
        } else {
          var temp := TempName(modelName);
          var length := modelFiles[temp];
          // delete the old target, then rename the temp file onto it
          modelFiles := (modelFiles - {modelName} - {temp})[modelName := length];
          events := events + [CompletedEvent(url, modelName, length)];
          r := Resolved(true);
        }
      }
      // finally
      activeDownloads := activeDownloads - {modelName};
    }

    /** `cancelDownload`: true, and the job's entry removed, exactly when a
        job is registered; the job itself notices at its next chunk. */
    method CancelDownload(modelName: string) returns (b: bool)
      modifies this
      ensures b == (modelName in old(activeDownloads))
      ensures activeDownloads == old(activeDownloads) - {modelName}
      ensures nextHandle == old(nextHandle) && modelMap == old(modelMap)
      ensures modelFiles == old(modelFiles) && internalFiles == old(internalFiles)
      ensures events == old(events)
    {
      b := modelName in activeDownloads;
      activeDownloads := activeDownloads - {modelName};
    }

    /** `createModelFromDownloaded`: a missing file rejects before a handle
        is taken; omitted parameters default to 1024 tokens, topK 40,
        temperature 0.7 and seed 42. */
    method CreateModelFromDownloaded(modelName: string, maxTokens: Option<int>, topK: Option<int>,
                                     temperature: Option<real>, randomSeed: Option<int>, load: Load)
      returns (r: Settlement<int>)
      requires Valid()
      modifies this
      ensures Valid()
      ensures modelName !in modelFiles ==>
                && r == Rejected("ERR_MODEL_NOT_FOUND", "Model " + modelName + " is not downloaded")
                && nextHandle == old(nextHandle) && modelMap == old(modelMap)
      ensures modelName in modelFiles ==> nextHandle == old(nextHandle) + 1
      ensures modelName in modelFiles && load.Loaded? ==>
                && r == Resolved(old(nextHandle))
                && modelMap.Keys == old(modelMap.Keys) + {old(nextHandle)}
                && (forall h :: h in old(modelMap) ==> modelMap[h] == old(modelMap[h]))
                && modelMap[old(nextHandle)].source == DownloadedFile(modelName)
                && modelMap[old(nextHandle)].maxTokens == OrElse(maxTokens, DownloadedMaxTokens)
                && modelMap[old(nextHandle)].options
                   == SessionOptions(OrElse(temperature, DownloadedTemperature), OrElse(topK, DownloadedTopK))
                && modelMap[old(nextHandle)].randomSeed == OrElse(randomSeed, DownloadedRandomSeed)
      ensures modelName in modelFiles && !load.Loaded? ==>
                && r == Rejected("ERR_CREATE_MODEL", "Failed to create model: " + load.message)
                && modelMap == old(modelMap)
      ensures activeDownloads == old(activeDownloads) && modelFiles == old(modelFiles)
      ensures internalFiles == old(internalFiles) && events == old(events)
    {
      if modelName !in modelFiles {
        r := Rejected("ERR_MODEL_NOT_FOUND", "Model " + modelName + " is not downloaded");
        return;
      }
      var created := CreateModelInternal(DownloadedFile(modelName),
                                         OrElse(maxTokens, DownloadedMaxTokens),
                                         OrElse(topK, DownloadedTopK),
                                         OrElse(temperature, DownloadedTemperature),
                                         OrElse(randomSeed, DownloadedRandomSeed), load);
      r := match created
           case Success(h) => Resolved(h)
           case Failure(message) => Rejected("ERR_CREATE_MODEL", "Failed to create model: " + message);
    }
  }

  /** The read loop of the download job: chunks are read until the body
      ends or the job is cancelled before chunk `cancelAt`; the byte count
      grows by each chunk and a `downloading` event goes out when more than
      100 ms passed since the last one. */
  method ReadChunks(url: string, modelName: string, contentLength: int, chunks: seq<nat>,
                    clock: seq<int>, startTime: int, cancelAt: nat)
    returns (total: nat, sent: seq<Event>, read: nat)
    requires |clock| == |chunks|
    ensures read == if cancelAt < |chunks| then cancelAt else |chunks|
    ensures total == Sum(chunks[..read])
    ensures sent == ProgressEvents(url, modelName, contentLength, chunks[..read], clock[..read], startTime)
  {
    total, sent, read := 0, [], 0;
    var lastUpdateTime := startTime;
    while read < |chunks| && read < cancelAt
      invariant read <= |chunks| && read <= cancelAt
      invariant total == Sum(chunks[..read])
      invariant lastUpdateTime == LastUpdate(startTime, clock[..read])
      invariant sent == ProgressEvents(url, modelName, contentLength, chunks[..read], clock[..read], startTime)
    {
      ProgressStep(url, modelName, contentLength, chunks, clock, startTime, read);
      total := total + chunks[read];
      var currentTime := clock[read];
      if currentTime - lastUpdateTime > ThrottleMillis {
        lastUpdateTime := currentTime;
        sent := sent + [DownloadingEvent(url, modelName, total, contentLength)];
      }
      read := read + 1;
    }
  }

  /** The released-model leak, as written: after `createModel` and
      `releaseModel` on a fresh module, the wrapper is gone from the registry
      while its engine is still open. */
  method ReleaseLeavesEngineOpen(modelPath: string)
    returns (m: ExpoLlmMediapipeModule, leaked: LlmInferenceModel)
    ensures 1 !in m.modelMap
    ensures leaked.engineOpen && leaked.sessionOpen
    ensures leaked.handle == 1
  {
    m := new ExpoLlmMediapipeModule(map[], map[], map[]);
    var created := m.CreateModel(modelPath, 512, 40, 0.8, 0, Loaded);
    leaked := m.modelMap[1];
    var released := m.ReleaseModel(1);
    assert released == Resolved(true);
  }

  /** The corrected release on the same scenario closes the engine. */
  method ReleaseAndCloseFreesEngine(modelPath: string)
    returns (m: ExpoLlmMediapipeModule, released: LlmInferenceModel)
    ensures 1 !in m.modelMap
    ensures !released.engineOpen && !released.sessionOpen
    ensures released.handle == 1
  {
    m := new ExpoLlmMediapipeModule(map[], map[], map[]);
    var created := m.CreateModel(modelPath, 512, 40, 0.8, 0, Loaded);
    released := m.modelMap[1];
    var r := m.ReleaseModelAndClose(1);
    assert r == Resolved(true);
  }
}
