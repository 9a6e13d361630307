/** The iOS native module: the same handle registry as on Android, with
    models loaded from a path or from the app bundle. It declares no
    `downloadProgress` event and has no download functions. */
module IosModule {
  import opened Common
  import opened Events
  import opened NativeEngine
  import IosInference

  /** Prefix of the message a generation rejects with when the model throws. */
  const GenerationFailed: string := "Failed to generate response: "

  class ExpoLlmMediapipeModule {
    var nextHandle: int
    var modelMap: map<int, IosInference.LlmInferenceModel>
    /** The app bundle's resources: name to path. */
    const bundle: map<string, string>
    /** Everything sent on the event channel, oldest first. */
    var events: seq<Event>

    /** Handles are positive and below the counter; each model was loaded
        and carries its own handle. */
    ghost predicate Valid()
      reads this, modelMap.Values
    {
      && nextHandle >= 1
      && forall h :: h in modelMap ==>
           && 1 <= h < nextHandle
           && modelMap[h].handle == h
           && modelMap[h].failure.None?
    }

    ghost function ModelAt(handle: int): set<object>
      reads this
    {
      if handle in modelMap then {modelMap[handle]} else {}
    }

    constructor (bundle: map<string, string>)
      ensures Valid()
      ensures nextHandle == 1 && modelMap == map[] && events == [] && this.bundle == bundle
    {
      this.bundle := bundle;
      nextHandle := 1;
      modelMap := map[];
      events := [];
    }

    /** Take the next handle, then construct; store the model only when
        construction did not throw. Shared by both creation functions. */
    method CreateAt(modelPath: string, maxTokens: int, topK: int, temperature: real,
                    randomSeed: int, load: Load)
      returns (r: Settlement<int>)
      requires Valid()
      modifies this
      ensures Valid()
      ensures nextHandle == old(nextHandle) + 1
      ensures load.Loaded? ==>
                && r == Resolved(old(nextHandle))
                && old(nextHandle) !in old(modelMap)
                && modelMap.Keys == old(modelMap.Keys) + {old(nextHandle)}
                && (forall h :: h in old(modelMap) ==> modelMap[h] == old(modelMap[h]))
                && fresh(modelMap[old(nextHandle)])
                && modelMap[old(nextHandle)].modelPath == modelPath
                && modelMap[old(nextHandle)].maxTokens == maxTokens
                && modelMap[old(nextHandle)].topK == topK
                && modelMap[old(nextHandle)].temperature == temperature
                && modelMap[old(nextHandle)].randomSeed == randomSeed
                && modelMap[old(nextHandle)].session == Some(0)
      ensures !load.Loaded? ==>
                && r == Rejected("MODEL_ERROR", "Failed to create model: " + IosInference.LoadError(load))
                && modelMap == old(modelMap)
      ensures events == old(events)
    {
      var modelHandle := nextHandle;
      nextHandle := nextHandle + 1;
      var model := new IosInference.LlmInferenceModel(modelPath, maxTokens, topK, temperature,
                                                      randomSeed, modelHandle, load);
      if model.failure.Some? {
        r := Rejected("MODEL_ERROR", "Failed to create model: " + model.failure.value);
        return;
      }
      modelMap := modelMap[modelHandle := model];
      r := Resolved(modelHandle);
    }

    /** `createModel`. */
    method CreateModel(modelPath: string, maxTokens: int, topK: int, temperature: real,
                       randomSeed: int, load: Load)
      returns (r: Settlement<int>)
      requires Valid()
      modifies this
      ensures Valid()
      ensures nextHandle == old(nextHandle) + 1
      ensures load.Loaded? ==>
                && r == Resolved(old(nextHandle))
                && modelMap.Keys == old(modelMap.Keys) + {old(nextHandle)}
                && (forall h :: h in old(modelMap) ==> modelMap[h] == old(modelMap[h]))
                && modelMap[old(nextHandle)].modelPath == modelPath
                && modelMap[old(nextHandle)].maxTokens == maxTokens && modelMap[old(nextHandle)].topK == topK
                && modelMap[old(nextHandle)].temperature == temperature
                && modelMap[old(nextHandle)].randomSeed == randomSeed
      ensures !load.Loaded? ==>
                && r == Rejected("MODEL_ERROR", "Failed to create model: " + IosInference.LoadError(load))
                && modelMap == old(modelMap)
      ensures events == old(events)
    {
      r := CreateAt(modelPath, maxTokens, topK, temperature, randomSeed, load);
    }

    /** `createModelFromAsset`: a name the bundle lacks rejects before a
        handle is taken; otherwise load the bundled file. */
    method CreateModelFromAsset(modelName: string, maxTokens: int, topK: int, temperature: real,
                                randomSeed: int, load: Load)
      returns (r: Settlement<int>)
      requires Valid()
      modifies this
      ensures Valid()
      ensures modelName !in bundle ==>
                && r == Rejected("MODEL_NOT_FOUND", "Model not found in app bundle: " + modelName)
                && nextHandle == old(nextHandle) && modelMap == old(modelMap)
      ensures modelName in bundle ==> nextHandle == old(nextHandle) + 1
      ensures modelName in bundle && load.Loaded? ==>
                && r == Resolved(old(nextHandle))
                && modelMap.Keys == old(modelMap.Keys) + {old(nextHandle)}
                && (forall h :: h in old(modelMap) ==> modelMap[h] == old(modelMap[h]))
                && modelMap[old(nextHandle)].modelPath == bundle[modelName]
                && modelMap[old(nextHandle)].maxTokens == maxTokens && modelMap[old(nextHandle)].topK == topK
                && modelMap[old(nextHandle)].temperature == temperature
                && modelMap[old(nextHandle)].randomSeed == randomSeed
      ensures modelName in bundle && !load.Loaded? ==>
                && r == Rejected("MODEL_ERROR", "Failed to create model: " + IosInference.LoadError(load))
                && modelMap == old(modelMap)
      ensures events == old(events)
    {
      if modelName !in bundle {
        r := Rejected("MODEL_NOT_FOUND", "Model not found in app bundle: " + modelName);
        return;
      }
      r := CreateAt(bundle[modelName], maxTokens, topK, temperature, randomSeed, load);
    }

    /** `releaseModel`: drop the entry; true iff there was one. */
    method ReleaseModel(handle: int) returns (r: Settlement<bool>)
      requires Valid()
      modifies this
      ensures Valid()
      ensures handle in old(modelMap) ==> r == Resolved(true)
      ensures handle !in old(modelMap) ==>
                r == Rejected("INVALID_HANDLE", "No model found for handle " + IntToString(handle))
      ensures modelMap == old(modelMap) - {handle}
      ensures nextHandle == old(nextHandle) && events == old(events)
    {
      if handle in modelMap {
        modelMap := modelMap - {handle};
        r := Resolved(true);
      } else {
        r := Rejected("INVALID_HANDLE", "No model found for handle " + IntToString(handle));
      }
    }

    /** `generateResponse`: resolve with the model's concatenated text, or
        reject with `GENERATION_ERROR`; a throw from the model itself is
        prefixed with "Failed to generate response: ". */
    method GenerateResponse(handle: int, requestId: int, prompt: string,
                            addQuery: Option<string>, stream: Stream)
      returns (r: Settlement<string>)
      requires Valid()
      modifies this, ModelAt(handle)
      ensures Valid()
      ensures modelMap == old(modelMap) && nextHandle == old(nextHandle)
      ensures handle !in modelMap ==>
                && r == Rejected("INVALID_HANDLE", "No model found for handle " + IntToString(handle))
                && events == old(events)
      ensures handle in modelMap && old(modelMap[handle].session).None? ==>
                && r == Rejected("GENERATION_ERROR", GenerationFailed + IosInference.SessionNotInitialized)
                && events == old(events)
      ensures handle in modelMap && old(modelMap[handle].session).Some? && addQuery.Some? ==>
                && r == Rejected("GENERATION_ERROR", addQuery.value)
                && events == old(events) + [ErrorResponse(handle, requestId, addQuery.value)]
      ensures handle in modelMap && old(modelMap[handle].session).Some? && addQuery.None? ==>
                && r == (match stream.end
                         case Finished => Resolved(Concat(stream.parts))
                         case Broken(message) => Rejected("GENERATION_ERROR", message)
                         case Stalled => Pending)
                && events == old(events) + PartialEvents(handle, requestId, stream.parts)
                             + (if stream.end.Broken? then [ErrorResponse(handle, requestId, stream.end.message)]
                                else [])
    {
      if handle !in modelMap {
        r := Rejected("INVALID_HANDLE", "No model found for handle " + IntToString(handle));
        return;
      }
      var model := modelMap[handle];
      var thrown, emitted, completion := model.GenerateResponse(requestId, prompt, addQuery, stream);
      events := events + emitted;
      if thrown.Some? {
        r := Rejected("GENERATION_ERROR", GenerationFailed + thrown.value);
        return;
      }
      if completion.None? {
        r := Pending;
      } else if completion.value.Success? {
        r := Resolved(completion.value.value);
      } else {
        r := Rejected("GENERATION_ERROR", completion.value.message);
      }
    }

    /** `generateResponseAsync`: resolve true iff the model reports
        completion, otherwise reject with `GENERATION_INCOMPLETE`. */
    method GenerateResponseAsync(handle: int, requestId: int, prompt: string,
                                 addQuery: Option<string>, stream: Stream)
      returns (r: Settlement<bool>)
      requires Valid()
      modifies this, ModelAt(handle)
      ensures Valid()
      ensures modelMap == old(modelMap) && nextHandle == old(nextHandle)
      ensures handle !in modelMap ==>
                && r == Rejected("INVALID_HANDLE", "No model found for handle " + IntToString(handle))
                && events == old(events)
      ensures handle in modelMap && old(modelMap[handle].session).None? ==>
                && r == Rejected("GENERATION_ERROR", GenerationFailed + IosInference.SessionNotInitialized)
                && events == old(events)
      ensures handle in modelMap && old(modelMap[handle].session).Some? ==>
                && (r == Resolved(true) <==> addQuery.None? && stream.end.Finished?)
                && (r == Pending <==> addQuery.None? && stream.end.Stalled?)
                && (addQuery.Some? || stream.end.Broken? ==>
                      r == Rejected("GENERATION_INCOMPLETE", "Generation did not complete successfully"))
      ensures handle in modelMap && old(modelMap[handle].session).Some? && addQuery.Some? ==>
                events == old(events) + [ErrorResponse(handle, requestId, addQuery.value)]
      ensures handle in modelMap && old(modelMap[handle].session).Some? && addQuery.None? ==>
                events == old(events) + PartialEvents(handle, requestId, stream.parts)
                          + (if stream.end.Broken? then [ErrorResponse(handle, requestId, stream.end.message)]
                             else [])
    {
      if handle !in modelMap {
        r := Rejected("INVALID_HANDLE", "No model found for handle " + IntToString(handle));
        return;
      }
      var model := modelMap[handle];
      var thrown, emitted, completion := model.GenerateStreamingResponse(requestId, prompt, addQuery, stream);
      events := events + emitted;
      if thrown.Some? {
        r := Rejected("GENERATION_ERROR", GenerationFailed + thrown.value);
        return;
      }
      if completion.None? {
        r := Pending;
      } else if completion.value {
        r := Resolved(true);
      } else {
        r := Rejected("GENERATION_INCOMPLETE", "Generation did not complete successfully");
      }
    }
  }
}
