# expo-llm-mediapipe in Dafny

This project models the bookkeeping layer of expo-llm-mediapipe. That layer sits between a React Native app and Google's MediaPipe LLM inference engine. The engine itself is opaque here: every native call it makes is an input saying how that call turns out. The model covers:

- **Native module, Android** (`AndroidModule`, `AndroidInference`): a registry of loaded models keyed by integer handles; per-model wrappers that recreate their session and stream fragments as events; and a download manager. The download manager writes a `.temp` file chunk by chunk, throttles progress events to one per 100 ms, honours cancellation, and renames the file on completion. The file system is a map from file name to size; the HTTP body is a sequence of chunk sizes; the clock is the sequence of times at which chunks are read.
- **Native module, iOS** (`IosModule`, `IosInference`): the same handle registry. Its wrapper keeps one session and frames each prompt with Gemma turn markers (`FormatPrompt`, with its inverse `UserText`).
- **Download progress** (`DownloadProgress`): pure functions that specify the Android read loop. Lemmas state what a subscriber can rely on: byte counts and fractions never decrease, stay within [0, 1], and respect the 100 ms spacing.
- **Model catalog** (`ModelManager`): the JavaScript `ModelManager` class. It holds a map from model name to status, a state machine driven by `downloadProgress` events, and a listener list with subscribe and unsubscribe.
- **JavaScript helpers** (`JsModule`):
  - the hook's load plan: storage key and parameter defaults;
  - request numbering;
  - the per-request event filter on handle, request id and abort signal;
  - `generateStreamingText`, which assembles one request's text and removes both subscriptions on every settled exit.
- **Config plugin** (`ManifestPlugin`, `GradlePlugin`): insertion of the three OpenCL libraries into the Android manifest, and the rewrite of `org.gradle.jvmargs`.

Shared vocabulary is in `Common` (Option, Result, Settlement, Concat), `Events` (the event payloads) and `NativeEngine` (the inputs that stand for the engine).

- **Promises:** a promise is a `Settlement`. It is `Resolved(value)`, `Rejected(code, message)`, or `Pending` when the code never settles it.
- **Objects updated in place:** these are classes with `modifies` clauses. This covers the module objects, the model wrappers, the catalog, the event bus, the hook's state, the manifest and the properties list.

## Model

| member | source | states |
|---|---|---|
| AndroidModule.ExpoLlmMediapipeModule.constructor | android/src/main/java/expo/modules/llmmediapipe/ExpoLlmMediapipeModule.kt:19-21 | handles start at 1; no model is registered and no download is active |
| AndroidModule.ExpoLlmMediapipeModule.CreateModelInternal | android/src/main/java/expo/modules/llmmediapipe/ExpoLlmMediapipeModule.kt:126-139 | the counter advances by one whatever happens. On success the old counter value is a fresh handle, not yet in the map; it maps to a new open wrapper with the given parameters, and the other entries are unchanged. On failure the map is unchanged. |
| AndroidModule.ExpoLlmMediapipeModule.CreateModel | android/src/main/java/expo/modules/llmmediapipe/ExpoLlmMediapipeModule.kt:157-185 | resolves with the consumed handle, or rejects with MODEL_CREATION_FAILED and the load message; the map is unchanged and the handle is still consumed |
| AndroidModule.ExpoLlmMediapipeModule.CreateModelFromAsset | android/src/main/java/expo/modules/llmmediapipe/ExpoLlmMediapipeModule.kt:187-219 | a missing asset rejects with "Asset file X does not exist in assets" before a handle is taken; an existing copy in the files directory is reused and never overwritten |
| AndroidModule.ExpoLlmMediapipeModule.ReleaseModel | android/src/main/java/expo/modules/llmmediapipe/ExpoLlmMediapipeModule.kt:221-232 | removes exactly the entry for the handle; resolves true iff it was present, otherwise rejects with INVALID_HANDLE (as written: the wrapper is not closed) |
| AndroidModule.ExpoLlmMediapipeModule.ReleaseModelAndClose | android/src/main/java/expo/modules/llmmediapipe/ExpoLlmMediapipeModule.kt:221-232 | the same outcome as ReleaseModel, and the released wrapper's engine and session are closed |
| AndroidModule.ExpoLlmMediapipeModule.GenerateResponse | android/src/main/java/expo/modules/llmmediapipe/ExpoLlmMediapipeModule.kt:234-257 | an unknown handle rejects with INVALID_HANDLE and no event. Otherwise it resolves with the concatenated text of a finished stream, or rejects with GENERATION_FAILED after exactly one error event. It stays pending, with no event, while the engine never finishes. The registry is unchanged. |
| AndroidModule.ExpoLlmMediapipeModule.GenerateResponseAsync | android/src/main/java/expo/modules/llmmediapipe/ExpoLlmMediapipeModule.kt:259-320 | an unknown handle rejects with INVALID_HANDLE. Otherwise one partial event per fragment, in order. It resolves true, never the text, when the finished total is non-empty, and rejects with GENERATION_FAILED when it is empty or the query could not be prepared. It stays pending while the stream is unfinished, and also when the engine fails mid-stream. The engine options set no error listener and the progress listener only sees results, so that failure reaches nobody and the promise is never settled. |
| AndroidModule.ExpoLlmMediapipeModule.IsModelDownloaded | android/src/main/java/expo/modules/llmmediapipe/ExpoLlmMediapipeModule.kt:323-326 | true iff the file exists and its size is positive |
| AndroidModule.ExpoLlmMediapipeModule.GetDownloadedModels | android/src/main/java/expo/modules/llmmediapipe/ExpoLlmMediapipeModule.kt:329-332 | exactly the names in the download directory, temp files included |
| AndroidModule.ExpoLlmMediapipeModule.DeleteDownloadedModel | android/src/main/java/expo/modules/llmmediapipe/ExpoLlmMediapipeModule.kt:335-339 | returns whether the file existed; afterwards it does not exist and nothing else changed |
| AndroidModule.ExpoLlmMediapipeModule.DownloadModel | android/src/main/java/expo/modules/llmmediapipe/ExpoLlmMediapipeModule.kt:342-357 | ERR_ALREADY_DOWNLOADING comes first. Next, an existing file without overwrite resolves true and registers no job. Otherwise exactly one job is registered and the promise is left to it. |
| AndroidModule.ExpoLlmMediapipeModule.ReceiveBody | android/src/main/java/expo/modules/llmmediapipe/ExpoLlmMediapipeModule.kt:373-414 | the temp file holds the sum of the chunks read. Events are exactly the throttled progress events of the chunks read. Cancellation at chunk k keeps only chunks before k, deletes the temp file and sends `cancelled`. |
| AndroidModule.ReadChunks | android/src/main/java/expo/modules/llmmediapipe/ExpoLlmMediapipeModule.kt:378-413 | the loop reads every chunk, or stops before chunk cancelAt; the byte count is the sum of the chunks read, and the events sent are exactly the throttled progress events of those chunks |
| AndroidModule.ExpoLlmMediapipeModule.RunDownloadJob | android/src/main/java/expo/modules/llmmediapipe/ExpoLlmMediapipeModule.kt:359-454 | on completion the target is replaced by a file of the summed size, `completed` is sent and the promise resolves true. A connect or read failure sends `error` and rejects with ERR_DOWNLOAD and the message. A cancelled job never settles. The job's entry leaves activeDownloads on every exit. |
| AndroidModule.ExpoLlmMediapipeModule.CancelDownload | android/src/main/java/expo/modules/llmmediapipe/ExpoLlmMediapipeModule.kt:460-469 | true iff a job was registered; afterwards none is |
| AndroidModule.ExpoLlmMediapipeModule.CreateModelFromDownloaded | android/src/main/java/expo/modules/llmmediapipe/ExpoLlmMediapipeModule.kt:472-494 | a missing file rejects with ERR_MODEL_NOT_FOUND before a handle is taken. A load failure rejects with ERR_CREATE_MODEL "Failed to create model: ...". Omitted parameters become 1024, 40, 0.7 and 42. |
| AndroidModule.ReleaseLeavesEngineOpen | android/src/main/java/expo/modules/llmmediapipe/ExpoLlmMediapipeModule.kt:221-232 | after createModel and releaseModel, handle 1 is gone from the registry, yet the model that left it still has its engine and session open |
| AndroidModule.ReleaseAndCloseFreesEngine | android/src/main/java/expo/modules/llmmediapipe/ExpoLlmMediapipeModule.kt:221-232 | with the corrected release, the same scenario removes handle 1 and leaves the engine and session closed |
| AndroidInference.LlmInferenceModel.constructor | android/src/main/java/expo/modules/llmmediapipe/LlmInferenceModel.kt:25-55 | a successful init opens the engine and one session with the given temperature and topK; a failure of either step leaves the engine closed |
| AndroidInference.LlmInferenceModel.GenerateResponseAsync | android/src/main/java/expo/modules/llmmediapipe/LlmInferenceModel.kt:60-95 | records the request id and resets the result. It replaces the session with a new one with the same options and forwards every fragment in order. The callback gets the concatenation at the finished fragment. A setup failure gives exactly one error event and the callback "". |
| AndroidInference.LlmInferenceModel.GenerateResponse | android/src/main/java/expo/modules/llmmediapipe/LlmInferenceModel.kt:100-130 | the same preparation. It returns the whole text of a finished stream with no events, or fails after exactly one error event. When the engine never finishes, the blocking call never returns and nothing is emitted. |
| AndroidInference.LlmInferenceModel.Close | android/src/main/java/expo/modules/llmmediapipe/LlmInferenceModel.kt:135-143 | the session and the engine are closed; the request state is untouched |
| DownloadProgress.Fraction | android/src/main/java/expo/modules/llmmediapipe/ExpoLlmMediapipeModule.kt:404 | total/contentLength when a length is known (stated as p * length == total), else 0; never negative |
| DownloadProgress.SumPrefix | android/src/main/java/expo/modules/llmmediapipe/ExpoLlmMediapipeModule.kt:397 | the running byte count of a prefix never exceeds the final one |
| DownloadProgress.ProgressEventsShape | android/src/main/java/expo/modules/llmmediapipe/ExpoLlmMediapipeModule.kt:400-413 | every progress event is `downloading` for this name and URL, carries the announced length, and counts at most the bytes read |
| DownloadProgress.ProgressNonDecreasing | android/src/main/java/expo/modules/llmmediapipe/ExpoLlmMediapipeModule.kt:397-413 | byte counts and fractions never decrease from one progress event to a later one |
| DownloadProgress.FractionMonotone | android/src/main/java/expo/modules/llmmediapipe/ExpoLlmMediapipeModule.kt:404 | more bytes never give a smaller fraction |
| DownloadProgress.FractionAtMostOne | android/src/main/java/expo/modules/llmmediapipe/ExpoLlmMediapipeModule.kt:404 | up to the announced length the fraction is at most 1 |
| DownloadProgress.ProgressWithinUnit | android/src/main/java/expo/modules/llmmediapipe/ExpoLlmMediapipeModule.kt:404-411 | when the body is no longer than announced, every fraction lies in [0, 1]; without a length it is 0 |
| DownloadProgress.CompletedRunMonotone | android/src/main/java/expo/modules/llmmediapipe/ExpoLlmMediapipeModule.kt:400-435 | a completed download's whole event run is non-decreasing, within [0, 1], and ends with `completed` at 1.0 |
| DownloadProgress.LastUpdateAfterEmit | android/src/main/java/expo/modules/llmmediapipe/ExpoLlmMediapipeModule.kt:401-403 | after an event and no later one, lastUpdateTime is the time of that event's chunk |
| DownloadProgress.ThrottleSpacing | android/src/main/java/expo/modules/llmmediapipe/ExpoLlmMediapipeModule.kt:401-403 | consecutive progress events are for chunks read more than 100 ms apart |
| DownloadProgress.FirstEmitAfterStart | android/src/main/java/expo/modules/llmmediapipe/ExpoLlmMediapipeModule.kt:381-403 | the first progress event is for a chunk read more than 100 ms after the loop started |
| DownloadProgress.NoEmitKeepsStart | android/src/main/java/expo/modules/llmmediapipe/ExpoLlmMediapipeModule.kt:381-403 | until an event is sent, lastUpdateTime stays at the start time |
| DownloadProgress.ProgressStep | android/src/main/java/expo/modules/llmmediapipe/ExpoLlmMediapipeModule.kt:397-413 | one more chunk adds its size to the total and moves the throttle clock only when an event goes out; at most that one event is added |
| Events.PartialEvents | android/src/main/java/expo/modules/llmmediapipe/ExpoLlmMediapipeModule.kt:41-47 | one `onPartialResponse` per fragment, same length and order, each tagged with the handle and request id |
| Events.ResponsesForAppend | src/ExpoLlmMediapipeModule.ts:253-270 | filtering one request's fragments out of a merged event stream distributes over append |
| Events.ResponsesForPartialEvents | src/ExpoLlmMediapipeModule.ts:253-270 | a subscriber filtering on (handle, requestId) recovers exactly the fragments the model streamed, in order |
| Events.ResponsesForOtherRequest | src/ExpoLlmMediapipeModule.ts:256-258 | events of another handle or request contribute nothing |
| Common.ConcatSnoc | android/src/main/java/expo/modules/llmmediapipe/LlmInferenceModel.kt:82 | appending a fragment appends its text to the accumulated result |
| Common.ConcatAppend | ios/LlmInferenceModel.swift:112-126 | the accumulated text of two runs of fragments is the two texts joined |
| Common.ConcatLength | android/src/main/java/expo/modules/llmmediapipe/ExpoLlmMediapipeModule.kt:288 | the accumulated result is exactly as long as its fragments together |
| Common.ConcatEmptyIff | android/src/main/java/expo/modules/llmmediapipe/ExpoLlmMediapipeModule.kt:277-294 | the finished result is empty (GENERATION_FAILED) exactly when every fragment was empty |
| IosInference.FormatPrompt | ios/LlmInferenceModel.swift:83-91 | the prompt is the user header, then the text, then the end-of-turn and model-turn footer, at known offsets |
| IosInference.UserTextFormatPrompt | ios/LlmInferenceModel.swift:83-91 | the text can be read back from its framed prompt |
| IosInference.FormatPromptUserText | ios/LlmInferenceModel.swift:83-91 | every string carrying the frame is the framing of the text read back from it |
| IosInference.FormatPromptInjective | ios/LlmInferenceModel.swift:83-91 | distinct texts give distinct prompts |
| IosInference.LlmInferenceModel.constructor | ios/LlmInferenceModel.swift:26-81 | a successful init has one session. An engine failure leaves none and records "Failed to load model: " and the message. A session failure also inserts "Failed to create LLM session: " after that prefix. |
| IosInference.LoadError | ios/LlmInferenceModel.swift:60-80 | the load error starts with "Failed to load model: " and ends with the engine's message, with the session prefix in between only for a session failure |
| IosInference.LlmInferenceModel.GenerateResponse | ios/LlmInferenceModel.swift:93-149 | without a session it throws "Session not initialized" and emits nothing. Otherwise it adds the framed prompt to the same session, which is never replaced, and sends one partial event per fragment in order. It completes with their concatenation, or fails after exactly one error event. |
| IosInference.LlmInferenceModel.GenerateStreamingResponse | ios/LlmInferenceModel.swift:151-203 | the same relay; completes true after all partials and false after exactly one error event |
| IosModule.ExpoLlmMediapipeModule.constructor | ios/ExpoLlmMediapipeModule.swift:5-6 | handles start at 1 with an empty registry |
| IosModule.ExpoLlmMediapipeModule.CreateAt | ios/ExpoLlmMediapipeModule.swift:17-40 | the counter advances before construction. On success a fresh handle maps to a loaded model with the given path, maxTokens, topK, temperature and randomSeed. On failure it rejects with MODEL_ERROR "Failed to create model: " around the load error, and the map is unchanged. |
| IosModule.ExpoLlmMediapipeModule.CreateModel | ios/ExpoLlmMediapipeModule.swift:17-40 | resolves with the consumed handle, whose model carries the given parameters, or rejects with MODEL_ERROR "Failed to create model: Failed to load model: ..." |
| IosModule.ExpoLlmMediapipeModule.CreateModelFromAsset | ios/ExpoLlmMediapipeModule.swift:42-72 | a name missing from the bundle rejects with MODEL_NOT_FOUND before a handle is taken. Otherwise the bundled path is loaded with the given parameters, or it rejects with the same MODEL_ERROR as createModel. |
| IosModule.ExpoLlmMediapipeModule.ReleaseModel | ios/ExpoLlmMediapipeModule.swift:74-81 | removes exactly that entry; resolves true iff it was present, otherwise INVALID_HANDLE |
| IosModule.ExpoLlmMediapipeModule.GenerateResponse | ios/ExpoLlmMediapipeModule.swift:83-103 | INVALID_HANDLE for an unknown handle. Otherwise it resolves with the concatenated fragments, or rejects with GENERATION_ERROR; a throw from the wrapper is prefixed "Failed to generate response: ". |
| IosModule.ExpoLlmMediapipeModule.GenerateResponseAsync | ios/ExpoLlmMediapipeModule.swift:105-123 | resolves true iff the stream finished, and stays pending iff it never ends. A failing query sends exactly its one error event, and a stream sends its partials and, if broken, one error event. Both failures reject with GENERATION_INCOMPLETE. |
| ModelManager.ApplyProgress | src/ModelManager.ts:33-48 | status mapped (completed to downloaded, error to error, downloading to downloading, else not downloaded); progress replaced only when present; an error is set only from a non-empty message and never cleared |
| ModelManager.ApplyEvent | src/ModelManager.ts:27-56 | only the named entry changes; an unregistered name changes nothing |
| ModelManager.ApplyAll | src/ModelManager.ts:27-56 | a run of events keeps the set of registered names |
| ModelManager.ApplyAllOthers | src/ModelManager.ts:31-32 | entries no event names, and unregistered names, are untouched by any run of events |
| ModelManager.ErrorSticky | src/ModelManager.ts:46-48 | once an entry has an error, no later event clears it |
| ModelManager.LastEventStatus | src/ModelManager.ts:33-40 | a registered entry's status is the one its last event maps to |
| ModelManager.CompletedDownloadIsDownloaded | src/ModelManager.ts:33-44 | the events of a completed native download leave the entry downloaded at progress 1.0 |
| ModelManager.EndsCompleted | src/ModelManager.ts:33-44 | any run of progress events that ends with a completed event at progress 1.0 leaves the registered entry downloaded at 1.0 |
| ModelManager.Fanout | src/ModelManager.ts:171-175 | one notification per listener, in order, each with the whole catalog |
| ModelManager.WithoutMembers | src/ModelManager.ts:164-168 | unsubscribing leaves exactly the other listeners |
| ModelManager.WithoutAppend | src/ModelManager.ts:164-168 | removal works piecewise, so the kept listeners keep their order |
| ModelManager.WithoutAbsent | src/ModelManager.ts:164-168 | removing an absent callback changes nothing |
| ModelManager.UnsubscribeUndoesAdd | src/ModelManager.ts:158-169 | unsubscribing right after a first subscription restores the listener list |
| ModelManager.ModelManager.constructor | src/ModelManager.ts:19-25 | empty catalog and listener list; the download subscription is in place |
| ModelManager.ModelManager.NotifyListeners | src/ModelManager.ts:171-175 | every listener, in order, is called with the catalog; nothing else changes |
| ModelManager.ModelManager.HandleDownloadProgress | src/ModelManager.ts:27-56 | the catalog becomes ApplyEvent of the event; listeners are notified iff the name is registered |
| ModelManager.ModelManager.Deliver | src/ModelManager.ts:21-24 | the handler runs only while the subscription is in place |
| ModelManager.ModelManager.CheckModelStatus | src/ModelManager.ts:71-84 | a registered entry becomes downloaded or not downloaded from the native answer and listeners are notified; a native failure changes nothing |
| ModelManager.ModelManager.RegisterModel | src/ModelManager.ts:58-84 | idempotent: a known name is untouched and nobody is notified. A new one gets the url and a status from the native check, and listeners are notified iff that check succeeds. |
| ModelManager.ModelManager.DownloadModel | src/ModelManager.ts:86-110 | an unregistered name throws and changes nothing. Otherwise the entry is set to downloading at progress 0 and listeners are notified before the native call. A native failure then sets error with its message, notifies again and rethrows. |
| ModelManager.ModelManager.DownloadModelAndSettle | src/ModelManager.ts:86-110 | the corrected download: the same outcome, and a native result of true leaves the entry downloaded at 1.0, notified |
| ModelManager.SettleAfterCompleted | src/ModelManager.ts:86-110 | after a completed event the corrected settling changes nothing, so it agrees with the event path |
| ModelManager.AlreadyDownloadedStaysDownloading | src/ModelManager.ts:86-110 | for a file already on the device, registration marks the entry downloaded iff the file is non-empty. Android then resolves the download true with no event, and the entry is left downloading. |
| ModelManager.AlreadyDownloadedSettles | src/ModelManager.ts:86-110 | the corrected download on the same scenario leaves the entry downloaded at 1.0 |
| ModelManager.ModelManager.DeleteModel | src/ModelManager.ts:116-128 | only a true native delete resets a registered entry to not downloaded with no progress, and notifies |
| ModelManager.ModelManager.AddListener | src/ModelManager.ts:158-162 | the callback is appended |
| ModelManager.ModelManager.Unsubscribe | src/ModelManager.ts:164-168 | every registration of the callback is dropped, the rest keep their order |
| ModelManager.ModelManager.Cleanup | src/ModelManager.ts:177-183 | no listeners and no download subscription remain |
| JsModule.GetConfigStorageKey | src/ExpoLlmMediapipeModule.ts:70-75 | the asset name for an asset config, the path for a file config |
| JsModule.LoadPlanSkipsEmptyKey | src/ExpoLlmMediapipeModule.ts:81-106 | no creation call iff the storage key is empty; otherwise from the bundle iff the config names an asset |
| JsModule.LoadPlanParameters | src/ExpoLlmMediapipeModule.ts:91-106 | given parameters pass unchanged; omitted ones become 512, 40, 0.8 and 0 |
| JsModule.FirstError | src/ExpoLlmMediapipeModule.ts:272-289 | the first incoming error event with matching handle and request id before the abort, and no matching error before it |
| JsModule.DeliveredUnaborted | src/ExpoLlmMediapipeModule.ts:253-270 | until the abort signal is raised the listener sees exactly the request's fragments |
| JsModule.DeliveredAfterAbort | src/ExpoLlmMediapipeModule.ts:256-260 | nothing is delivered after the abort signal is raised |
| JsModule.StreamedTextArrives | src/ExpoLlmMediapipeModule.ts:253-270 | an unaborted request receives exactly its streamed fragments, in order, even after another request's events |
| JsModule.FirstErrorPrefix | src/ExpoLlmMediapipeModule.ts:272-289 | an error found within a prefix of the events is the first error of the whole run |
| JsModule.GenerateStreamingText | src/ExpoLlmMediapipeModule.ts:236-307 | a handle of 0 rejects at once. fullResponse is the concatenation of the matching fragments up to the first matching error; that error rejects with its message. Otherwise the native outcome is passed on. Both subscriptions are removed on every settled path and stay while pending. |
| JsModule.RelayEvents | src/ExpoLlmMediapipeModule.ts:253-289 | the listeners stop at the first matching error event. Before it, every matching fragment goes to onPartialResponse, when given, and into fullResponse, in order. |
| JsModule.LlmInferenceHook.constructor | src/ExpoLlmMediapipeModule.ts:76-139 | no model handle and request ids starting at 0 |
| JsModule.LlmInferenceHook.LoadModel | src/ExpoLlmMediapipeModule.ts:80-129 | issues exactly the load plan's call. A resolved creation becomes the hook's handle; a failed one leaves it unchanged. The cleanup releases a handle iff this effect's creation resolved, and then exactly that handle. |
| JsModule.LlmInferenceHook.GenerateResponse | src/ExpoLlmMediapipeModule.ts:141-193 | throws without a handle. Otherwise the current counter value becomes the request id and the counter advances by one. It forwards only that request's unaborted events, passes the native outcome on, and removes both subscriptions once it settles. |
| JsModule.ForwardEvents | src/ExpoLlmMediapipeModule.ts:153-179 | onPartial, when given, receives exactly the request's unaborted fragments. onError, when given, receives exactly its unaborted error messages. An error does not stop the fragments. |
| ManifestPlugin.AddMissingKeepsExisting | plugins/withLlmMediapipe.js:33-47 | existing entries are kept, in order, at the front |
| ManifestPlugin.DeclaresPrefix | plugins/withLlmMediapipe.js:40-42 | a name declared by a prefix of the list is declared by the list |
| ManifestPlugin.AddMissingDeclaresAll | plugins/withLlmMediapipe.js:17-47 | afterwards every library name is declared |
| ManifestPlugin.AddMissingNoop | plugins/withLlmMediapipe.js:37-47 | when every name is declared nothing is added |
| ManifestPlugin.AddMissingAppendsOnlyMissing | plugins/withLlmMediapipe.js:37-47 | every appended entry is the plugin's own entry for a name not declared before |
| ManifestPlugin.NativeLibrariesFromEmpty | plugins/withLlmMediapipe.js:26-27 | an empty list gets exactly the three libraries, in order |
| ManifestPlugin.PatchDeclaresAll | plugins/withLlmMediapipe.js:8-51 | the first application declares all three libraries; other applications and attributes are untouched |
| ManifestPlugin.PatchIdempotent | plugins/withLlmMediapipe.js:8-51 | running the manifest patch twice equals running it once |
| ManifestPlugin.AndroidManifest.AddNativeLibraries | plugins/withLlmMediapipe.js:8-51 | the in-place loop yields exactly PatchApplications of the old application list |
| GradlePlugin.DigitRun | plugins/withLlmMediapipe.js:71-72 | the length of the maximal run of digits from a position |
| GradlePlugin.FirstMatch | plugins/withLlmMediapipe.js:71-72 | the leftmost position where flag, digits and a unit m or g match, and no match before it |
| GradlePlugin.FindJvmArgs | plugins/withLlmMediapipe.js:56-58 | the first property keyed org.gradle.jvmargs, and none before it |
| GradlePlugin.PatchTouchesOnlyJvmArgs | plugins/withLlmMediapipe.js:56-85 | only the first jvmargs property changes, to the updated value, or one property is appended; every other item is unchanged |
| GradlePlugin.PatchHasJvmArgs | plugins/withLlmMediapipe.js:63-85 | afterwards the first jvmargs property is at the old place, or at the end when there was none |
| GradlePlugin.TargetMatches | plugins/withLlmMediapipe.js:71-72 | the replacement text is itself a match of exactly its own length |
| GradlePlugin.ReplaceFirstIdempotent | plugins/withLlmMediapipe.js:71-72 | replacing the first match by flag plus 4096m twice equals doing it once |
| GradlePlugin.FlagReplacementsIdempotent | plugins/withLlmMediapipe.js:71-72 | both the -Xmx and the MaxMetaspaceSize replacements are idempotent |
| GradlePlugin.UpdatedJvmArgsAppendIdempotent | plugins/withLlmMediapipe.js:65-77 | a value naming neither flag gets the desired arguments appended after a space, and updating again changes nothing |
| GradlePlugin.DesiredJvmArgsFixed | plugins/withLlmMediapipe.js:61-72 | the value written into a new property is left as it is by a later update |
| GradlePlugin.PatchAppendIdempotent | plugins/withLlmMediapipe.js:78-85 | a property list without jvmargs, patched twice, equals patched once |
| GradlePlugin.SettledFixed | plugins/withLlmMediapipe.js:71-72 | a flag with no match, or whose first match already reads flag plus 4096m, is left alone by its replacement |
| GradlePlugin.ReplaceSettles | plugins/withLlmMediapipe.js:71-72 | after a replacement the flag is settled where the first match was |
| GradlePlugin.MatchShift | plugins/withLlmMediapipe.js:71-72 | a match inside a suffix is a match, of the same kind, wherever that suffix is put |
| GradlePlugin.HeapBesideMetaspace | plugins/withLlmMediapipe.js:71-72 | a settled -Xmx match and a MaxMetaspaceSize match never overlap |
| GradlePlugin.HeapSettledInSplice | plugins/withLlmMediapipe.js:71-72 | replacing the metaspace match keeps a settled -Xmx flag settled, at its shifted place |
| GradlePlugin.HeapFixedAfterRewrite | plugins/withLlmMediapipe.js:71-72 | after both replacements the -Xmx replacement changes nothing |
| GradlePlugin.RewriteIdempotent | plugins/withLlmMediapipe.js:71-72 | the two replacements in order, run twice, equal running them once |
| GradlePlugin.RewriteKeepsFlag | plugins/withLlmMediapipe.js:65-72 | a value naming a flag still names one after the rewrite, so a second update rewrites again |
| GradlePlugin.UpdatedJvmArgsIdempotent | plugins/withLlmMediapipe.js:63-77 | updating any jvmargs value twice equals updating it once |
| GradlePlugin.PatchIdempotent | plugins/withLlmMediapipe.js:54-88 | running the gradle.properties patch twice equals running it once, for every property list |
| GradlePlugin.GradleProperties.AddGradleMemorySettings | plugins/withLlmMediapipe.js:54-88 | the in-place update yields exactly PatchProperties of the old list |

## Left out

- The MediaPipe engine is not modelled. Engine and session creation, `addQueryChunk` and the response stream are inputs (`Load`, `Setup`, `Stream`). Temperature and topK are carried as values only.
- Logging events (`logging`) and `console` output are left out: they carry debug text only.
- Concurrency is left out: coroutines, Swift `Task`s, promise timing, and overlapping generations on one model. Every operation runs to completion in sequence. The race between `cancelDownload` removing a job and that job's `finally` is not modelled. Neither is a cancellation seen only after the last chunk, where the coroutine's later `withContext` fails.
- File I/O details are left out. Asset copying in `copyFileToInternalStorageIfNeeded` is one map update; HTTP headers and the connect timeout are not modelled. A failing `renameTo`, which the code ignores, is treated as success.
- The temp file's size while the body is read is not modelled: it is written once, with the final byte count. A cancelled job deletes the file, so the intermediate sizes cannot be observed.
- Numbers: Kotlin and Swift `Int`, `Long` and `Float` are unbounded integers and reals here. The progress fraction is an exact rational, not a `Double`.
- The request id of `generateStreamingText` comes from `Math.random`; here it is a parameter.
- React state, effects and memoisation are reduced to the `LlmInferenceHook` class. Its `generateStreamingResponse` only forwards to `generateStreamingText`, so it has no member of its own.
- `ModelManager`'s `cancelDownload`, `getDownloadedModels`, `loadDownloadedModel`, `getModelInfo` and `getAllModels` are not modelled: they only forward to the native module or read the map.
- Aliasing is not modelled. `ModelInfo` objects live in the map and are mutated in place; the catalog holds values instead, so a listener's view of the live map is not represented.
- The exported plugin wrapper `withLlmMediapipe` (plugins/withLlmMediapipe.js:91-105) is not modelled: it only calls `@expo/config-plugins`.
- The web stub, the view components, the examples and the documentation site are not part of this model.
- IosModule.ExpoLlmMediapipeModule.GenerateResponse: Swift's `error.localizedDescription` and the `"\(error)"` interpolation of `LlmError` values are modelled as the underlying message text.
- IosInference.LlmInferenceModel.constructor: Swift renders a caught error with `"\(error)"`; for an `LlmError` that text would name the enum case around its message. The model writes the message itself, so "Failed to load model: Failed to create LLM session: ..." stands for that rendering, and so do the MODEL_ERROR messages of `createModel` and `createModelFromAsset`.
- Kotlin's `e.message ?: "Unknown error"` and `e.message ?: ""` are not modelled. Every failure here carries a message (a `string`), so the null branch cannot arise; see android/src/main/java/expo/modules/llmmediapipe/LlmInferenceModel.kt:127 and ExpoLlmMediapipeModule.kt:255.
- AndroidInference.LlmInferenceModel.GenerateResponseAsync: a stream that finishes with no fragment at all never calls the callback here. The engine always delivers at least one result with `isFinished` set, which this model does not assume.

Differences between the described behaviour and the code, where the model follows the code:

- `releaseModel` on Android removes the wrapper without calling `close()` (see Findings).
- Android's synchronous `generateResponse` sends no `onPartialResponse` events. The whole text comes back from one blocking call.
- A cancelled download's promise is never settled. The job returns early and only the `cancelled` event is sent.
- `getDownloadedModels` lists every file of the directory, including the `.temp` file of a running download.
- No `ERR_INVALID_URL` is produced anywhere. A malformed URL fails inside the job and is reported as `ERR_DOWNLOAD`.
- The iOS `currentResponse` field is reset by every generation and otherwise unused.
- When a jvmargs value contains `MaxMetaspaceSize` but no `-Xmx`, no heap flag is added. The plugin only rewrites the flags that are present.

## Findings

| source | as written | input that shows it | evidently intended | confidence | as-written member | corrected member |
|---|---|---|---|---|---|---|
| android/src/main/java/expo/modules/llmmediapipe/ExpoLlmMediapipeModule.kt:221-232 | `releaseModel` removes the wrapper from `modelMap` but never calls its `close()`, so the engine and session stay open with no handle left to reach them | `createModel(path, 512, 40, 0.8, 0)` on a fresh module, then `releaseModel(1)` | releasing a model closes its session and engine (`LlmInferenceModel.close`) | high, not executed | AndroidModule.ReleaseLeavesEngineOpen | AndroidModule.ReleaseAndCloseFreesEngine |
| src/ModelManager.ts:86-110 | `downloadModel` marks the entry `downloading` at 0 before the native call, and only `downloadProgress` events move it on. For a file already on the device, Android resolves true at once with no event (ExpoLlmMediapipeModule.kt:353-355), so the entry stays `downloading` | `registerModel(name, url)` with a non-empty file present (the entry becomes `downloaded`), then `downloadModel(name)` | a download that resolves true leaves the entry `downloaded` | medium, not executed | ModelManager.AlreadyDownloadedStaysDownloading | ModelManager.DownloadModelAndSettle |
