/** The JavaScript model catalog: registered models by name with their
    download status, kept up to date from `downloadProgress` events and
    pushed to subscribed listeners after every change. */
module ModelManager {
  import opened Common
  import opened Events
  import DownloadProgress
  import AndroidModule

  datatype ModelStatus = NotDownloaded | Downloading | Downloaded | Error

  datatype ModelInfo = ModelInfo(name: string, url: string, size: Option<int>, status: ModelStatus,
                                 progress: Option<real>, error: Option<string>)

  /** One call of a listener: which listener, and the catalog it was given. */
  datatype Notification = Notification(listener: nat, models: map<string, ModelInfo>)

  /** The catalog status a download status leads to: `completed` means
      downloaded, `error` and `downloading` carry over, and anything else
      (`cancelled`) means not downloaded. */
  function StatusFor(s: DownloadStatus): ModelStatus
  {
    match s
    case Completed => Downloaded
    case Failed => Error
    case Downloading => ModelStatus.Downloading
    case Cancelled => NotDownloaded
  }

  /** The entry after one `downloadProgress` event for it: the status is
      mapped, the progress replaced only when the event carries one, and the
      error replaced only by a non-empty message. */
  function ApplyProgress(info: ModelInfo, ev: Event): (r: ModelInfo)
    requires ev.DownloadProgress?
    ensures r.name == info.name && r.url == info.url && r.size == info.size
    ensures r.status == StatusFor(ev.status)
    ensures r.progress == (if ev.progress.Some? then ev.progress else info.progress)
    ensures info.error.Some? ==> r.error.Some?
    ensures r.error != info.error ==> ev.errorMessage.Some? && ev.errorMessage.value != "" && r.error == ev.errorMessage
  {
    info.(status := StatusFor(ev.status),
          progress := if ev.progress.Some? then ev.progress else info.progress,
          error := if ev.errorMessage.Some? && ev.errorMessage.value != "" then ev.errorMessage else info.error)
  }

  /** The catalog after one event: only the named entry changes, and an
      event for an unregistered name changes nothing. */
  function ApplyEvent(models: map<string, ModelInfo>, ev: Event): (r: map<string, ModelInfo>)
    requires ev.DownloadProgress?
    ensures r.Keys == models.Keys
    ensures forall n :: n in models && n != ev.modelName ==> r[n] == models[n]
  {
    if ev.modelName in models then models[ev.modelName := ApplyProgress(models[ev.modelName], ev)]
    else models
  }

  predicate AllProgress(evs: seq<Event>)
  {
    forall i :: 0 <= i < |evs| ==> evs[i].DownloadProgress?
  }

  /** The catalog after a run of events, in order. */
  function ApplyAll(models: map<string, ModelInfo>, evs: seq<Event>): (r: map<string, ModelInfo>)
    requires AllProgress(evs)
    ensures r.Keys == models.Keys
  {
    if |evs| == 0 then models
    else ApplyEvent(ApplyAll(models, evs[..|evs| - 1]), evs[|evs| - 1])
  }

  /** Entries no event names are left exactly as they were; in particular a
      run for an unregistered model changes nothing. */
  lemma {:induction false} ApplyAllOthers(models: map<string, ModelInfo>, evs: seq<Event>, n: string)
    requires AllProgress(evs)
    requires forall i :: 0 <= i < |evs| ==> evs[i].modelName != n
    ensures n in models ==> n in ApplyAll(models, evs) && ApplyAll(models, evs)[n] == models[n]
    ensures n !in models ==> n !in ApplyAll(models, evs)
  {
    if |evs| > 0 {
      ApplyAllOthers(models, evs[..|evs| - 1], n);
    }
  }

  /** Once an entry carries an error message, no later event clears it. */
  lemma {:induction false} ErrorSticky(models: map<string, ModelInfo>, evs: seq<Event>, n: string)
    requires AllProgress(evs)
    requires n in models && models[n].error.Some?
    ensures n in ApplyAll(models, evs) && ApplyAll(models, evs)[n].error.Some?
  {
    if |evs| > 0 {
      ErrorSticky(models, evs[..|evs| - 1], n);
    }
  }

  /** The status of a registered entry is the one the last event for it
      leads to. */
  lemma LastEventStatus(models: map<string, ModelInfo>, evs: seq<Event>, ev: Event)
    requires AllProgress(evs) && ev.DownloadProgress? && ev.modelName in models
    ensures ApplyAll(models, evs + [ev])[ev.modelName].status == StatusFor(ev.status)
  {
    assert (evs + [ev])[..|evs|] == evs;
  }

  /** A run that ends with a `completed` event at progress 1.0 leaves its
      registered entry downloaded at 1.0. */
  lemma EndsCompleted(models: map<string, ModelInfo>, run: seq<Event>, done: Event)
    requires AllProgress(run) && done.DownloadProgress? && done.modelName in models
    requires done.status == Completed && done.progress == Some(1.0)
    ensures AllProgress(run + [done])
    ensures ApplyAll(models, run + [done])[done.modelName].status == Downloaded
    ensures ApplyAll(models, run + [done])[done.modelName].progress == Some(1.0)
  {
    var evs := run + [done];
    assert evs[..|run|] == run;
    assert evs[|run|] == done;
  }

  /** A download the Android job completes leaves its registered entry
      `downloaded` with progress 1.0, whatever progress events came first. */
  lemma CompletedDownloadIsDownloaded(models: map<string, ModelInfo>, url: string, name: string,
                                      contentLength: int, chunks: seq<nat>, clock: seq<int>, start: int)
    requires |clock| == |chunks| && name in models
    ensures var evs := DownloadProgress.ProgressEvents(url, name, contentLength, chunks, clock, start)
                       + [DownloadProgress.CompletedEvent(url, name, DownloadProgress.Sum(chunks))];
            AllProgress(evs)
            && ApplyAll(models, evs)[name].status == Downloaded
            && ApplyAll(models, evs)[name].progress == Some(1.0)
  {
    var run := DownloadProgress.ProgressEvents(url, name, contentLength, chunks, clock, start);
    DownloadProgress.ProgressEventsShape(url, name, contentLength, chunks, clock, start);
    assert AllProgress(run) by {
      forall i | 0 <= i < |run|
        ensures run[i].DownloadProgress?
      {
        assert run[i] in run;
      }
    }
    EndsCompleted(models, run, DownloadProgress.CompletedEvent(url, name, DownloadProgress.Sum(chunks)));
  }

  /** What `downloadModel` settles with: an unregistered name is rejected,
      otherwise the native call's settlement is passed on. */
  function DownloadOutcome(registered: bool, modelName: string, native: Settlement<bool>): Settlement<bool>
  {
    if registered then native else Rejected("Error", "Model " + modelName + " is not registered")
  }

  /** An entry whose download has finished: downloaded, at progress 1.0. */
  function Settled(info: ModelInfo): (r: ModelInfo)
    ensures r.name == info.name && r.url == info.url && r.size == info.size && r.error == info.error
    ensures r.status == Downloaded && r.progress == Some(1.0)
  {
    info.(status := Downloaded, progress := Some(1.0))
  }

  /** Settling an entry after the `completed` event changes nothing, so the
      corrected download agrees with the event path whenever that event
      came first. */
  lemma SettleAfterCompleted(models: map<string, ModelInfo>, run: seq<Event>, done: Event)
    requires AllProgress(run) && done.DownloadProgress? && done.modelName in models
    requires done.status == Completed && done.progress == Some(1.0)
    ensures AllProgress(run + [done])
    ensures var after := ApplyAll(models, run + [done]);
            done.modelName in after && Settled(after[done.modelName]) == after[done.modelName]
  {
    EndsCompleted(models, run, done);
  }

  /** The notifications one `notifyListeners` sends: every listener, in
      subscription order, gets the whole catalog. */
  function Fanout(listeners: seq<nat>, models: map<string, ModelInfo>): (ns: seq<Notification>)
    ensures |ns| == |listeners|
    ensures forall i :: 0 <= i < |ns| ==> ns[i] == Notification(listeners[i], models)
  {
    if |listeners| == 0 then []
    else Fanout(listeners[..|listeners| - 1], models) + [Notification(listeners[|listeners| - 1], models)]
  }

  /** The listener list with every occurrence of `cb` removed. */
  function Without(listeners: seq<nat>, cb: nat): seq<nat>
  {
    if |listeners| == 0 then []
    else
      var last := listeners[|listeners| - 1];
      Without(listeners[..|listeners| - 1], cb) + (if last == cb then [] else [last])
  }

  /** Removal leaves exactly the other listeners. */
  lemma {:induction false} WithoutMembers(listeners: seq<nat>, cb: nat)
    ensures forall l :: l in Without(listeners, cb) <==> l in listeners && l != cb
  {
    if |listeners| > 0 {
      var init := listeners[..|listeners| - 1];
      WithoutMembers(init, cb);
      assert listeners == init + [listeners[|listeners| - 1]];
    }
  }

  /** Removal works piecewise, so the kept listeners keep their order. */
  lemma {:induction false} WithoutAppend(a: seq<nat>, b: seq<nat>, cb: nat)
    ensures Without(a + b, cb) == Without(a, cb) + Without(b, cb)
  {
    if |b| == 0 {
      assert a + b == a;
    } else {
      var b' := b[..|b| - 1];
      assert (a + b)[..|a + b| - 1] == a + b';
      WithoutAppend(a, b', cb);
    }
  }

  /** A list without `cb` is left as it is. */
  lemma {:induction false} WithoutAbsent(listeners: seq<nat>, cb: nat)
    requires cb !in listeners
    ensures Without(listeners, cb) == listeners
  {
    if |listeners| > 0 {
      var init := listeners[..|listeners| - 1];
      var last := listeners[|listeners| - 1];
      assert listeners == init + [last];
      assert cb !in init;
      WithoutAbsent(init, cb);
      assert last != cb;
    }
  }

  class ModelManager {
    var models: map<string, ModelInfo>
    var listeners: seq<nat>
    /** Whether the `downloadProgress` subscription is still in place. */
    var subscribed: bool
    /** Every listener call so far, oldest first. */
    var notified: seq<Notification>

    /** Subscribes to `downloadProgress`. */
    constructor ()
      ensures models == map[] && listeners == [] && subscribed && notified == []
    {
      models := map[];
      listeners := [];
      subscribed := true;
      notified := [];
    }

    /** `notifyListeners`: call each listener with the catalog. */
    method NotifyListeners()
      modifies this
      ensures notified == old(notified) + Fanout(listeners, models)
      ensures models == old(models) && listeners == old(listeners) && subscribed == old(subscribed)
    {
      var i := 0;
      while i < |listeners|
        invariant 0 <= i <= |listeners|
        invariant notified == old(notified) + Fanout(listeners[..i], models)
        invariant models == old(models) && listeners == old(listeners) && subscribed == old(subscribed)
      {
        assert listeners[..i + 1][..i] == listeners[..i];
        notified := notified + [Notification(listeners[i], models)];
        i := i + 1;
      }
      assert listeners[..i] == listeners;
    }

    /** `handleDownloadProgress`: update the named entry and notify; an
        event for an unregistered name is ignored. */
    method HandleDownloadProgress(ev: Event)
      requires ev.DownloadProgress?
      modifies this
      ensures models == ApplyEvent(old(models), ev)
      ensures notified == old(notified) + (if ev.modelName in old(models) then Fanout(listeners, models) else [])
      ensures listeners == old(listeners) && subscribed == old(subscribed)
    {
      if ev.modelName in models {
        models := models[ev.modelName := ApplyProgress(models[ev.modelName], ev)];
        NotifyListeners();
      }
    }

    /** Delivery through the subscription: the handler runs only while it is
        subscribed. */
    method Deliver(ev: Event)
      requires ev.DownloadProgress?
      modifies this
      ensures models == (if old(subscribed) then ApplyEvent(old(models), ev) else old(models))
      ensures !old(subscribed) ==> notified == old(notified)
      ensures listeners == old(listeners) && subscribed == old(subscribed)
    {
      if subscribed {
        HandleDownloadProgress(ev);
      }
    }

    /** `checkModelStatus`: set the entry's status from the native
        `isModelDownloaded` answer and notify; a failed native call changes
        nothing. */
    method CheckModelStatus(modelName: string, isDownloaded: Result<bool>)
      modifies this
      ensures isDownloaded.Success? && modelName in old(models) ==>
                && models == old(models)[modelName := old(models)[modelName].(
                     status := if isDownloaded.value then Downloaded else NotDownloaded)]
                && notified == old(notified) + Fanout(listeners, models)
      ensures isDownloaded.Failure? || modelName !in old(models) ==>
                models == old(models) && notified == old(notified)
      ensures listeners == old(listeners) && subscribed == old(subscribed)
    {
      if isDownloaded.Success? && modelName in models {
        var model := models[modelName];
        models := models[modelName := model.(status := if isDownloaded.value then Downloaded else NotDownloaded)];
        NotifyListeners();
      }
    }

    /** `registerModel`: a known name is left untouched; a new one is added
        as not downloaded and then checked against the file system. */
    method RegisterModel(name: string, url: string, isDownloaded: Result<bool>)
      modifies this
      ensures name in old(models) ==> models == old(models) && notified == old(notified)
      ensures name !in old(models) ==>
                models == old(models)[name := ModelInfo(name, url, None,
                  if isDownloaded.Success? && isDownloaded.value then Downloaded else NotDownloaded, None, None)]
      ensures name !in old(models) ==>
                notified == old(notified) + (if isDownloaded.Success? then Fanout(listeners, models) else [])
      ensures listeners == old(listeners) && subscribed == old(subscribed)
    {
      if name !in models {
        models := models[name := ModelInfo(name, url, None, NotDownloaded, None, None)];
        CheckModelStatus(name, isDownloaded);
      }
    }

    /** `downloadModel`: an unregistered name throws and changes nothing.
        Otherwise the entry becomes `downloading` at progress 0 (listeners
        notified) before the native call; a native failure marks it `error`
        with the message, notifies again and rethrows. */
    method DownloadModel(modelName: string, native: Settlement<bool>) returns (r: Settlement<bool>)
      modifies this
      ensures modelName !in old(models) ==>
                && r == Rejected("Error", "Model " + modelName + " is not registered")
                && models == old(models) && notified == old(notified)
      ensures modelName in old(models) && !native.Rejected? ==>
                && r == native
                && models == old(models)[modelName := old(models)[modelName].(status := ModelStatus.Downloading,
                                                                               progress := Some(0.0))]
                && notified == old(notified) + Fanout(listeners, models)
      ensures modelName in old(models) && native.Rejected? ==>
                && r == native
                && models == old(models)[modelName := old(models)[modelName].(status := Error,
                                                                               progress := Some(0.0),
                                                                               error := Some(native.message))]
                && notified == old(notified)
                               + Fanout(listeners, old(models)[modelName := old(models)[modelName].(
                                   status := ModelStatus.Downloading, progress := Some(0.0))])
                               + Fanout(listeners, models)
      ensures listeners == old(listeners) && subscribed == old(subscribed)
    {
      if modelName !in models {
        r := Rejected("Error", "Model " + modelName + " is not registered");
        return;
      }
      var model := models[modelName].(status := ModelStatus.Downloading, progress := Some(0.0));
      models := models[modelName := model];
      NotifyListeners();
      if native.Rejected? {
        model := model.(status := Error, error := Some(native.message));
        models := models[modelName := model];
        NotifyListeners();
      }
      r := native;
    }

    /** `downloadModel` as evidently intended: like `DownloadModel`, except
        that a native call resolving true also settles the entry as
        downloaded at 1.0 and notifies, so an already-present file does not
        leave the entry `downloading`. */
    method DownloadModelAndSettle(modelName: string, native: Settlement<bool>) returns (r: Settlement<bool>)
      modifies this
      ensures r == DownloadOutcome(modelName in old(models), modelName, native)
      ensures modelName !in old(models) ==> models == old(models) && notified == old(notified)
      ensures modelName in old(models) && native == Resolved(true) ==>
                && models == old(models)[modelName := Settled(old(models)[modelName])]
                && notified == old(notified)
                               + Fanout(listeners, old(models)[modelName := old(models)[modelName].(
                                   status := ModelStatus.Downloading, progress := Some(0.0))])
                               + Fanout(listeners, models)
      ensures modelName in old(models) && native.Rejected? ==>
                && models == old(models)[modelName := old(models)[modelName].(status := Error,
                                                                               progress := Some(0.0),
                                                                               error := Some(native.message))]
      ensures modelName in old(models) && (native.Pending? || native == Resolved(false)) ==>
                && models == old(models)[modelName := old(models)[modelName].(status := ModelStatus.Downloading,
                                                                               progress := Some(0.0))]
      ensures listeners == old(listeners) && subscribed == old(subscribed)
    {
      r := DownloadModel(modelName, native);
      if modelName in models && native == Resolved(true) {
        models := models[modelName := Settled(models[modelName])];
        NotifyListeners();
      }
    }

    /** `deleteModel`: when the native delete reports true and the name is
        registered, the entry becomes not downloaded with no progress. */
    method DeleteModel(modelName: string, deleted: bool) returns (r: bool)
      modifies this
      ensures r == deleted
      ensures deleted && modelName in old(models) ==>
                && models == old(models)[modelName := old(models)[modelName].(status := NotDownloaded,
                                                                               progress := None)]
                && notified == old(notified) + Fanout(listeners, models)
      ensures !deleted || modelName !in old(models) ==> models == old(models) && notified == old(notified)
      ensures listeners == old(listeners) && subscribed == old(subscribed)
    {
      if deleted && modelName in models {
        models := models[modelName := models[modelName].(status := NotDownloaded, progress := None)];
        NotifyListeners();
      }
      r := deleted;
    }

    /** `addListener`: append the callback. */
    method AddListener(cb: nat)
      modifies this
      ensures listeners == old(listeners) + [cb]
      ensures models == old(models) && subscribed == old(subscribed) && notified == old(notified)
    {
      listeners := listeners + [cb];
    }

    /** The function `addListener` returns: drop every registration of `cb`. */
    method Unsubscribe(cb: nat)
      modifies this
      ensures listeners == Without(old(listeners), cb)
      ensures models == old(models) && subscribed == old(subscribed) && notified == old(notified)
    {
      listeners := Without(listeners, cb);
    }

    /** `cleanup`: remove the download subscription and every listener. */
    method Cleanup()
      modifies this
      ensures listeners == [] && !subscribed
      ensures models == old(models) && notified == old(notified)
    {
      subscribed := false;
      listeners := [];
    }
  }

  /** Unsubscribing a callback right after its first subscription restores
      the listener list. */
  lemma UnsubscribeUndoesAdd(listeners: seq<nat>, cb: nat)
    requires cb !in listeners
    ensures Without(listeners + [cb], cb) == listeners
  {
    WithoutAppend(listeners, [cb], cb);
    WithoutAbsent(listeners, cb);
    assert Without([cb], cb) == [];
  }

  /** A model whose file is already on the device: Android resolves its
      download with true at once and sends no event, and the catalog entry is
      left `downloading`, even when registration had found the file and
      marked it downloaded (a non-empty file). */
  method AlreadyDownloadedStaysDownloading(name: string, url: string, size: nat)
    returns (manager: ModelManager, native: AndroidModule.ExpoLlmMediapipeModule,
             registered: ModelStatus, r: Settlement<bool>)
    ensures registered == (if size > 0 then Downloaded else NotDownloaded)
    ensures r == Resolved(true) && native.events == []
    ensures name in manager.models && manager.models[name].status == ModelStatus.Downloading
  {
    native := new AndroidModule.ExpoLlmMediapipeModule(map[], map[name := size], map[]);
    manager := new ModelManager();
    var present := native.IsModelDownloaded(name);
    manager.RegisterModel(name, url, Success(present));
    registered := manager.models[name].status;
    var settlement := native.DownloadModel(url, name, None);
    r := manager.DownloadModel(name, settlement);
  }

  /** The corrected download on the same scenario ends downloaded. */
  method AlreadyDownloadedSettles(name: string, url: string, size: nat)
    returns (manager: ModelManager, native: AndroidModule.ExpoLlmMediapipeModule, r: Settlement<bool>)
    ensures r == Resolved(true) && native.events == []
    ensures name in manager.models && manager.models[name].status == Downloaded
    ensures manager.models[name].progress == Some(1.0)
  {
    native := new AndroidModule.ExpoLlmMediapipeModule(map[], map[name := size], map[]);
    manager := new ModelManager();
    var present := native.IsModelDownloaded(name);
    manager.RegisterModel(name, url, Success(present));
    var settlement := native.DownloadModel(url, name, None);
    r := manager.DownloadModelAndSettle(name, settlement);
  }
}
