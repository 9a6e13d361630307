/** Payloads carried by the module's event channel. Every native binding
    emits these; the JavaScript layer subscribes to them by name. */
module Events {
  import opened Common

  /** The `status` field of a `downloadProgress` event. */
  datatype DownloadStatus = Downloading | Completed | Failed | Cancelled

  datatype Event =
    /** `onPartialResponse`: one streamed fragment of a generation. */
    | PartialResponse(handle: int, requestId: int, response: string)
    /** `onErrorResponse`: a generation failed. */
    | ErrorResponse(handle: int, requestId: int, error: string)
    /** `downloadProgress`: a state change or byte count of a model download. */
    | DownloadProgress(modelName: string, url: string,
                       bytesDownloaded: Option<int>, totalBytes: Option<int>,
                       progress: Option<real>, status: DownloadStatus,
                       errorMessage: Option<string>)

  /** The `onPartialResponse` events that report the fragments `parts` of
      request `requestId` on model `handle`, in order. */
  function PartialEvents(handle: int, requestId: int, parts: seq<string>): (evs: seq<Event>)
    ensures |evs| == |parts|
    ensures forall i :: 0 <= i < |evs| ==> evs[i] == PartialResponse(handle, requestId, parts[i])
  {
    if |parts| == 0 then []
    else PartialEvents(handle, requestId, parts[..|parts| - 1])
         + [PartialResponse(handle, requestId, parts[|parts| - 1])]
  }

  /** The responses of the `onPartialResponse` events in `evs` that belong to
      request `requestId` on model `handle`, in delivery order. */
  function ResponsesFor(evs: seq<Event>, handle: int, requestId: int): seq<string>
  {
    if |evs| == 0 then []
    else
      var e := evs[|evs| - 1];
      ResponsesFor(evs[..|evs| - 1], handle, requestId)
      + (if e.PartialResponse? && e.handle == handle && e.requestId == requestId
         then [e.response] else [])
  }

  /** Picking one request's fragments out of the merged stream distributes over append. */
  lemma {:induction false} ResponsesForAppend(a: seq<Event>, b: seq<Event>, handle: int, requestId: int)
    ensures ResponsesFor(a + b, handle, requestId)
         == ResponsesFor(a, handle, requestId) + ResponsesFor(b, handle, requestId)
  {
    if |b| > 0 {
      var b' := b[..|b| - 1];
      assert (a + b)[..|a + b| - 1] == a + b';
      ResponsesForAppend(a, b', handle, requestId);
    } else {
      assert a + b == a;
    }
  }

  /** A subscriber filtering on (handle, requestId) recovers exactly the
      fragments the model streamed for that request, in order. */
  lemma {:induction false} ResponsesForPartialEvents(handle: int, requestId: int, parts: seq<string>)
    ensures ResponsesFor(PartialEvents(handle, requestId, parts), handle, requestId) == parts
  {
    if |parts| > 0 {
      var n := |parts| - 1;
      var evs := PartialEvents(handle, requestId, parts);
      assert evs[..n] == PartialEvents(handle, requestId, parts[..n]);
      ResponsesForPartialEvents(handle, requestId, parts[..n]);
      assert parts[..n] + [parts[n]] == parts;
    }
  }

  /** Events of another handle or another request contribute nothing to a
      subscriber's view. */
  lemma {:induction false} ResponsesForOtherRequest(handle: int, requestId: int, parts: seq<string>,
                                                    h: int, r: int)
    requires h != handle || r != requestId
    ensures ResponsesFor(PartialEvents(handle, requestId, parts), h, r) == []
  {
    if |parts| > 0 {
      ResponsesForOtherRequest(handle, requestId, parts[..|parts| - 1], h, r);
    }
  }
}
