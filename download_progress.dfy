/** What the Android download loop reports while it copies the HTTP body
    into the temp file: the running byte count, the progress fraction, and
    the `downloading` events it lets through its 100 ms throttle. These
    functions specify the loop in `AndroidModule`; the lemmas state what a
    subscriber can rely on. */
module DownloadProgress {
  import opened Common
  import opened Events

  /** A progress event is sent only when more than this many milliseconds
      have passed since the previous one (or since the loop started). */
  const ThrottleMillis: int := 100

  /** Bytes received from the chunks read so far. */
  function Sum(chunks: seq<nat>): nat
  {
    if |chunks| == 0 then 0 else Sum(chunks[..|chunks| - 1]) + chunks[|chunks| - 1]
  }

  /** `total / contentLength` when the server sent a length, 0 otherwise. */
  function Fraction(total: nat, contentLength: int): (p: real)
    ensures contentLength <= 0 ==> p == 0.0
    ensures contentLength > 0 ==> p * (contentLength as real) == total as real
    ensures 0.0 <= p
  {
    if contentLength > 0 then total as real / contentLength as real else 0.0
  }

  /** `lastUpdateTime` after the loop has read chunks at the times `clock`. */
  function LastUpdate(start: int, clock: seq<int>): int
  {
    if |clock| == 0 then start
    else
      var last := LastUpdate(start, clock[..|clock| - 1]);
      if clock[|clock| - 1] - last > ThrottleMillis then clock[|clock| - 1] else last
  }

  /** The chunk read at `clock[k]` triggers a progress event. */
  predicate EmitsAt(start: int, clock: seq<int>, k: nat)
    requires k < |clock|
  {
    clock[k] - LastUpdate(start, clock[..k]) > ThrottleMillis
  }

  /** The `downloading` event for `total` bytes received. */
  function DownloadingEvent(url: string, name: string, total: nat, contentLength: int): Event
  {
    DownloadProgress(name, url, Some(total), Some(contentLength),
                     Some(Fraction(total, contentLength)), Downloading, None)
  }

  /** The terminal `completed` event: byte counts are the final file length. */
  function CompletedEvent(url: string, name: string, length: nat): Event
  {
    DownloadProgress(name, url, Some(length), Some(length), Some(1.0), Completed, None)
  }

  function CancelledEvent(url: string, name: string): Event
  {
    DownloadProgress(name, url, None, None, None, Cancelled, None)
  }

  function ErrorEvent(url: string, name: string, message: string): Event
  {
    DownloadProgress(name, url, None, None, None, Failed, Some(message))
  }

  /** The progress events the loop sends while reading `chunks` at the times `clock`. */
  function ProgressEvents(url: string, name: string, contentLength: int,
                          chunks: seq<nat>, clock: seq<int>, start: int): seq<Event>
    requires |clock| == |chunks|
  {
    if |chunks| == 0 then []
    else
      var n := |chunks| - 1;
      ProgressEvents(url, name, contentLength, chunks[..n], clock[..n], start)
      + (if clock[n] - LastUpdate(start, clock[..n]) > ThrottleMillis
         then [DownloadingEvent(url, name, Sum(chunks), contentLength)] else [])
  }

  /** The byte count never decreases as chunks arrive. */
  lemma {:induction false} SumPrefix(chunks: seq<nat>, k: nat)
    requires k <= |chunks|
    ensures Sum(chunks[..k]) <= Sum(chunks)
  {
    if k < |chunks| {
      var n := |chunks| - 1;
      assert chunks[..n][..k] == chunks[..k];
      SumPrefix(chunks[..n], k);
    } else {
      assert chunks[..k] == chunks;
    }
  }

  /** Every progress event is a `downloading` event for this model and URL,
      carries the announced length, and counts no more bytes than were read. */
  lemma {:induction false} ProgressEventsShape(url: string, name: string, contentLength: int,
                                               chunks: seq<nat>, clock: seq<int>, start: int)
    requires |clock| == |chunks|
    ensures forall e :: e in ProgressEvents(url, name, contentLength, chunks, clock, start) ==>
              && e.DownloadProgress? && e.status == Downloading
              && e.modelName == name && e.url == url
              && e.totalBytes == Some(contentLength)
              && e.bytesDownloaded.Some? && 0 <= e.bytesDownloaded.value <= Sum(chunks)
              && e.progress == Some(Fraction(e.bytesDownloaded.value, contentLength))
  {
    if |chunks| > 0 {
      var n := |chunks| - 1;
      ProgressEventsShape(url, name, contentLength, chunks[..n], clock[..n], start);
    }
  }

  /** A `downloading` or `completed` event carrying a byte count and a fraction. */
  predicate Reports(e: Event)
  {
    e.DownloadProgress? && e.bytesDownloaded.Some? && e.progress.Some?
  }

  /** Event `a` reports no more bytes and no larger fraction than event `b`. */
  predicate NotAhead(a: Event, b: Event)
  {
    && Reports(a) && Reports(b)
    && a.bytesDownloaded.value <= b.bytesDownloaded.value
    && a.progress.value <= b.progress.value
  }

  /** Byte counts and progress fractions never decrease along `evs`. */
  predicate NonDecreasingRun(evs: seq<Event>)
  {
    forall i, j :: 0 <= i < j < |evs| ==> NotAhead(evs[i], evs[j])
  }

  /** Byte counts and progress fractions of successive events never decrease. */
  lemma {:induction false} ProgressNonDecreasing(url: string, name: string, contentLength: int,
                                                 chunks: seq<nat>, clock: seq<int>, start: int)
    requires |clock| == |chunks|
    ensures NonDecreasingRun(ProgressEvents(url, name, contentLength, chunks, clock, start))
  {
    if |chunks| > 0 {
      var n := |chunks| - 1;
      var prev := ProgressEvents(url, name, contentLength, chunks[..n], clock[..n], start);
      ProgressNonDecreasing(url, name, contentLength, chunks[..n], clock[..n], start);
      ProgressEventsShape(url, name, contentLength, chunks[..n], clock[..n], start);
      ProgressEventsShape(url, name, contentLength, chunks, clock, start);
      var evs := ProgressEvents(url, name, contentLength, chunks, clock, start);
      forall i, j | 0 <= i < j < |evs|
        ensures NotAhead(evs[i], evs[j])
      {
        if j >= |prev| {
          assert evs[i] == prev[i] && prev[i] in prev;
          assert evs[j] == DownloadingEvent(url, name, Sum(chunks), contentLength);
          assert evs[i].bytesDownloaded.value <= Sum(chunks[..n]);
          assert Sum(chunks) == Sum(chunks[..n]) + chunks[n];
          FractionMonotone(evs[i].bytesDownloaded.value, evs[j].bytesDownloaded.value, contentLength);
          assert NotAhead(evs[i], evs[j]);
        } else {
          assert evs[i] == prev[i] && evs[j] == prev[j];
        }
      }
    }
  }

  /** A larger byte count never gives a smaller fraction. */
  lemma FractionMonotone(a: nat, b: nat, contentLength: int)
    requires a <= b
    ensures Fraction(a, contentLength) <= Fraction(b, contentLength)
  {
    if contentLength > 0 {
      var c := contentLength as real;
      assert Fraction(b, contentLength) - Fraction(a, contentLength) == (b - a) as real / c;
    }
  }

  /** Up to the announced length, the fraction is at most 1. */
  lemma FractionAtMostOne(total: nat, contentLength: int)
    requires 0 < contentLength && total <= contentLength
    ensures Fraction(total, contentLength) <= 1.0
  {
    var c := contentLength as real;
    assert Fraction(total, contentLength) == total as real / c;
    assert total as real / c <= c / c;
  }

  /** When the body is no longer than the announced length, every reported
      fraction lies in [0, 1]; without a length it is 0. */
  lemma ProgressWithinUnit(url: string, name: string, contentLength: int,
                           chunks: seq<nat>, clock: seq<int>, start: int)
    requires |clock| == |chunks|
    requires contentLength > 0 ==> Sum(chunks) <= contentLength
    ensures forall e :: e in ProgressEvents(url, name, contentLength, chunks, clock, start) ==>
              && Reports(e) && 0.0 <= e.progress.value <= 1.0
              && (contentLength <= 0 ==> e.progress.value == 0.0)
  {
    ProgressEventsShape(url, name, contentLength, chunks, clock, start);
    forall e | e in ProgressEvents(url, name, contentLength, chunks, clock, start)
      ensures e.progress.value <= 1.0
    {
      if contentLength > 0 {
        FractionAtMostOne(e.bytesDownloaded.value, contentLength);
      }
    }
  }

  /** The whole event sequence of a completed download: progress never
      decreases, stays within [0, 1], and the last event reports 1.0. */
  lemma CompletedRunMonotone(url: string, name: string, contentLength: int,
                             chunks: seq<nat>, clock: seq<int>, start: int)
    requires |clock| == |chunks|
    requires contentLength > 0 ==> Sum(chunks) <= contentLength
    ensures var evs := ProgressEvents(url, name, contentLength, chunks, clock, start)
                       + [CompletedEvent(url, name, Sum(chunks))];
            && evs[|evs| - 1].status == Completed && evs[|evs| - 1].progress == Some(1.0)
            && (forall i :: 0 <= i < |evs| ==> Reports(evs[i]) && 0.0 <= evs[i].progress.value <= 1.0)
            && NonDecreasingRun(evs)
  {
    var prev := ProgressEvents(url, name, contentLength, chunks, clock, start);
    var evs := prev + [CompletedEvent(url, name, Sum(chunks))];
    ProgressWithinUnit(url, name, contentLength, chunks, clock, start);
    ProgressNonDecreasing(url, name, contentLength, chunks, clock, start);
    ProgressEventsShape(url, name, contentLength, chunks, clock, start);
    forall i | 0 <= i < |evs|
      ensures Reports(evs[i]) && 0.0 <= evs[i].progress.value <= 1.0
    {
      if i < |prev| {
        assert evs[i] == prev[i] && prev[i] in prev;
      }
    }
    forall i, j | 0 <= i < j < |evs|
      ensures NotAhead(evs[i], evs[j])
    {
      if j < |prev| {
        assert evs[i] == prev[i] && evs[j] == prev[j];
      } else {
        assert evs[i] == prev[i] && prev[i] in prev;
        assert evs[j] == CompletedEvent(url, name, Sum(chunks));
      }
    }
  }

  /** After an event at chunk `k1` and none up to chunk `k`, the loop's
      `lastUpdateTime` is the time of chunk `k1`. */
  lemma {:induction false} LastUpdateAfterEmit(start: int, clock: seq<int>, k1: nat, k: nat)
    requires k1 < k <= |clock|
    requires EmitsAt(start, clock, k1)
    requires forall j :: k1 < j < k ==> !EmitsAt(start, clock, j)
    ensures LastUpdate(start, clock[..k]) == clock[k1]
  {
    var c := clock[..k];
    assert c[..k - 1] == clock[..k - 1];
    if k == k1 + 1 {
    } else {
      LastUpdateAfterEmit(start, clock, k1, k - 1);
      assert !EmitsAt(start, clock, k - 1);
    }
  }

  /** Throttling: two consecutive progress events are sent for chunks read
      more than 100 ms apart. */
  lemma ThrottleSpacing(start: int, clock: seq<int>, k1: nat, k2: nat)
    requires k1 < k2 < |clock|
    requires EmitsAt(start, clock, k1) && EmitsAt(start, clock, k2)
    requires forall j :: k1 < j < k2 ==> !EmitsAt(start, clock, j)
    ensures clock[k2] - clock[k1] > ThrottleMillis
  {
    LastUpdateAfterEmit(start, clock, k1, k2);
  }

  /** The first progress event comes more than 100 ms after the loop started. */
  lemma {:induction false} FirstEmitAfterStart(start: int, clock: seq<int>, k: nat)
    requires k < |clock|
    requires EmitsAt(start, clock, k)
    requires forall j :: 0 <= j < k ==> !EmitsAt(start, clock, j)
    ensures clock[k] - start > ThrottleMillis
  {
    NoEmitKeepsStart(start, clock, k);
  }

  lemma {:induction false} NoEmitKeepsStart(start: int, clock: seq<int>, k: nat)
    requires k <= |clock|
    requires forall j :: 0 <= j < k ==> !EmitsAt(start, clock, j)
    ensures LastUpdate(start, clock[..k]) == start
  {
    if k > 0 {
      assert clock[..k][..k - 1] == clock[..k - 1];
      NoEmitKeepsStart(start, clock, k - 1);
      assert !EmitsAt(start, clock, k - 1);
    }
  }

  /** One more chunk: the byte count grows by it, the throttle clock moves
      only when an event goes out, and at most that one event is added. */
  lemma ProgressStep(url: string, name: string, contentLength: int,
                     chunks: seq<nat>, clock: seq<int>, start: int, i: nat)
    requires |clock| == |chunks| && i < |chunks|
    ensures Sum(chunks[..i + 1]) == Sum(chunks[..i]) + chunks[i]
    ensures LastUpdate(start, clock[..i + 1])
         == (if EmitsAt(start, clock, i) then clock[i] else LastUpdate(start, clock[..i]))
    ensures ProgressEvents(url, name, contentLength, chunks[..i + 1], clock[..i + 1], start)
         == ProgressEvents(url, name, contentLength, chunks[..i], clock[..i], start)
            + (if EmitsAt(start, clock, i)
               then [DownloadingEvent(url, name, Sum(chunks[..i + 1]), contentLength)] else [])
  {
    assert chunks[..i + 1][..i] == chunks[..i];
    assert clock[..i + 1][..i] == clock[..i];
  }
}
