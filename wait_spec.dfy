/** What WaitForDiagnostics and settleDiagnostics answer, stated on the events
    that happen while a call waits rather than on real time.  The class
    in module DiagnosticWaiters is proved to answer exactly this. */
module WaitSpec {
  import opened Wrappers
  import opened Protocol

  /** `ctx.Err()` once the caller's context is done. */
  datatype ContextError = Canceled | DeadlineExceeded

  /** One thing that happens while a call waits. */
  datatype Event =
    | Publish(uri: DocumentUri, diagnostics: seq<Diagnostic>)  // diagnostics arrive: the cache is set, then the URI's waiters are notified
    | Timeout                                                 // the caller's timeout elapses (`time.After(timeout)`)
    | TimerExpire                                             // the settle timer fires: a full settle period without a new round
    | Cancel(err: ContextError)                               // the caller's context is done

  /** The diagnostics cache, `Client.diagnostics`. */
  type Cache = map<DocumentUri, seq<Diagnostic>>

  /** What GetFileDiagnostics reads: the cached set, or nothing for a URI never published. */
  function CachedOf(c: Cache, uri: DocumentUri): seq<Diagnostic> {
    if uri in c then c[uri] else []
  }

  /** The cache after the first `k` events, starting from `c0`. */
  function CacheAt(c0: Cache, events: seq<Event>, k: nat): Cache
    requires k <= |events|
    decreases k
  {
    if k == 0 then c0
    else
      var c := CacheAt(c0, events, k - 1);
      match events[k - 1]
      case Publish(u, d) => c[u := d]
      case _ => c
  }

  /** The event notifies the waiters of `uri`. */
  predicate Notifies(e: Event, uri: DocumentUri) {
    e.Publish? && e.uri == uri
  }

  /** How a call ends: at which event, with which error, and whether it had
      reached the settle loop; or it is still blocked when the events run out. */
  datatype Exit = Stopped(at: nat, err: Option<ContextError>, settled: bool) | Blocked

  /** What a call returns: the diagnostics and the error, or nothing yet. */
  datatype WaitResult = Returned(diagnostics: seq<Diagnostic>, err: Option<ContextError>) | StillWaiting

  /** The settle loop from event `i` on (diagnostic_waiters.go, lines 63-84):
      a notification starts another round, the expiry of the settle timer and
      cancellation end the call; the caller's timeout no longer matters. */
  function SettleFrom(uri: DocumentUri, events: seq<Event>, i: nat): (x: Exit)
    ensures x.Stopped? ==> i <= x.at < |events| && x.settled
    decreases |events| - i
  {
    if i >= |events| then Blocked
    else match events[i]
      case Publish(_, _) => SettleFrom(uri, events, i + 1)
      case Timeout => SettleFrom(uri, events, i + 1)
      case TimerExpire => Stopped(i, None, true)
      case Cancel(e) => Stopped(i, Some(e), true)
  }

  /** The first phase from event `i` on (lines 43-52): a notification of `uri`
      moves on to the settle loop, cancellation and the caller's timeout end
      the call; notifications of other URIs and the (not yet started) settle
      timer do not concern it. */
  function AwaitFrom(uri: DocumentUri, events: seq<Event>, i: nat): (x: Exit)
    ensures x.Stopped? ==> i <= x.at < |events|
    decreases |events| - i
  {
    if i >= |events| then Blocked
    else match events[i]
      case Publish(u, _) => if u == uri then SettleFrom(uri, events, i + 1) else AwaitFrom(uri, events, i + 1)
      case Timeout => Stopped(i, None, false)
      case TimerExpire => AwaitFrom(uri, events, i + 1)
      case Cancel(e) => Stopped(i, Some(e), false)
  }

  /** The number of events a call consumes. */
  function Consumed(x: Exit, n: nat): nat {
    if x.Stopped? then x.at + 1 else n
  }

  /** The answer of a call that ends as `x`: the cache contents at the moment it returns. */
  function ResultOf(c0: Cache, uri: DocumentUri, events: seq<Event>, x: Exit): WaitResult
    requires x.Stopped? ==> x.at < |events|
  {
    match x
    case Blocked => StillWaiting
    case Stopped(k, err, _) => Returned(CachedOf(CacheAt(c0, events, k), uri), err)
  }

  /** The answer of WaitForDiagnostics(uri) started with cache `c0` and followed by `events`. */
  function Wait(c0: Cache, uri: DocumentUri, events: seq<Event>): WaitResult {
    ResultOf(c0, uri, events, AwaitFrom(uri, events, 0))
  }

  /** The URIs published by the events from `lo` up to, not including, `hi`. */
  function PublishedIn(events: seq<Event>, lo: nat, hi: nat): set<DocumentUri>
    requires lo <= hi <= |events|
  {
    set j | lo <= j < hi && events[j].Publish? :: events[j].uri
  }

  /** PublishedIn grows by the URI of each publication. */
  lemma PublishedInStep(events: seq<Event>, lo: nat, hi: nat)
    requires lo <= hi < |events|
    ensures PublishedIn(events, lo, hi + 1) ==
      PublishedIn(events, lo, hi) + (if events[hi].Publish? then {events[hi].uri} else {})
  {
  }

  /** PublishedIn over two adjacent stretches of events. */
  lemma PublishedInSplit(events: seq<Event>, lo: nat, mid: nat, hi: nat)
    requires lo <= mid <= hi <= |events|
    ensures PublishedIn(events, lo, mid) + PublishedIn(events, mid, hi) == PublishedIn(events, lo, hi)
  {
  }

  /** The index of the last notification of `uri` among the first `k` events. */
  function LastNotification(events: seq<Event>, k: nat, uri: DocumentUri): (r: Option<nat>)
    requires k <= |events|
    ensures r.Some? ==> r.value < k && Notifies(events[r.value], uri)
    ensures r.Some? ==> forall m :: r.value < m < k ==> !Notifies(events[m], uri)
    ensures r.None? ==> forall m :: 0 <= m < k ==> !Notifies(events[m], uri)
    decreases k
  {
    if k == 0 then None
    else if Notifies(events[k - 1], uri) then Some(k - 1)
    else LastNotification(events, k - 1, uri)
  }

  // ---------------------------------------------------------------------------
  // The cache

  /** The cache of a URI holds the diagnostics of its last publication, or what
      it held before if there was none (publications of other URIs do not touch it). */
  lemma {:induction false} CacheHoldsLastPublication(c0: Cache, events: seq<Event>, k: nat, uri: DocumentUri)
    requires k <= |events|
    ensures CachedOf(CacheAt(c0, events, k), uri) ==
      match LastNotification(events, k, uri)
      case None => CachedOf(c0, uri)
      case Some(j) => events[j].diagnostics
  {
    if k > 0 {
      CacheHoldsLastPublication(c0, events, k - 1, uri);
    }
  }

  // ---------------------------------------------------------------------------
  // How a call ends

  /** The settle loop ends only at an expiry of the settle timer (no error) or
      at a cancellation (its error). */
  lemma {:induction false} SettleEndsAtTimerOrCancel(uri: DocumentUri, events: seq<Event>, i: nat)
    ensures var x := SettleFrom(uri, events, i);
      x.Stopped? ==> events[x.at] == (if x.err.Some? then Cancel(x.err.value) else TimerExpire)
    decreases |events| - i
  {
    if i < |events| && (events[i].Publish? || events[i].Timeout?) {
      SettleEndsAtTimerOrCancel(uri, events, i + 1);
    }
  }

  /** The first phase ends only at the caller's timeout (no error) or at a
      cancellation (its error), and only while no notification of `uri` has
      arrived; once one has, the call is in the settle loop, which ends as above. */
  lemma {:induction false} AwaitEnds(uri: DocumentUri, events: seq<Event>, i: nat)
    ensures var x := AwaitFrom(uri, events, i);
      && (x.Stopped? && !x.settled ==>
            && events[x.at] == (if x.err.Some? then Cancel(x.err.value) else Timeout)
            && forall j :: i <= j < x.at ==> !Notifies(events[j], uri))
      && (x.Stopped? && x.settled ==>
            && events[x.at] == (if x.err.Some? then Cancel(x.err.value) else TimerExpire)
            && exists j :: i <= j < x.at && Notifies(events[j], uri))
    decreases |events| - i
  {
    if i < |events| {
      match events[i]
      case Publish(u, _) =>
        if u == uri {
          SettleEndsAtTimerOrCancel(uri, events, i + 1);
          assert Notifies(events[i], uri);
        } else {
          AwaitEnds(uri, events, i + 1);
        }
      case TimerExpire =>
        AwaitEnds(uri, events, i + 1);
      case Timeout =>
      case Cancel(_) =>
    }
  }

  // ---------------------------------------------------------------------------
  // What a call returns

  /** A call that ends in the first phase (cancellation or timeout) returns the
      cache contents as they were when it started, with the cancellation error
      or with no error on timeout. */
  lemma FirstPhaseReturnsCache(c0: Cache, uri: DocumentUri, events: seq<Event>)
    requires AwaitFrom(uri, events, 0).Stopped? && !AwaitFrom(uri, events, 0).settled
    ensures var x := AwaitFrom(uri, events, 0);
      && Wait(c0, uri, events) == Returned(CachedOf(c0, uri), x.err)
      && (x.err.Some? <==> events[x.at].Cancel?)
  {
    var x := AwaitFrom(uri, events, 0);
    AwaitEnds(uri, events, 0);
    CacheHoldsLastPublication(c0, events, x.at, uri);
    assert LastNotification(events, x.at, uri).None?;
  }

  /** A call that reaches the settle loop returns the diagnostics of the last
      round published for `uri` before it ended, never a set cached before the
      call had seen a notification; the error is the cancellation's, or none when
      the settle timer expired. */
  lemma SettledReturnsLastRound(c0: Cache, uri: DocumentUri, events: seq<Event>)
    requires AwaitFrom(uri, events, 0).Stopped? && AwaitFrom(uri, events, 0).settled
    ensures var x := AwaitFrom(uri, events, 0);
      var last := LastNotification(events, x.at, uri);
      && last.Some?
      && Wait(c0, uri, events) == Returned(events[last.value].diagnostics, x.err)
      && (x.err.Some? <==> events[x.at].Cancel?)
  {
    var x := AwaitFrom(uri, events, 0);
    AwaitEnds(uri, events, 0);
    CacheHoldsLastPublication(c0, events, x.at, uri);
    var j :| 0 <= j < x.at && Notifies(events[j], uri);
    assert LastNotification(events, x.at, uri).Some?;
  }

  /** A call returns only at a timeout, an expiry of the settle timer or a
      cancellation, never at a publication. */
  lemma ReturnsOnlyAtTimeoutTimerOrCancel(uri: DocumentUri, events: seq<Event>)
    ensures var x := AwaitFrom(uri, events, 0);
      x.Stopped? ==> !events[x.at].Publish?
  {
    AwaitEnds(uri, events, 0);
  }

  // ---------------------------------------------------------------------------
  // The scenarios of diagnostic_waiters_test.go

  /** Two rounds, then quiet: the second, complete round is returned. */
  lemma SettlesOnSecondRound(uri: DocumentUri)
    ensures var e1, w1 := Diagnostic("error 1"), Diagnostic("warning 1");
      Wait(map[], uri, [Publish(uri, [e1]), Publish(uri, [e1, w1]), TimerExpire]) == Returned([e1, w1], None)
  {
    var e1, w1 := Diagnostic("error 1"), Diagnostic("warning 1");
    var events := [Publish(uri, [e1]), Publish(uri, [e1, w1]), TimerExpire];
    assert SettleFrom(uri, events, 1) == SettleFrom(uri, events, 2) == Stopped(2, None, true);
    assert CacheAt(map[], events, 2) == map[uri := [e1, w1]];
  }

  /** Stale cached data is not returned: the call waits for the notification. */
  lemma WaitsPastStaleCache(uri: DocumentUri)
    ensures var staleDiag, freshDiag := Diagnostic("stale"), Diagnostic("fresh");
      Wait(map[uri := [staleDiag]], uri, [Publish(uri, [freshDiag]), TimerExpire]) == Returned([freshDiag], None)
  {
  }

  /** A context deadline before any publication: empty diagnostics and the deadline error. */
  lemma CancelBeforeAnyPublication(uri: DocumentUri)
    ensures Wait(map[], uri, [Cancel(DeadlineExceeded)]) == Returned([], Some(DeadlineExceeded))
  {
  }

  /** The caller's timeout before any publication: empty diagnostics and no error. */
  lemma TimeoutBeforeAnyPublication(uri: DocumentUri)
    ensures Wait(map[], uri, [Timeout]) == Returned([], None)
  {
  }
}
