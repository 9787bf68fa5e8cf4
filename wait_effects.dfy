/** What a call of WaitForDiagnostics does to the waiter registry, stated as
    functions of the registry it starts from and of the events it observes,
    and what those functions are proved to leave behind: the entries the
    publications cleared, exactly the waiters they held plus the call's own
    fired, and none of the call's waiters still registered once it returns. */
module WaitEffects {
  import opened Protocol
  import opened WaiterRegistry
  import opened WaitSpec

  /** The registry after the settle loop has run from event `i` on, with its
      waiter `ch` registered for `uri`: a publication notifies its URI, and when
      that closed `ch` a fresh waiter is registered for the next round
      (diagnostic_waiters.go, lines 63-76); the settle timer and cancellation
      remove the waiter (lines 77-82). */
  ghost function SettleRun(st: State, uri: DocumentUri, ch: WaiterId, events: seq<Event>, i: nat): State
    decreases |events| - i
  {
    if i >= |events| then st
    else match events[i]
      case Publish(u, _) =>
        if u == uri then SettleRun(Register(Notify(st, u), uri), uri, st.next, events, i + 1)
        else SettleRun(Notify(st, u), uri, ch, events, i + 1)
      case Timeout => SettleRun(st, uri, ch, events, i + 1)
      case TimerExpire => Remove(st, uri, ch)
      case Cancel(_) => Remove(st, uri, ch)
  }

  /** The registry after the first select has run from event `i` on, with the
      call's waiter `ch` registered for `uri` (lines 43-52).  After a
      settleDiagnostics that returned, the deferred removeWaiter of the
      first waiter runs (line 41). */
  ghost function AwaitRun(st: State, uri: DocumentUri, ch: WaiterId, events: seq<Event>, i: nat): State
    decreases |events| - i
  {
    if i >= |events| then st
    else match events[i]
      case Publish(u, _) =>
        if u == uri then
          var settled := SettleRun(Register(Notify(st, u), uri), uri, st.next, events, i + 1);
          if SettleFrom(uri, events, i + 1).Stopped? then Remove(settled, uri, ch) else settled
        else AwaitRun(Notify(st, u), uri, ch, events, i + 1)
      case TimerExpire => AwaitRun(st, uri, ch, events, i + 1)
      case Timeout => Remove(st, uri, ch)
      case Cancel(_) => Remove(st, uri, ch)
  }

  /** The registry after WaitForDiagnostics(uri), started on `st`, has seen `events`. */
  ghost function WaitRun(st: State, uri: DocumentUri, events: seq<Event>): State {
    AwaitRun(Register(st, uri), uri, st.next, events, 0)
  }

  /** The settle loop, from a registry in which the call waits, either leaves
      (its waiter removed, the notified entries cleared, exactly their waiters
      and the call's own fired) or is still waiting with its newest waiter.
      The run `r` and the exit `x` are passed in so that the induction
      hypothesis is the conclusion itself. */
  lemma {:induction false} SettleRunEffect(now: State, st0: State, uri: DocumentUri, ch: WaiterId, events: seq<Event>, start: nat, i: nat, r: State, x: Exit)
    requires Valid(st0) && start <= i <= |events|
    requires Waiting(now, st0, PublishedIn(events, start, i), uri, ch)
    requires r == SettleRun(now, uri, ch, events, i) && x == SettleFrom(uri, events, i)
    ensures now.next <= r.next
    ensures x.Stopped? ==> Left(r, st0, PublishedIn(events, start, x.at + 1), r.next - 1)
    ensures x.Blocked? ==> Waiting(r, st0, PublishedIn(events, start, |events|), uri, r.next - 1)
    decreases |events| - i, 1
  {
    if i == |events| {
      WaitingIsRegistered(now, st0, PublishedIn(events, start, i), uri, ch);
    } else if events[i].TimerExpire? || events[i].Cancel? {
      LeaveStep(now, st0, uri, ch, events, start, i);
    } else {
      SettleGoesOn(now, st0, uri, ch, events, start, i, r, x);
    }
  }

  /** The settle loop at an event that does not end it. */
  lemma {:induction false} SettleGoesOn(now: State, st0: State, uri: DocumentUri, ch: WaiterId, events: seq<Event>, start: nat, i: nat, r: State, x: Exit)
    requires Valid(st0) && start <= i < |events| && (events[i].Publish? || events[i].Timeout?)
    requires Waiting(now, st0, PublishedIn(events, start, i), uri, ch)
    requires r == SettleRun(now, uri, ch, events, i) && x == SettleFrom(uri, events, i)
    ensures now.next <= r.next
    ensures x.Stopped? ==> Left(r, st0, PublishedIn(events, start, x.at + 1), r.next - 1)
    ensures x.Blocked? ==> Waiting(r, st0, PublishedIn(events, start, |events|), uri, r.next - 1)
    decreases |events| - i, 0
  {
    match events[i]
    case Publish(u, _) =>
      if u == uri {
        OwnPublicationStep(now, st0, uri, ch, events, start, i);
        SettleRunEffect(Register(Notify(now, u), uri), st0, uri, now.next, events, start, i + 1, r, x);
      } else {
        OtherPublicationStep(now, st0, uri, ch, events, start, i);
        SettleRunEffect(Notify(now, u), st0, uri, ch, events, start, i + 1, r, x);
      }
    case Timeout =>
      QuietStep(now, st0, uri, ch, events, start, i);
      SettleRunEffect(now, st0, uri, ch, events, start, i + 1, r, x);
  }

  /** A notification of the call's URI at event `i` fires its waiter, and the
      settle loop waits again with a fresh one. */
  lemma OwnPublicationStep(now: State, st0: State, uri: DocumentUri, ch: WaiterId, events: seq<Event>, start: nat, i: nat)
    requires Valid(st0) && start <= i < |events| && events[i].Publish? && events[i].uri == uri
    requires Waiting(now, st0, PublishedIn(events, start, i), uri, ch)
    ensures Waiting(Register(Notify(now, uri), uri), st0, PublishedIn(events, start, i + 1), uri, now.next)
  {
    var published := PublishedIn(events, start, i);
    PublishedInStep(events, start, i);
    PublishOwnWhileWaiting(now, st0, published, uri, ch);
    RegisterAgain(Notify(now, uri), st0, published + {uri}, uri);
  }

  /** A notification of another URI at event `i` leaves the call waiting. */
  lemma OtherPublicationStep(now: State, st0: State, uri: DocumentUri, ch: WaiterId, events: seq<Event>, start: nat, i: nat)
    requires Valid(st0) && start <= i < |events| && events[i].Publish? && events[i].uri != uri
    requires Waiting(now, st0, PublishedIn(events, start, i), uri, ch)
    ensures Waiting(Notify(now, events[i].uri), st0, PublishedIn(events, start, i + 1), uri, ch)
  {
    PublishedInStep(events, start, i);
    PublishOtherWhileWaiting(now, st0, PublishedIn(events, start, i), uri, ch, events[i].uri);
  }

  /** An event that is not a publication and does not end the phase leaves
      the call waiting. */
  lemma QuietStep(now: State, st0: State, uri: DocumentUri, ch: WaiterId, events: seq<Event>, start: nat, i: nat)
    requires start <= i < |events| && !events[i].Publish?
    requires Waiting(now, st0, PublishedIn(events, start, i), uri, ch)
    ensures Waiting(now, st0, PublishedIn(events, start, i + 1), uri, ch)
  {
    PublishedInStep(events, start, i);
  }

  /** An event at `i` that ends the phase removes the call's waiter. */
  lemma LeaveStep(now: State, st0: State, uri: DocumentUri, ch: WaiterId, events: seq<Event>, start: nat, i: nat)
    requires Valid(st0) && start <= i < |events| && !events[i].Publish?
    requires Waiting(now, st0, PublishedIn(events, start, i), uri, ch)
    ensures var r := Remove(now, uri, ch);
      Left(r, st0, PublishedIn(events, start, i + 1), r.next - 1)
  {
    PublishedInStep(events, start, i);
    DeregisterWhileWaiting(now, st0, PublishedIn(events, start, i), uri, ch);
  }

  /** The first select, likewise; as long as it is blocked, its first waiter
      is registered. */
  lemma {:induction false} AwaitRunEffect(now: State, st0: State, uri: DocumentUri, events: seq<Event>, i: nat, r: State, x: Exit)
    requires Valid(st0) && i <= |events|
    requires Waiting(now, st0, PublishedIn(events, 0, i), uri, st0.next)
    requires r == AwaitRun(now, uri, st0.next, events, i) && x == AwaitFrom(uri, events, i)
    ensures now.next <= r.next
    ensures x.Stopped? ==> Left(r, st0, PublishedIn(events, 0, x.at + 1), r.next - 1)
    ensures x.Blocked? ==> r.next - 1 in WaitersOf(r.waiters, uri)
    decreases |events| - i, 1
  {
    if i == |events| {
      WaitingIsRegistered(now, st0, PublishedIn(events, 0, i), uri, st0.next);
    } else if events[i].Timeout? || events[i].Cancel? {
      LeaveStep(now, st0, uri, st0.next, events, 0, i);
    } else if events[i].Publish? && events[i].uri == uri {
      SettleAfterFirstRound(now, st0, uri, events, i, r, x);
    } else {
      AwaitGoesOn(now, st0, uri, events, i, r, x);
    }
  }

  /** The first select at an event that does not concern it. */
  lemma {:induction false} AwaitGoesOn(now: State, st0: State, uri: DocumentUri, events: seq<Event>, i: nat, r: State, x: Exit)
    requires Valid(st0) && i < |events| && ((events[i].Publish? && events[i].uri != uri) || events[i].TimerExpire?)
    requires Waiting(now, st0, PublishedIn(events, 0, i), uri, st0.next)
    requires r == AwaitRun(now, uri, st0.next, events, i) && x == AwaitFrom(uri, events, i)
    ensures now.next <= r.next
    ensures x.Stopped? ==> Left(r, st0, PublishedIn(events, 0, x.at + 1), r.next - 1)
    ensures x.Blocked? ==> r.next - 1 in WaitersOf(r.waiters, uri)
    decreases |events| - i, 0
  {
    if events[i].Publish? {
      OtherPublicationStep(now, st0, uri, st0.next, events, 0, i);
      AwaitRunEffect(Notify(now, events[i].uri), st0, uri, events, i + 1, r, x);
    } else {
      QuietStep(now, st0, uri, st0.next, events, 0, i);
      AwaitRunEffect(now, st0, uri, events, i + 1, r, x);
    }
  }

  /** The first notification of the call's URI, at event `i`, hands over to
      the settle loop. */
  lemma SettleAfterFirstRound(now: State, st0: State, uri: DocumentUri, events: seq<Event>, i: nat, r: State, x: Exit)
    requires Valid(st0) && i < |events| && events[i].Publish? && events[i].uri == uri
    requires Waiting(now, st0, PublishedIn(events, 0, i), uri, st0.next)
    requires r == AwaitRun(now, uri, st0.next, events, i) && x == AwaitFrom(uri, events, i)
    ensures now.next <= r.next
    ensures x.Stopped? ==> Left(r, st0, PublishedIn(events, 0, x.at + 1), r.next - 1)
    ensures x.Blocked? ==> r.next - 1 in WaitersOf(r.waiters, uri)
  {
    var mid := Notify(now, uri);
    assert x == SettleFrom(uri, events, i + 1);
    var settled := SettleRun(Register(mid, uri), uri, mid.next, events, i + 1);
    assert r == if x.Stopped? then Remove(settled, uri, st0.next) else settled;
    FirstRound(now, st0, uri, events, i, mid);
    SettleFromFirstRound(st0, mid, uri, events, i, r, x);
  }

  /** The notification that ends the first phase fires the call's first
      waiter and clears the entry of its URI. */
  lemma FirstRound(now: State, st0: State, uri: DocumentUri, events: seq<Event>, i: nat, mid: State)
    requires Valid(st0) && i < |events| && events[i].Publish? && events[i].uri == uri
    requires Waiting(now, st0, PublishedIn(events, 0, i), uri, st0.next)
    requires mid == Notify(now, uri)
    ensures Valid(mid) && st0.next < mid.next && mid.next == now.next
    ensures Left(mid, st0, PublishedIn(events, 0, i + 1), mid.next)
  {
    var published := PublishedIn(events, 0, i);
    PublishedInStep(events, 0, i);
    PublishOwnWhileWaiting(now, st0, published, uri, st0.next);
    LeftIsValid(mid, st0, published + {uri}, mid.next);
  }

  /** The settle loop started on `mid` after the first round; once it has
      left, the deferred removal of the first waiter finds nothing to remove. */
  lemma SettleFromFirstRound(st0: State, mid: State, uri: DocumentUri, events: seq<Event>, i: nat, r: State, x: Exit)
    requires Valid(st0) && Valid(mid) && i < |events| && st0.next < mid.next
    requires Left(mid, st0, PublishedIn(events, 0, i + 1), mid.next)
    requires x == SettleFrom(uri, events, i + 1)
    requires r == var settled := SettleRun(Register(mid, uri), uri, mid.next, events, i + 1);
      if x.Stopped? then Remove(settled, uri, st0.next) else settled
    ensures mid.next <= r.next
    ensures x.Stopped? ==> Left(r, st0, PublishedIn(events, 0, x.at + 1), r.next - 1)
    ensures x.Blocked? ==> r.next - 1 in WaitersOf(r.waiters, uri)
  {
    var settled := SettleRun(Register(mid, uri), uri, mid.next, events, i + 1);
    StartWaiting(mid, uri);
    assert PublishedIn(events, i + 1, i + 1) == {};
    SettleRunEffect(Register(mid, uri), mid, uri, mid.next, events, i + 1, i + 1, settled, x);
    if x.Stopped? {
      PublishedInSplit(events, 0, i + 1, x.at + 1);
      SettledLeaves(st0, mid, settled, uri, PublishedIn(events, 0, i + 1), PublishedIn(events, i + 1, x.at + 1), PublishedIn(events, 0, x.at + 1), r);
    } else {
      WaitingIsRegistered(settled, mid, PublishedIn(events, i + 1, |events|), uri, settled.next - 1);
    }
  }

  /** Once the settle loop has left, the first waiter is no longer
      registered, so removing it leaves the registry as the loop left it. */
  lemma SettledLeaves(st0: State, mid: State, settled: State, uri: DocumentUri, p1: set<DocumentUri>, p2: set<DocumentUri>, p: set<DocumentUri>, r: State)
    requires Valid(st0) && Left(mid, st0, p1, mid.next) && st0.next < mid.next && p == p1 + p2
    requires Left(settled, mid, p2, settled.next - 1) && mid.next < settled.next
    requires r == Remove(settled, uri, st0.next)
    ensures Left(r, st0, p, r.next - 1)
  {
    WaitThenSettle(st0, p1, mid, p2, settled);
    LeftIsValid(settled, st0, p1 + p2, settled.next - 1);
    LeftHoldsOnlyOlder(settled, st0, p1 + p2, settled.next - 1);
    RemoveAbsentIsNoop(settled, uri, st0.next);
  }

  /** What WaitForDiagnostics leaves in the registry.  Every exit path
      deregisters the call's waiters: when the call has returned, the invariant
      holds, the registry is the one it started from without the entries of
      the published URIs, the waiters fired are those entries' and the call's
      own, and the registry holds only handles older than the call.  A call
      still waiting has its newest waiter registered for its URI. */
  lemma WaitRunEffect(st: State, uri: DocumentUri, events: seq<Event>)
    requires Valid(st)
    ensures st.next < WaitRun(st, uri, events).next
    ensures var r := WaitRun(st, uri, events); var x := AwaitFrom(uri, events, 0);
      x.Stopped? ==>
        var published := PublishedIn(events, 0, x.at + 1);
        && Valid(r)
        && r.waiters == st.waiters - published
        && r.fired == st.fired + NotifiedBy(st.waiters, published) + Between(st.next, r.next - 1)
        && forall u, w :: u in r.waiters && w in r.waiters[u] ==> w < st.next
    ensures var r := WaitRun(st, uri, events);
      AwaitFrom(uri, events, 0).Blocked? ==> r.next - 1 in WaitersOf(r.waiters, uri)
  {
    WaitRunEffectOn(st, uri, events, WaitRun(st, uri, events), AwaitFrom(uri, events, 0));
  }

  /** WaitRunEffect, on the run `r` and the exit `x` of the call. */
  lemma WaitRunEffectOn(st: State, uri: DocumentUri, events: seq<Event>, r: State, x: Exit)
    requires Valid(st) && r == WaitRun(st, uri, events) && x == AwaitFrom(uri, events, 0)
    ensures st.next < r.next
    ensures x.Stopped? ==>
      && Valid(r)
      && Left(r, st, PublishedIn(events, 0, x.at + 1), r.next - 1)
      && forall u, w :: u in r.waiters && w in r.waiters[u] ==> w < st.next
    ensures x.Blocked? ==> r.next - 1 in WaitersOf(r.waiters, uri)
  {
    StartWaiting(st, uri);
    assert PublishedIn(events, 0, 0) == {};
    AwaitRunEffect(Register(st, uri), st, uri, events, 0, r, x);
    if x.Stopped? {
      LeftAfterReturn(st, r, PublishedIn(events, 0, x.at + 1));
    }
  }

  /** A registry that the call has left holds a valid registry of older handles only. */
  lemma LeftAfterReturn(st: State, r: State, published: set<DocumentUri>)
    requires Valid(st) && st.next < r.next && Left(r, st, published, r.next - 1)
    ensures Valid(r)
    ensures forall u, w :: u in r.waiters && w in r.waiters[u] ==> w < st.next
  {
    LeftIsValid(r, st, published, r.next - 1);
    LeftHoldsOnlyOlder(r, st, published, r.next - 1);
  }
}
