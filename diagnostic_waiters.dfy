/** The LSP client's diagnostic waiters (internal/lsp/diagnostic_waiters.go):
    callers block in WaitForDiagnostics until the diagnostics of a document
    have settled, woken by notifyDiagnosticWaiters whenever a round of
    diagnostics is published.  Each lock-guarded critical section of the Go
    code is one method here; the goroutines and real time around them are
    replaced by the sequence of events a call observes (see module WaitSpec). */
module DiagnosticWaiters {
  import opened Wrappers
  import opened Protocol
  import opened WaiterRegistry
  import opened WaitSpec
  import opened WaitEffects

  class Client {
    /** `diagnosticWaiters`: the registered waiters of every URI. */
    var diagnosticWaiters: Registry
    /** The waiters fired so far, that is, the channels already closed. */
    var fired: set<WaiterId>
    /** The handle the next `make(chan struct{})` yields. */
    var nextWaiter: WaiterId
    /** `diagnostics`: the last published diagnostics of every URI. */
    var diagnostics: Cache

    /** The registry invariant of module WaiterRegistry, on the client's fields. */
    ghost predicate Valid()
      reads this
    {
      WaiterRegistry.Valid(State(diagnosticWaiters, fired, nextWaiter))
    }

    /** A client with no waiters and an empty cache (as `newTestClient` makes one). */
    constructor ()
      ensures Valid()
      ensures diagnosticWaiters == map[] && fired == {} && diagnostics == map[]
    {
      diagnosticWaiters := map[];
      fired := {};
      nextWaiter := 0;
      diagnostics := map[];
    }

    /** GetFileDiagnostics: the cached diagnostics of `uri`, empty if none were published. */
    function GetFileDiagnostics(uri: DocumentUri): seq<Diagnostic>
      reads this
    {
      CachedOf(diagnostics, uri)
    }

    /** Store a published set, replacing what was cached for `uri`. */
    method SetDiagnostics(uri: DocumentUri, diags: seq<Diagnostic>)
      modifies this`diagnostics
      ensures diagnostics == old(diagnostics)[uri := diags]
    {
      diagnostics := diagnostics[uri := diags];
    }

    /** Make a channel and append it to the waiters of `uri`
        (diagnostic_waiters.go, lines 33-38 and 64-67). */
    method AddWaiter(uri: DocumentUri) returns (ch: WaiterId)
      requires Valid()
      modifies this`diagnosticWaiters, this`nextWaiter
      ensures Valid()
      ensures ch == old(nextWaiter) && ch !in fired
      ensures State(diagnosticWaiters, fired, nextWaiter) == Register(old(State(diagnosticWaiters, fired, nextWaiter)), uri)
    {
      RegisterKeepsValid(State(diagnosticWaiters, fired, nextWaiter), uri);
      ch := nextWaiter;
      nextWaiter := nextWaiter + 1;
      diagnosticWaiters := diagnosticWaiters[uri := WaitersOf(diagnosticWaiters, uri) + [ch]];
    }

    /** notifyDiagnosticWaiters: close every waiter channel of `uri`, then
        delete its entry.  No channel is closed twice. */
    method NotifyDiagnosticWaiters(uri: DocumentUri)
      requires Valid()
      modifies this`diagnosticWaiters, this`fired
      ensures Valid()
      ensures State(diagnosticWaiters, fired, nextWaiter) == Notify(old(State(diagnosticWaiters, fired, nextWaiter)), uri)
    {
      ghost var st := State(diagnosticWaiters, fired, nextWaiter);
      var ws := WaitersOf(diagnosticWaiters, uri);
      assert NoDuplicates(ws) && forall w :: w in ws ==> w !in fired;
      for k := 0 to |ws|
        invariant fired == st.fired + Elements(ws[..k])
        invariant diagnosticWaiters == st.waiters
      {
        // closing a closed channel would panic: the registry holds only unfired, distinct waiters
        assert ws[k] !in fired by {
          assert ws[k] in ws;
          forall j | 0 <= j < k ensures ws[..k][j] != ws[k] {
            assert ws[..k][j] == ws[j];
            DistinctAt(ws, j, k);
          }
        }
        assert ws[..k + 1] == ws[..k] + [ws[k]];
        fired := fired + {ws[k]};
      }
      assert ws[..|ws|] == ws;
      diagnosticWaiters := diagnosticWaiters - {uri};
      NotifyKeepsValid(st, uri);
    }

    /** removeWaiter: remove the first occurrence of `ch` from the waiters of
        `uri`, and delete the entry if none is left. */
    method RemoveWaiter(uri: DocumentUri, ch: WaiterId)
      requires Valid()
      modifies this`diagnosticWaiters
      ensures Valid()
      ensures State(diagnosticWaiters, fired, nextWaiter) == Remove(old(State(diagnosticWaiters, fired, nextWaiter)), uri, ch)
    {
      ghost var st := State(diagnosticWaiters, fired, nextWaiter);
      var waiters := WaitersOf(diagnosticWaiters, uri);
      var i := 0;
      while i < |waiters|
        invariant 0 <= i <= |waiters|
        invariant forall j :: 0 <= j < i ==> waiters[j] != ch
        invariant diagnosticWaiters == st.waiters
      {
        if waiters[i] == ch {
          RemoveFirstAt(waiters, ch, i);
          diagnosticWaiters := diagnosticWaiters[uri := waiters[..i] + waiters[i + 1..]];
          break;
        }
        i := i + 1;
      }
      if i == |waiters| {
        RemoveFirstAbsent(waiters, ch);
      }
      if |WaitersOf(diagnosticWaiters, uri)| == 0 {
        diagnosticWaiters := diagnosticWaiters - {uri};
      }
      assert State(diagnosticWaiters, fired, nextWaiter) == Remove(st, uri, ch);
      RemoveKeepsValid(st, uri, ch);
    }

    /** A publishDiagnostics notification: update the cache first, then wake
        the waiters, so that every woken waiter sees the new set. */
    method PublishDiagnostics(uri: DocumentUri, diags: seq<Diagnostic>)
      requires Valid()
      modifies this`diagnostics, this`diagnosticWaiters, this`fired
      ensures Valid()
      ensures diagnostics == old(diagnostics)[uri := diags]
      ensures State(diagnosticWaiters, fired, nextWaiter) == Notify(old(State(diagnosticWaiters, fired, nextWaiter)), uri)
    {
      SetDiagnostics(uri, diags);
      NotifyDiagnosticWaiters(uri);
    }

    /** WaitForDiagnostics(uri) while `events` happen (diagnostic_waiters.go,
        lines 32-53).  The answer is the one WaitSpec.Wait describes, read from
        the cache as it is when the call returns; the registry goes through
        WaitRun, so by WaitRunEffect a call that has returned has deregistered
        every waiter it made. */
    method WaitForDiagnostics(uri: DocumentUri, events: seq<Event>) returns (res: WaitResult)
      requires Valid()
      modifies this
      ensures Valid()
      ensures res == Wait(old(diagnostics), uri, events)
      ensures diagnostics == CacheAt(old(diagnostics), events, Consumed(AwaitFrom(uri, events, 0), |events|))
      ensures res.Returned? ==> res.diagnostics == GetFileDiagnostics(uri)
      ensures State(diagnosticWaiters, fired, nextWaiter) == WaitRun(old(State(diagnosticWaiters, fired, nextWaiter)), uri, events)
    {
      ghost var c0, st0 := diagnostics, State(diagnosticWaiters, fired, nextWaiter);
      ghost var x, target := AwaitFrom(uri, events, 0), WaitRun(st0, uri, events);
      // register a waiter; the deferred removeWaiter runs when the call returns
      var ch := AddWaiter(uri);
      var i := 0;
      while i < |events|
        invariant 0 <= i <= |events|
        invariant Valid() && ch in WaitersOf(diagnosticWaiters, uri)
        invariant x == AwaitFrom(uri, events, i)
        invariant diagnostics == CacheAt(c0, events, i)
        invariant target == AwaitRun(State(diagnosticWaiters, fired, nextWaiter), uri, ch, events, i)
        decreases |events| - i
      {
        var done;
        done, res := AwaitTurn(uri, events, i, ch, c0, x, target);
        if done {
          return;
        }
        i := i + 1;
      }
      res := StillWaiting;
    }

    /** One turn of the select of WaitForDiagnostics, at event `i`, with the
        call's waiter `ch` registered, in a call that ends as `x` and leaves
        the registry `target`: the notification of `uri` closes it and
        the call returns what settleDiagnostics returns, after removing `ch`
        (lines 45-47 and 41); cancellation and the caller's timeout answer the
        cache as it is and remove `ch` (lines 48-51); notifications of other
        URIs and the settle timer, which has not started, leave it waiting. */
    method AwaitTurn(uri: DocumentUri, events: seq<Event>, i: nat, ch: WaiterId, ghost c0: Cache, ghost x: Exit, ghost target: State)
      returns (done: bool, res: WaitResult)
      requires Valid() && i < |events| && ch in WaitersOf(diagnosticWaiters, uri)
      requires diagnostics == CacheAt(c0, events, i)
      requires x == AwaitFrom(uri, events, i) && target == AwaitRun(State(diagnosticWaiters, fired, nextWaiter), uri, ch, events, i)
      modifies this
      ensures Valid()
      ensures !done ==>
        && x == AwaitFrom(uri, events, i + 1)
        && diagnostics == CacheAt(c0, events, i + 1)
        && ch in WaitersOf(diagnosticWaiters, uri)
        && target == AwaitRun(State(diagnosticWaiters, fired, nextWaiter), uri, ch, events, i + 1)
      ensures done ==>
        && res == ResultOf(c0, uri, events, x)
        && diagnostics == CacheAt(c0, events, Consumed(x, |events|))
        && (res.Returned? ==> res.diagnostics == GetFileDiagnostics(uri))
        && State(diagnosticWaiters, fired, nextWaiter) == target
    {
      done, res := false, StillWaiting;
      match events[i] {
      case Publish(u, diags) =>
        done, res := AwaitPublication(uri, events, i, ch, c0, x, target);
      case Cancel(e) =>
        ghost var w := State(diagnosticWaiters, fired, nextWaiter);
        assert AwaitFrom(uri, events, i) == Stopped(i, Some(e), false);
        assert AwaitRun(w, uri, ch, events, i) == Remove(w, uri, ch);
        assert CacheAt(c0, events, i + 1) == diagnostics;
        done, res := true, Returned(GetFileDiagnostics(uri), Some(e));
        RemoveWaiter(uri, ch);
      case Timeout =>
        ghost var w := State(diagnosticWaiters, fired, nextWaiter);
        assert AwaitFrom(uri, events, i) == Stopped(i, None, false);
        assert AwaitRun(w, uri, ch, events, i) == Remove(w, uri, ch);
        assert CacheAt(c0, events, i + 1) == diagnostics;
        done, res := true, Returned(GetFileDiagnostics(uri), None);
        RemoveWaiter(uri, ch);
      case TimerExpire =>
        assert AwaitFrom(uri, events, i) == AwaitFrom(uri, events, i + 1);
        assert AwaitRun(State(diagnosticWaiters, fired, nextWaiter), uri, ch, events, i) == AwaitRun(State(diagnosticWaiters, fired, nextWaiter), uri, ch, events, i + 1);
        assert CacheAt(c0, events, i + 1) == diagnostics;
      }
    }

    /** The first select at a publication (lines 44-47): the notification
        closes `ch` exactly when it is for `uri`, and then the call settles. */
    method AwaitPublication(uri: DocumentUri, events: seq<Event>, i: nat, ch: WaiterId, ghost c0: Cache, ghost x: Exit, ghost target: State)
      returns (done: bool, res: WaitResult)
      requires Valid() && i < |events| && events[i].Publish? && ch in WaitersOf(diagnosticWaiters, uri)
      requires diagnostics == CacheAt(c0, events, i)
      requires x == AwaitFrom(uri, events, i) && target == AwaitRun(State(diagnosticWaiters, fired, nextWaiter), uri, ch, events, i)
      modifies this
      ensures Valid()
      ensures !done ==>
        && x == AwaitFrom(uri, events, i + 1)
        && diagnostics == CacheAt(c0, events, i + 1)
        && ch in WaitersOf(diagnosticWaiters, uri)
        && target == AwaitRun(State(diagnosticWaiters, fired, nextWaiter), uri, ch, events, i + 1)
      ensures done ==>
        && res == ResultOf(c0, uri, events, x)
        && diagnostics == CacheAt(c0, events, Consumed(x, |events|))
        && (res.Returned? ==> res.diagnostics == GetFileDiagnostics(uri))
        && State(diagnosticWaiters, fired, nextWaiter) == target
    {
      var u, diags := events[i].uri, events[i].diagnostics;
      ghost var w := State(diagnosticWaiters, fired, nextWaiter);
      assert CacheAt(c0, events, i + 1) == diagnostics[u := diags];
      if u == uri {
        assert AwaitFrom(uri, events, i) == SettleFrom(uri, events, i + 1);
        assert AwaitRun(w, uri, ch, events, i) ==
          var settled := SettleRun(Register(Notify(w, uri), uri), uri, w.next, events, i + 1);
          if SettleFrom(uri, events, i + 1).Stopped? then Remove(settled, uri, ch) else settled;
      } else {
        assert AwaitFrom(uri, events, i) == AwaitFrom(uri, events, i + 1);
        assert AwaitRun(w, uri, ch, events, i) == AwaitRun(Notify(w, u), uri, ch, events, i + 1);
      }
      NotifyFiresOwn(w, u, uri, ch);
      PublishDiagnostics(u, diags);
      done, res := false, StillWaiting;
      if ch in fired {
        // first notification received: settle to catch further rounds
        done := true;
        res := SettleThenLeave(uri, events, i + 1, ch, c0);
      }
    }

    /** `return c.settleDiagnostics(ctx, uri)` once the first waiter `ch`
        has fired, at event `start - 1`, followed by the deferred removal of
        `ch` when the settle loop returns (lines 41 and 47). */
    method SettleThenLeave(uri: DocumentUri, events: seq<Event>, start: nat, ch: WaiterId, ghost c0: Cache) returns (res: WaitResult)
      requires Valid() && start <= |events|
      requires diagnostics == CacheAt(c0, events, start)
      modifies this
      ensures Valid()
      ensures res == ResultOf(c0, uri, events, SettleFrom(uri, events, start))
      ensures diagnostics == CacheAt(c0, events, Consumed(SettleFrom(uri, events, start), |events|))
      ensures res.Returned? ==> res.diagnostics == GetFileDiagnostics(uri)
      ensures State(diagnosticWaiters, fired, nextWaiter) ==
        var settled := SettleRun(Register(old(State(diagnosticWaiters, fired, nextWaiter)), uri), uri, old(nextWaiter), events, start);
        if SettleFrom(uri, events, start).Stopped? then Remove(settled, uri, ch) else settled
    {
      res := SettleDiagnostics(uri, events, start, c0);
      if res.Returned? {
        RemoveWaiter(uri, ch);
      }
    }

    /** settleDiagnostics(uri) (lines 59-85), entered after event `start - 1`
        woke the first waiter; `c0` is the cache the events are applied to.
        Every notification of `uri` starts another round with a fresh waiter,
        and the expiry of the settle timer or a cancellation ends the call with
        the cache as it is then. */
    method SettleDiagnostics(uri: DocumentUri, events: seq<Event>, start: nat, ghost c0: Cache) returns (res: WaitResult)
      requires Valid()
      requires start <= |events|
      requires diagnostics == CacheAt(c0, events, start)
      modifies this
      ensures Valid()
      ensures res == ResultOf(c0, uri, events, SettleFrom(uri, events, start))
      ensures diagnostics == CacheAt(c0, events, Consumed(SettleFrom(uri, events, start), |events|))
      ensures res.Returned? ==> res.diagnostics == GetFileDiagnostics(uri)
      ensures State(diagnosticWaiters, fired, nextWaiter) == SettleRun(Register(old(State(diagnosticWaiters, fired, nextWaiter)), uri), uri, old(nextWaiter), events, start)
    {
      ghost var st0 := State(diagnosticWaiters, fired, nextWaiter);
      ghost var x, target := SettleFrom(uri, events, start), SettleRun(Register(st0, uri), uri, st0.next, events, start);
      var ch := AddWaiter(uri);
      var i := start;
      while i < |events|
        invariant start <= i <= |events|
        invariant Valid() && ch in WaitersOf(diagnosticWaiters, uri)
        invariant x == SettleFrom(uri, events, i)
        invariant diagnostics == CacheAt(c0, events, i)
        invariant target == SettleRun(State(diagnosticWaiters, fired, nextWaiter), uri, ch, events, i)
        decreases |events| - i
      {
        var done;
        done, ch, res := SettleTurn(uri, events, i, ch, c0, x, target);
        if done {
          return;
        }
        i := i + 1;
      }
      res := StillWaiting;
    }

    /** One turn of the settle loop, at event `i`, with the round's waiter
        `ch` registered, in a call that ends as `x` and leaves the registry
        `target`: a notification that closes `ch` starts the next round with a
        fresh waiter, returned as `next`, which is when the settle timer starts
        over (lines 64-76); the expiry of the timer or a cancellation removes
        `ch` and answers the cache as it is (lines 77-82); anything else leaves
        the round waiting. */
    method SettleTurn(uri: DocumentUri, events: seq<Event>, i: nat, ch: WaiterId, ghost c0: Cache, ghost x: Exit, ghost target: State)
      returns (done: bool, next: WaiterId, res: WaitResult)
      requires Valid() && i < |events| && ch in WaitersOf(diagnosticWaiters, uri)
      requires diagnostics == CacheAt(c0, events, i)
      requires x == SettleFrom(uri, events, i) && target == SettleRun(State(diagnosticWaiters, fired, nextWaiter), uri, ch, events, i)
      modifies this
      ensures Valid()
      ensures !done ==>
        && x == SettleFrom(uri, events, i + 1)
        && diagnostics == CacheAt(c0, events, i + 1)
        && next in WaitersOf(diagnosticWaiters, uri)
        && target == SettleRun(State(diagnosticWaiters, fired, nextWaiter), uri, next, events, i + 1)
      ensures done ==>
        && res == ResultOf(c0, uri, events, x)
        && diagnostics == CacheAt(c0, events, Consumed(x, |events|))
        && res.Returned? && res.diagnostics == GetFileDiagnostics(uri)
        && State(diagnosticWaiters, fired, nextWaiter) == target
    {
      done, next, res := false, ch, StillWaiting;
      match events[i] {
      case Publish(u, diags) =>
        NotifyFiresOwn(State(diagnosticWaiters, fired, nextWaiter), u, uri, ch);
        PublishDiagnostics(u, diags);
        if ch in fired {
          // a new round: a fresh waiter for it, and the settle timer starts over
          next := AddWaiter(uri);
        }
      case TimerExpire =>
        RemoveWaiter(uri, ch);
        done, res := true, Returned(GetFileDiagnostics(uri), None);
      case Cancel(e) =>
        RemoveWaiter(uri, ch);
        done, res := true, Returned(GetFileDiagnostics(uri), Some(e));
      case Timeout =>
      }
    }
  }
}
