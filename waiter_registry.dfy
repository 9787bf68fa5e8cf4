/** The waiter registry of the LSP client (`Client.diagnosticWaiters`), as a
    value: for every document URI the sequence of one-shot waiters that callers
    of WaitForDiagnostics have registered, together with the set of waiters
    already fired (closed channels) and the next fresh handle.  The class in
    module DiagnosticWaiters updates its fields exactly as these functions say. */
module WaiterRegistry {
  import opened Protocol

  /** A waiter handle.  Handles are numbered in creation order, so a number
      never handed out before stands for a freshly made channel. */
  type WaiterId = nat

  /** The `diagnosticWaiters` map. */
  type Registry = map<DocumentUri, seq<WaiterId>>

  /** The registered waiters of `uri`; a missing key reads as an empty slice. */
  function WaitersOf(r: Registry, uri: DocumentUri): seq<WaiterId> {
    if uri in r then r[uri] else []
  }

  /** Every handle occurs at most once in `s`. */
  ghost predicate NoDuplicates(s: seq<WaiterId>) {
    forall w :: multiset(s)[w] <= 1
  }

  function Elements(s: seq<WaiterId>): set<WaiterId> {
    set w | w in s
  }

  /** The registry together with the fired (closed) waiters and the next fresh handle. */
  datatype State = State(waiters: Registry, fired: set<WaiterId>, next: WaiterId)

  /** The registry invariant: no URI maps to an empty sequence, and every
      registered handle was handed out, is still unfired, and is held exactly
      once in the whole registry. */
  ghost predicate Valid(st: State) {
    && (forall u :: u in st.waiters ==> st.waiters[u] != [] && NoDuplicates(st.waiters[u]))
    && (forall u, w :: u in st.waiters && w in st.waiters[u] ==> w !in st.fired && w < st.next)
    && (forall u, v, w :: u in st.waiters && v in st.waiters && w in st.waiters[u] && w in st.waiters[v] ==> u == v)
    && (forall w :: w in st.fired ==> w < st.next)
  }

  /** The registry with `w` appended to the waiters of `uri`. */
  function WithWaiter(r: Registry, uri: DocumentUri, w: WaiterId): Registry {
    r[uri := WaitersOf(r, uri) + [w]]
  }

  /** Registering a waiter (diagnostic_waiters.go, lines 33-38 and 64-67):
      `st.next` is the new handle. */
  function Register(st: State, uri: DocumentUri): State {
    st.(waiters := WithWaiter(st.waiters, uri, st.next), next := st.next + 1)
  }

  /** notifyDiagnosticWaiters: close every waiter of `uri`, then delete the key. */
  function Notify(st: State, uri: DocumentUri): State {
    st.(waiters := st.waiters - {uri}, fired := st.fired + Elements(WaitersOf(st.waiters, uri)))
  }

  /** The sequence without its first occurrence of `w`. */
  function RemoveFirst(s: seq<WaiterId>, w: WaiterId): seq<WaiterId> {
    if s == [] then []
    else if s[0] == w then s[1..]
    else [s[0]] + RemoveFirst(s[1..], w)
  }

  /** removeWaiter: drop the first occurrence of `w` from the waiters of `uri`,
      and delete the key if no waiter is left. */
  function Remove(st: State, uri: DocumentUri, w: WaiterId): State {
    var rest := RemoveFirst(WaitersOf(st.waiters, uri), w);
    st.(waiters := if rest == [] then st.waiters - {uri} else st.waiters[uri := rest])
  }

  /** The handles from `lo` up to, not including, `hi`. */
  function Between(lo: nat, hi: int): (r: set<WaiterId>)
    ensures forall w :: w in r <==> lo <= w < hi
    decreases hi - lo
  {
    if hi <= lo then {} else Between(lo, hi - 1) + {hi - 1}
  }

  /** The waiters registered in `r` under some URI of `uris`. */
  function NotifiedBy(r: Registry, uris: set<DocumentUri>): set<WaiterId> {
    set u, w | u in r && u in uris && w in r[u] :: w
  }

  // ---------------------------------------------------------------------------
  // RemoveFirst

  /** RemoveFirst cuts out exactly the first occurrence and keeps the order of the rest. */
  lemma {:induction false} RemoveFirstAt(s: seq<WaiterId>, w: WaiterId, i: nat)
    requires i < |s| && s[i] == w
    requires forall j :: 0 <= j < i ==> s[j] != w
    ensures RemoveFirst(s, w) == s[..i] + s[i + 1..]
  {
    if i > 0 {
      RemoveFirstAt(s[1..], w, i - 1);
      assert s[1..][..i - 1] == s[1..i];
      assert s[1..][i..] == s[i + 1..];
      assert [s[0]] + s[1..i] == s[..i];
    }
  }

  /** Removing a handle that is not there leaves the sequence alone. */
  lemma {:induction false} RemoveFirstAbsent(s: seq<WaiterId>, w: WaiterId)
    requires w !in s
    ensures RemoveFirst(s, w) == s
  {
    if s != [] {
      RemoveFirstAbsent(s[1..], w);
      assert [s[0]] + s[1..] == s;
    }
  }

  /** RemoveFirst takes away one copy of `w` if there is one, and nothing else. */
  lemma {:induction false} RemoveFirstContents(s: seq<WaiterId>, w: WaiterId)
    ensures multiset(RemoveFirst(s, w)) == multiset(s) - multiset{w}
  {
    if s != [] {
      assert s == [s[0]] + s[1..];
      if s[0] != w {
        RemoveFirstContents(s[1..], w);
      }
    }
  }

  /** In a duplicate-free sequence, different positions hold different handles. */
  lemma DistinctAt(s: seq<WaiterId>, i: nat, j: nat)
    requires NoDuplicates(s) && i < j < |s|
    ensures s[i] != s[j]
  {
    assert s == s[..j] + s[j..];
    assert s[i] in multiset(s[..j]) && s[j] in multiset(s[j..]) by {
      assert s[..j][i] == s[i] && s[j..][0] == s[j];
    }
    assert multiset(s) == multiset(s[..j]) + multiset(s[j..]);
    assert multiset(s)[s[j]] == multiset(s[..j])[s[j]] + multiset(s[j..])[s[j]];
  }

  /** On a duplicate-free sequence, RemoveFirst stays duplicate-free and drops `w` entirely. */
  lemma RemoveFirstNoDuplicates(s: seq<WaiterId>, w: WaiterId)
    requires NoDuplicates(s)
    ensures NoDuplicates(RemoveFirst(s, w)) && w !in RemoveFirst(s, w)
  {
    RemoveFirstContents(s, w);
    assert multiset(s)[w] <= 1;
  }

  // ---------------------------------------------------------------------------
  // The invariant is kept by every operation

  /** Registering hands out a handle that is unfired and held nowhere, and keeps the invariant. */
  lemma RegisterKeepsValid(st: State, uri: DocumentUri)
    requires Valid(st)
    ensures st.next !in st.fired
    ensures forall u :: u in st.waiters ==> st.next !in st.waiters[u]
    ensures Valid(Register(st, uri))
    ensures WaitersOf(Register(st, uri).waiters, uri) == WaitersOf(st.waiters, uri) + [st.next]
  {
    var r := Register(st, uri);
    var s := WaitersOf(st.waiters, uri);
    assert st.next !in s;
    forall u, w | u in r.waiters && w in r.waiters[u] ensures w !in r.fired && w < r.next {
      if u == uri && w !in s {
        assert w == st.next;
      }
    }
    forall u | u in r.waiters ensures r.waiters[u] != [] && NoDuplicates(r.waiters[u]) {
      if u == uri {
        assert multiset(s + [st.next]) == multiset(s) + multiset{st.next};
      }
    }
  }

  /** Notifying keeps the invariant. */
  lemma NotifyKeepsValid(st: State, uri: DocumentUri)
    requires Valid(st)
    ensures Valid(Notify(st, uri))
  {
    var n := Notify(st, uri);
    forall u, w | u in n.waiters && w in n.waiters[u] ensures w !in n.fired {
      assert w !in Elements(WaitersOf(st.waiters, uri));
    }
  }

  /** Removing keeps the invariant. */
  lemma RemoveKeepsValid(st: State, uri: DocumentUri, w: WaiterId)
    requires Valid(st)
    ensures Valid(Remove(st, uri, w))
  {
    var s := WaitersOf(st.waiters, uri);
    var rest := RemoveFirst(s, w);
    var r := Remove(st, uri, w);
    RemoveFirstContents(s, w);
    forall x | x in rest ensures x in s {
      assert x in multiset(rest);
    }
    forall u, x | u in r.waiters && x in r.waiters[u] ensures u in st.waiters && x in st.waiters[u] {
      if u == uri {
        assert x in rest;
      }
    }
    forall u | u in r.waiters ensures r.waiters[u] != [] && NoDuplicates(r.waiters[u]) {
      if u == uri {
        RemoveFirstNoDuplicates(s, w);
      }
    }
  }

  // ---------------------------------------------------------------------------
  // What notify and remove do

  /** Notifying fires every waiter of `uri` and removes its entry; the waiters of
      every other URI stay registered and unfired, and no other waiter is fired. */
  lemma NotifyFiresExactly(st: State, uri: DocumentUri)
    requires Valid(st)
    ensures var n := Notify(st, uri);
      && uri !in n.waiters
      && (forall w :: w in WaitersOf(st.waiters, uri) ==> w in n.fired)
      && (forall w :: w in n.fired ==> w in st.fired || w in WaitersOf(st.waiters, uri))
      && (forall v :: v != uri ==> WaitersOf(n.waiters, v) == WaitersOf(st.waiters, v))
      && (forall v, w :: v != uri && w in WaitersOf(st.waiters, v) ==> w !in n.fired)
  {
    var n := Notify(st, uri);
    forall v, w | v != uri && w in WaitersOf(st.waiters, v) ensures w !in n.fired {
      assert v in st.waiters;
      if uri in st.waiters {
        assert w !in st.waiters[uri];
      }
    }
  }

  /** Notifying a URI that has no waiters changes nothing. */
  lemma NotifyAbsentIsNoop(st: State, uri: DocumentUri)
    requires uri !in st.waiters
    ensures Notify(st, uri) == st
  {
    assert Elements([]) == {};
  }

  /** Removing a handle that the URI does not hold (never registered, or already
      cleared by a notification) changes nothing. */
  lemma RemoveAbsentIsNoop(st: State, uri: DocumentUri, w: WaiterId)
    requires Valid(st)
    requires w !in WaitersOf(st.waiters, uri)
    ensures Remove(st, uri, w) == st
  {
    RemoveFirstAbsent(WaitersOf(st.waiters, uri), w);
  }

  /** Removing a held handle takes out exactly that handle, at its position,
      keeps the order of the rest, deletes the key when nothing is left, and
      leaves every other URI, the fired set and the handle counter alone. */
  lemma RemoveTakesOutOne(st: State, uri: DocumentUri, w: WaiterId, i: nat)
    requires Valid(st)
    requires i < |WaitersOf(st.waiters, uri)| && WaitersOf(st.waiters, uri)[i] == w
    ensures var s := WaitersOf(st.waiters, uri);
      var r := Remove(st, uri, w);
      && WaitersOf(r.waiters, uri) == s[..i] + s[i + 1..]
      && (uri in r.waiters <==> |s| > 1)
      && (forall v :: v != uri ==> WaitersOf(r.waiters, v) == WaitersOf(st.waiters, v))
      && (forall v :: v in r.waiters ==> w !in r.waiters[v])
      && r.fired == st.fired && r.next == st.next
  {
    var s := WaitersOf(st.waiters, uri);
    assert uri in st.waiters;
    forall j | 0 <= j < i ensures s[j] != w {
      DistinctAt(s, j, i);
    }
    RemoveFirstAt(s, w, i);
    RemoveFirstNoDuplicates(s, w);
    var r := Remove(st, uri, w);
    forall v | v in r.waiters ensures w !in r.waiters[v] {
      if v != uri {
        assert v in st.waiters && w in st.waiters[uri];
      }
    }
  }

  /** Removing twice is the same as removing once. */
  lemma RemoveIsIdempotent(st: State, uri: DocumentUri, w: WaiterId)
    requires Valid(st)
    ensures Remove(Remove(st, uri, w), uri, w) == Remove(st, uri, w)
  {
    var s := WaitersOf(st.waiters, uri);
    var r := Remove(st, uri, w);
    RemoveKeepsValid(st, uri, w);
    if uri in st.waiters {
      RemoveFirstNoDuplicates(s, w);
    }
    RemoveAbsentIsNoop(r, uri, w);
  }

  /** Registering a waiter and then removing it gives back the registry as it
      was; only the handle counter has moved on.  (It needs only what Valid
      says about `uri`: the new handle is not yet held there and the entry is not empty.) */
  lemma RegisterThenRemove(st: State, uri: DocumentUri)
    requires st.next !in WaitersOf(st.waiters, uri)
    requires uri in st.waiters ==> st.waiters[uri] != []
    ensures Remove(Register(st, uri), uri, st.next) == st.(next := st.next + 1)
  {
    var s := WaitersOf(st.waiters, uri);
    var t := s + [st.next];
    forall j | 0 <= j < |s| ensures t[j] != st.next {
      assert t[j] == s[j] && s[j] in s;
    }
    RemoveFirstAt(t, st.next, |s|);
    assert t[..|s|] == s && t[|s| + 1..] == [];
    var reg := Register(st, uri);
    assert WaitersOf(reg.waiters, uri) == t;
    assert RemoveFirst(t, st.next) == s;
    if s == [] {
      assert Remove(reg, uri, st.next).waiters == reg.waiters - {uri};
    } else {
      assert uri in st.waiters && st.waiters[uri] == s;
      assert Remove(reg, uri, st.next).waiters == reg.waiters[uri := s];
    }
  }

  // ---------------------------------------------------------------------------
  // Algebra of the registry while one call waits

  /** A notification for a URI other than the waiting call's own. */
  lemma NotifyOtherWhileWaiting(r: Registry, published: set<DocumentUri>, uri: DocumentUri, ch: WaiterId, u: DocumentUri)
    requires u != uri
    ensures WaitersOf(WithWaiter(r - published, uri, ch), u) == WaitersOf(r - published, u)
    ensures WithWaiter(r - published, uri, ch) - {u} == WithWaiter(r - (published + {u}), uri, ch)
    ensures NotifiedBy(r, published) + Elements(WaitersOf(r - published, u)) == NotifiedBy(r, published + {u})
  {
    assert WaitersOf(r - published, uri) == WaitersOf(r - (published + {u}), uri);
  }

  /** A notification for the waiting call's own URI. */
  lemma NotifyOwnWhileWaiting(r: Registry, published: set<DocumentUri>, uri: DocumentUri, ch: WaiterId)
    ensures WaitersOf(WithWaiter(r - published, uri, ch), uri) == WaitersOf(r - published, uri) + [ch]
    ensures WithWaiter(r - published, uri, ch) - {uri} == r - (published + {uri})
    ensures NotifiedBy(r, published) + Elements(WaitersOf(r - published, uri)) == NotifiedBy(r, published + {uri})
  {
  }

  /** Waiters notified in two stages, the second on what the first left. */
  lemma NotifiedInStages(r: Registry, a: set<DocumentUri>, b: set<DocumentUri>)
    ensures NotifiedBy(r, a) + NotifiedBy(r - a, b) == NotifiedBy(r, a + b)
    ensures (r - a) - b == r - (a + b)
  {
    forall x | x in NotifiedBy(r, a + b) ensures x in NotifiedBy(r, a) + NotifiedBy(r - a, b) {
      var u :| u in r && u in a + b && x in r[u];
      if u !in a {
        assert u in r - a && x in (r - a)[u];
      }
    }
    forall x | x in NotifiedBy(r - a, b) ensures x in NotifiedBy(r, a + b) {
      var u :| u in r - a && u in b && x in (r - a)[u];
      assert u in r && x in r[u];
    }
  }

  /** Every handle a valid registry holds, under any URI, is below the next fresh one. */
  lemma HeldHandlesAreOld(st: State, published: set<DocumentUri>)
    requires Valid(st)
    ensures forall w :: w in NotifiedBy(st.waiters, published) ==> w < st.next
    ensures forall u, w :: w in WaitersOf(st.waiters - published, u) ==> w < st.next
    ensures forall u :: u in st.waiters - published ==> st.waiters[u] != []
  {
    forall w | w in NotifiedBy(st.waiters, published) ensures w < st.next {
      var u :| u in st.waiters && u in published && w in st.waiters[u];
      assert w !in st.fired && w < st.next;
    }
    forall u, w | w in WaitersOf(st.waiters - published, u) ensures w < st.next {
      assert u in st.waiters && w in st.waiters[u];
      assert w !in st.fired && w < st.next;
    }
  }

  /** Ranges of handles side by side. */
  lemma BetweenSplit(a: nat, b: nat, c: int)
    requires a <= b <= c
    ensures Between(a, b) + Between(b, c) == Between(a, c)
  {
  }

  /** The registry while a call that started on `st0` waits with its waiter
      `ch`: the waiter is appended for `uri` to what the notifications of the
      `published` URIs left of the registry; the waiters fired since are those
      the published URIs held and the call's own earlier ones. */
  ghost predicate Waiting(now: State, st0: State, published: set<DocumentUri>, uri: DocumentUri, ch: WaiterId) {
    && st0.next <= ch && now.next == ch + 1
    && now.waiters == WithWaiter(st0.waiters - published, uri, ch)
    && now.fired == st0.fired + NotifiedBy(st0.waiters, published) + Between(st0.next, ch)
  }

  /** The registry once the call's waiter has gone: what the notifications of
      the `published` URIs left of it; the waiters fired since are those the
      published URIs held and the call's own handles below `ownBound`. */
  ghost predicate Left(now: State, st0: State, published: set<DocumentUri>, ownBound: int) {
    && now.waiters == st0.waiters - published
    && now.fired == st0.fired + NotifiedBy(st0.waiters, published) + Between(st0.next, ownBound)
  }

  /** A call starts waiting by registering its first waiter. */
  lemma StartWaiting(st: State, uri: DocumentUri)
    ensures Waiting(Register(st, uri), st, {}, uri, st.next)
  {
    assert st.waiters - {} == st.waiters;
    assert NotifiedBy(st.waiters, {}) == {};
  }

  /** A handle of `st0` that is still registered after the notifications of
      `published` was not fired by them. */
  lemma StillHeldIsUnfired(st0: State, published: set<DocumentUri>, u: DocumentUri, w: WaiterId)
    requires Valid(st0) && u in st0.waiters - published && w in st0.waiters[u]
    ensures w !in st0.fired + NotifiedBy(st0.waiters, published) && w < st0.next
  {
  }

  /** The registry left by a call that has returned satisfies the invariant. */
  lemma LeftIsValid(now: State, st0: State, published: set<DocumentUri>, ownBound: int)
    requires Valid(st0) && Left(now, st0, published, ownBound) && st0.next <= now.next && ownBound <= now.next
    ensures Valid(now)
  {
    HeldHandlesAreOld(st0, published);
    forall u | u in now.waiters ensures now.waiters[u] == st0.waiters[u] { }
    forall u, w | u in now.waiters && w in now.waiters[u] ensures w !in now.fired && w < now.next {
      StillHeldIsUnfired(st0, published, u, w);
    }
    forall u, v, w | u in now.waiters && v in now.waiters && w in now.waiters[u] && w in now.waiters[v] ensures u == v {
      assert w in st0.waiters[u] && w in st0.waiters[v];
    }
  }

  /** A registered waiter fires when, and only when, its own URI is notified;
      otherwise it stays registered. */
  lemma NotifyFiresOwn(st: State, u: DocumentUri, uri: DocumentUri, ch: WaiterId)
    requires Valid(st) && ch in WaitersOf(st.waiters, uri)
    ensures ch in Notify(st, u).fired <==> u == uri
    ensures u != uri ==> ch in WaitersOf(Notify(st, u).waiters, uri)
  {
  }

  /** While the call waits, its waiter is registered for its URI. */
  lemma WaitingIsRegistered(now: State, st0: State, published: set<DocumentUri>, uri: DocumentUri, ch: WaiterId)
    requires Waiting(now, st0, published, uri, ch)
    ensures ch in WaitersOf(now.waiters, uri) && ch == now.next - 1
  {
  }

  /** A notification of another URI leaves the call waiting and its waiter unfired. */
  lemma PublishOtherWhileWaiting(now: State, st0: State, published: set<DocumentUri>, uri: DocumentUri, ch: WaiterId, u: DocumentUri)
    requires Valid(st0) && Waiting(now, st0, published, uri, ch) && u != uri
    ensures Waiting(Notify(now, u), st0, published + {u}, uri, ch)
    ensures ch !in Notify(now, u).fired
  {
    NotifyOtherWhileWaiting(st0.waiters, published, uri, ch, u);
    HeldHandlesAreOld(st0, published);
    assert ch !in Elements(WaitersOf(st0.waiters - published, u));
  }

  /** A notification of the call's own URI fires its waiter and clears the entry. */
  lemma PublishOwnWhileWaiting(now: State, st0: State, published: set<DocumentUri>, uri: DocumentUri, ch: WaiterId)
    requires Waiting(now, st0, published, uri, ch)
    ensures var n := Notify(now, uri);
      ch in n.fired && n.next == ch + 1 && Left(n, st0, published + {uri}, ch + 1)
  {
    NotifyOwnWhileWaiting(st0.waiters, published, uri, ch);
    BetweenGrows(st0.next, ch);
    var s := WaitersOf(st0.waiters - published, uri);
    assert Elements(s + [ch]) == Elements(s) + {ch};
  }

  /** After its waiter fired, the call waits again with a fresh one. */
  lemma RegisterAgain(now: State, st0: State, published: set<DocumentUri>, uri: DocumentUri)
    requires Left(now, st0, published, now.next) && st0.next <= now.next
    ensures Waiting(Register(now, uri), st0, published, uri, now.next)
  {
  }

  /** Removing the call's waiter leaves the registry as the notifications left it. */
  lemma DeregisterWhileWaiting(now: State, st0: State, published: set<DocumentUri>, uri: DocumentUri, ch: WaiterId)
    requires Valid(st0) && Waiting(now, st0, published, uri, ch)
    ensures var r := Remove(now, uri, ch);
      Left(r, st0, published, ch) && r.next == ch + 1
  {
    HeldHandlesAreOld(st0, published);
    RegisterThenRemove(State(st0.waiters - published, now.fired, ch), uri);
  }

  /** The first phase followed by the settle loop. */
  lemma WaitThenSettle(st0: State, p1: set<DocumentUri>, mid: State, p2: set<DocumentUri>, final: State)
    requires Left(mid, st0, p1, mid.next) && st0.next <= mid.next
    requires Left(final, mid, p2, final.next - 1) && mid.next < final.next
    ensures Left(final, st0, p1 + p2, final.next - 1)
  {
    NotifiedInStages(st0.waiters, p1, p2);
    BetweenSplit(st0.next, mid.next, final.next - 1);
  }

  /** Once the call's waiter has gone, only handles older than the call are held. */
  lemma LeftHoldsOnlyOlder(now: State, st0: State, published: set<DocumentUri>, ownBound: int)
    requires Valid(st0) && Left(now, st0, published, ownBound)
    ensures forall u, w :: u in now.waiters && w in now.waiters[u] ==> w < st0.next
  {
    HeldHandlesAreOld(st0, published);
    forall u, w | u in now.waiters && w in now.waiters[u] ensures w < st0.next {
      assert w in WaitersOf(st0.waiters - published, u);
    }
  }

  /** One more handle at the top of a range. */
  lemma BetweenGrows(lo: nat, hi: int)
    requires lo <= hi
    ensures Between(lo, hi) + {hi} == Between(lo, hi + 1)
  {
  }
}
