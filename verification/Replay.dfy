/** The nonce cache shared by all proof verifiers, over whole runs. */
module Replay {
  /** One check: a nonce, when its proof expires, and the clock (both in Unix seconds). */
  datatype Use = Use(nonce: string, expires: int, now: int)

  /** The entries that survive the purge at `now`. */
  function Live(seen: map<string, int>, now: int): map<string, int> {
    map n | n in seen && seen[n] > now :: seen[n]
  }

  predicate Fresh(seen: map<string, int>, u: Use) { u.nonce !in Live(seen, u.now) }

  function SeenAfter(seen: map<string, int>, u: Use): map<string, int> {
    if Fresh(seen, u) then Live(seen, u.now)[u.nonce := u.expires] else Live(seen, u.now)
  }

  class NonceCache {
    var seen: map<string, int>

    constructor ()
      ensures seen == map[]
    {
      seen := map[];
    }

    method CheckAndStore(nonce: string, expires: int, now: int) returns (accepted: bool)
      modifies this
      ensures accepted <==> Fresh(old(seen), Use(nonce, expires, now))
      ensures seen == SeenAfter(old(seen), Use(nonce, expires, now))
    {
      var keys := seen.Keys;
      while keys != {}
        invariant keys <= old(seen).Keys
        invariant forall n :: n in seen <==> n in old(seen) && (n in keys || old(seen)[n] > now)
        invariant forall n :: n in seen ==> seen[n] == old(seen)[n]
        decreases keys
      {
        var n :| n in keys;
        if seen[n] <= now { seen := seen - {n}; }
        keys := keys - {n};
      }
      assert seen == Live(old(seen), now);
      if nonce in seen { return false; }
      seen := seen[nonce := expires];
      return true;
    }
  }

  // ---------------------------------------------------------------------------------------------
  // Runs

  /** The cache and, as history, the accepted uses, oldest first. */
  datatype CacheState = CacheState(seen: map<string, int>, accepted: seq<Use>)

  const EMPTY := CacheState(map[], [])

  function Step(c: CacheState, u: Use): CacheState {
    CacheState(SeenAfter(c.seen, u), if Fresh(c.seen, u) then c.accepted + [u] else c.accepted)
  }

  function StepAll(c: CacheState, uses: seq<Use>): CacheState {
    if uses == [] then c else Step(StepAll(c, uses[..|uses| - 1]), uses[|uses| - 1])
  }

  ghost predicate Clocked(uses: seq<Use>) {
    forall i, j :: 0 <= i < j < |uses| ==> uses[i].now <= uses[j].now
  }

  /** At time `now` the cache holds only accepted uses, and every accepted use that has not expired. */
  ghost predicate Tracks(c: CacheState, now: int) {
    && (forall n :: n in c.seen ==> exists u :: u in c.accepted && u.nonce == n && u.expires == c.seen[n])
    && (forall u :: u in c.accepted ==> u.expires <= now || (u.nonce in c.seen && c.seen[u.nonce] == u.expires))
  }

  lemma StepTracks(c: CacheState, u: Use, now: int)
    requires Tracks(c, now) && now <= u.now
    ensures Tracks(Step(c, u), u.now)
  {
    var d := Step(c, u);
    forall n | n in d.seen ensures exists a :: a in d.accepted && a.nonce == n && a.expires == d.seen[n] {
      if Fresh(c.seen, u) && n == u.nonce {
        assert u in d.accepted;
      } else {
        var a :| a in c.accepted && a.nonce == n && a.expires == c.seen[n];
        assert a in d.accepted;
      }
    }
  }

  /** The time of a run's last use, or of its start. */
  function LastTime(uses: seq<Use>, start: int): int { if uses == [] then start else uses[|uses| - 1].now }

  lemma {:induction false} RunTracks(uses: seq<Use>, start: int)
    requires Clocked(uses) && (uses != [] ==> start <= uses[0].now)
    ensures Tracks(StepAll(EMPTY, uses), LastTime(uses, start))
  {
    if uses != [] {
      var n := |uses| - 1;
      RunTracks(uses[..n], start);
      assert LastTime(uses[..n], start) <= uses[n].now;
      StepTracks(StepAll(EMPTY, uses[..n]), uses[n], LastTime(uses[..n], start));
    }
  }

  lemma TracksRefuses(c: CacheState, now: int, u: Use)
    requires Tracks(c, now) && now <= u.now
    ensures !Fresh(c.seen, u) <==> exists a :: a in c.accepted && a.nonce == u.nonce && a.expires > u.now
  {}

  // ---------------------------------------------------------------------------------------------
  // Every clock

  predicate AcceptedAt(uses: seq<Use>, i: nat)
    requires i < |uses|
  {
    Fresh(StepAll(EMPTY, uses[..i]).seen, uses[i])
  }

  /** Use `i` has this nonce and expiry, was accepted, and no check after it saw a clock at or past the expiry. */
  ghost predicate Unpurged(uses: seq<Use>, i: int, nonce: string, expires: int) {
    && 0 <= i < |uses| && uses[i].nonce == nonce && uses[i].expires == expires && AcceptedAt(uses, i)
    && forall k :: i < k < |uses| ==> uses[k].now < expires
  }

  ghost predicate Held(uses: seq<Use>, nonce: string, expires: int) { exists i :: Unpurged(uses, i, nonce, expires) }

  lemma AcceptedBefore(uses: seq<Use>, n: nat, i: nat)
    requires i < n <= |uses|
    ensures AcceptedAt(uses[..n], i) == AcceptedAt(uses, i)
  {
    assert uses[..n][..i] == uses[..i];
  }

  lemma HeldOneMore(before: seq<Use>, u: Use, nonce: string, expires: int)
    ensures Held(before + [u], nonce, expires) <==>
              || (Held(before, nonce, expires) && u.now < expires)
              || (Fresh(StepAll(EMPTY, before).seen, u) && u.nonce == nonce && u.expires == expires)
  {
    hide Fresh, StepAll;
    var uses, n := before + [u], |before|;
    assert uses[..n] == before && uses[n] == u;
    forall i | 0 <= i < n
      ensures Unpurged(uses, i, nonce, expires) <==> Unpurged(before, i, nonce, expires) && u.now < expires
    {
      AcceptedBefore(uses, n, i);
      assert forall k :: 0 <= k < n ==> before[k] == uses[k];
    }
    assert Unpurged(uses, n, nonce, expires) <==>
           Fresh(StepAll(EMPTY, before).seen, u) && u.nonce == nonce && u.expires == expires;
    hide Unpurged, AcceptedAt;
    if Held(before, nonce, expires) && u.now < expires {
      var i :| Unpurged(before, i, nonce, expires);
      UnpurgedIndex(before, i, nonce, expires);
      assert Unpurged(uses, i, nonce, expires);
    }
    if Held(uses, nonce, expires) {
      var i :| Unpurged(uses, i, nonce, expires);
      UnpurgedIndex(uses, i, nonce, expires);
    }
  }

  lemma UnpurgedIndex(uses: seq<Use>, i: int, nonce: string, expires: int)
    requires Unpurged(uses, i, nonce, expires)
    ensures 0 <= i < |uses|
  {}

  /** Whatever the clock does, the cache holds a nonce with an expiry exactly when a use with both was accepted and no
      later check saw a clock at or past that expiry. */
  lemma {:induction false} HoldsExactly(uses: seq<Use>, nonce: string, expires: int)
    ensures var seen := StepAll(EMPTY, uses).seen;
            nonce in seen && seen[nonce] == expires <==> Held(uses, nonce, expires)
  {
    hide Held;
    if uses == [] {
      NothingHeld(nonce, expires);
    } else {
      var n := |uses| - 1;
      HoldsExactly(uses[..n], nonce, expires);
      HeldOneMore(uses[..n], uses[n], nonce, expires);
      assert uses[..n] + [uses[n]] == uses;
    }
  }

  lemma NothingHeld(nonce: string, expires: int)
    ensures !Held([], nonce, expires)
  {}

  /** Whatever the clock does, a nonce is refused exactly when an accepted use of it has not expired and no check in
      between saw a clock at or past its expiry. */
  lemma RefusedEveryClock(uses: seq<Use>, u: Use)
    ensures !Fresh(StepAll(EMPTY, uses).seen, u) <==> exists e :: e > u.now && Held(uses, u.nonce, e)
  {
    hide Held, StepAll;
    var seen := StepAll(EMPTY, uses).seen;
    if u.nonce in seen { HoldsExactly(uses, u.nonce, seen[u.nonce]); }
    forall e | e > u.now && Held(uses, u.nonce, e) ensures u.nonce in seen && seen[u.nonce] == e {
      HoldsExactly(uses, u.nonce, e);
    }
  }

  ghost predicate TakenAt(uses: seq<Use>, i: int, a: Use) { 0 <= i < |uses| && uses[i] == a && AcceptedAt(uses, i) }

  lemma {:induction false} AcceptedMembers(uses: seq<Use>, a: Use)
    ensures a in StepAll(EMPTY, uses).accepted <==> exists i :: TakenAt(uses, i, a)
  {
    hide SeenAfter, Fresh, TakenAt;
    if uses == [] {
      assert forall i :: !TakenAt([], i, a) by { NothingTaken(a); }
    } else {
      var n := |uses| - 1;
      AcceptedMembers(uses[..n], a);
      TakenOneMore(uses, a);
    }
  }

  lemma NothingTaken(a: Use)
    ensures forall i :: !TakenAt([], i, a)
  {}

  lemma TakenOneMore(uses: seq<Use>, a: Use)
    requires uses != []
    ensures var n := |uses| - 1;
            (exists i :: TakenAt(uses, i, a)) <==>
              (exists i :: TakenAt(uses[..n], i, a)) || (a == uses[n] && Fresh(StepAll(EMPTY, uses[..n]).seen, uses[n]))
  {
    hide StepAll, Fresh;
    var n := |uses| - 1;
    forall i | 0 <= i < n ensures TakenAt(uses, i, a) == TakenAt(uses[..n], i, a) { AcceptedBefore(uses, n, i); }
    assert TakenAt(uses, n, a) <==> a == uses[n] && Fresh(StepAll(EMPTY, uses[..n]).seen, uses[n]);
    if exists i :: TakenAt(uses[..n], i, a) {
      var i :| TakenAt(uses[..n], i, a);
      assert TakenAt(uses, i, a);
    }
  }

  /** Under a clock that never goes back nothing is purged early: a nonce is refused exactly when an accepted use of it
      has not expired yet. */
  lemma RefusedExactly(uses: seq<Use>, u: Use)
    requires Clocked(uses + [u])
    ensures !Fresh(StepAll(EMPTY, uses).seen, u)
       <==> exists a :: a in StepAll(EMPTY, uses).accepted && a.nonce == u.nonce && a.expires > u.now
  {
    hide AcceptedAt, StepAll, Fresh;
    RefusedEveryClock(uses, u);
    var all := uses + [u];
    forall k | 0 <= k < |uses| ensures uses[k].now <= u.now {
      assert all[k] == uses[k] && all[|uses|] == u;
    }
    forall e | e > u.now && Held(uses, u.nonce, e)
      ensures exists a :: a in StepAll(EMPTY, uses).accepted && a.nonce == u.nonce && a.expires > u.now
    {
      var i :| Unpurged(uses, i, u.nonce, e);
      AcceptedMembers(uses, uses[i]);
      assert TakenAt(uses, i, uses[i]);
    }
    forall a | a in StepAll(EMPTY, uses).accepted && a.nonce == u.nonce && a.expires > u.now
      ensures Held(uses, u.nonce, a.expires)
    {
      AcceptedMembers(uses, a);
      var i :| TakenAt(uses, i, a);
      assert Unpurged(uses, i, u.nonce, a.expires);
    }
  }

  /** A nonce is accepted again only once the earlier use of it has expired. */
  lemma {:induction false} AcceptedAgainOnlyAfterExpiry(uses: seq<Use>, i: nat, j: nat)
    requires Clocked(uses) && i < j < |StepAll(EMPTY, uses).accepted|
    requires StepAll(EMPTY, uses).accepted[i].nonce == StepAll(EMPTY, uses).accepted[j].nonce
    ensures StepAll(EMPTY, uses).accepted[i].expires <= StepAll(EMPTY, uses).accepted[j].now
  {
    if uses != [] {
      var n := |uses| - 1;
      var c := StepAll(EMPTY, uses[..n]);
      if j < |c.accepted| {
        AcceptedAgainOnlyAfterExpiry(uses[..n], i, j);
      } else {
        assert uses[..n] + [uses[n]] == uses;
        RefusedExactly(uses[..n], uses[n]);
        assert c.accepted[i] in c.accepted;
      }
    }
  }

  /** The clock hypothesis is needed: once a use has been purged, a clock that goes back accepts it again. */
  lemma BackwardClockAcceptsAgain(u: Use, other: Use)
    requires u.nonce != other.nonce && u.now < u.expires <= other.now
    ensures StepAll(EMPTY, [u, other, u]).accepted == [u, other, u]
  {
    var c := Step(EMPTY, u);
    assert StepAll(EMPTY, [u]) == c by { assert [u][..0] == []; }
    var d := Step(c, other);
    assert StepAll(EMPTY, [u, other]) == d by { assert [u, other][..1] == [u]; }
    assert StepAll(EMPTY, [u, other, u]) == Step(d, u) by { assert [u, other, u][..2] == [u, other]; }
    assert d.accepted == [u, other] && u.nonce !in d.seen;
  }
}
