/**
  When the in-memory allocator never gives one address to two names, for all pools of disjoint
  blocks and all runs: exactly when no block that a gateway's cursor enters wraps, and, across
  gateways, when no two cursors come to the same address.
 */
module Reuse {
  import opened Addresses
  import opened Allocators
  import opened AllocatorRuns
  import opened Basics
  import opened Enumeration
  import opened SampleNames
  import opened SampleRuns
  import opened Walks

  /** Two names hold one address. */
  predicate Collide(c: Cache, k: Key, l: Key) {
    k != l && k in c.byKey && l in c.byKey && c.byKey[k] == c.byKey[l]
  }

  /** In no run do two names of the gateway hold one address. */
  ghost predicate NeverReused(pools: Pools, g: Str) {
    forall run, k: Key, l: Key | ValidRun(pools, run) && k.gateway == l.gateway == g :: !Collide(After(pools, run), k, l)
  }

  /** The number of a usable address. */
  ghost function NumberOf(ps: seq<Prefix>, a: Addr): (n: nat)
    requires IsUsable(ps, a)
    ensures n < Capacity(ps) && KthUsable(ps, n) == V4(a)
  {
    KthUsableComplete(ps, a);
    var n: nat :| n < Capacity(ps) && KthUsable(ps, n) == V4(a);
    n
  }

  ghost function HandedNumber(ps: seq<Prefix>, k: nat): (n: nat)
    requires Handed(ps, k).V4?
    ensures n < Capacity(ps) && KthUsable(ps, n) == Handed(ps, k)
  {
    HandedUsable(ps, k);
    NumberOf(ps, Handed(ps, k).addr)
  }

  /** Distinct addresses are handed out no more often than there are usable ones. */
  lemma DistinctBound(ps: seq<Prefix>, n: nat)
    requires forall i | 0 <= i < n :: Handed(ps, i).V4?
    requires forall i, j | 0 <= i < j < n :: Handed(ps, i) != Handed(ps, j)
    ensures n <= Capacity(ps)
  {
    hide Handed, Capacity, KthUsable;
    var s: seq<nat> := seq(n, i requires 0 <= i < n => HandedNumber(ps, i));
    forall i, j | 0 <= i < j < n
      ensures s[i] != s[j]
    {
      assert KthUsable(ps, s[i]) == Handed(ps, i) && KthUsable(ps, s[j]) == Handed(ps, j);
    }
    Pigeonhole(s, Capacity(ps));
  }

  /** An address that is handed out twice is so, or another one is, within one more name than there are addresses. */
  lemma EarlyRepeat(ps: seq<Prefix>, k: nat) returns (i: nat, j: nat)
    requires PairwiseDisjoint(ps) && Handed(ps, k).V4? && exists h: nat :: h < k && Handed(ps, h) == Handed(ps, k)
    ensures i < j <= ADDRESS_COUNT && Handed(ps, i) == Handed(ps, j) && Handed(ps, j).V4?
  {
    hide Handed, Capacity;
    var n := Capacity(ps);
    CapacityBound(ps);
    if k <= n {
      i :| i < k && Handed(ps, i) == Handed(ps, k);
      j := k;
    } else {
      forall m | 0 <= m < n + 1
        ensures Handed(ps, m).V4?
      {
        HandedBefore(ps, m, k);
      }
      if forall x, y | 0 <= x < y < n + 1 :: Handed(ps, x) != Handed(ps, y) {
        DistinctBound(ps, n + 1);
      }
      i, j :| 0 <= i < j < n + 1 && Handed(ps, i) == Handed(ps, j);
    }
  }

  /** The place of a name that holds an address. */
  lemma HeldPlace(pools: Pools, run: seq<Section>, k: Key) returns (j: nat)
    requires Served(pools, run) && k in After(pools, run).byKey
    ensures k.gateway in pools && j < |Requested(run, k.gateway)| && Requested(run, k.gateway)[j] == k.domain
    ensures Handed(pools[k.gateway], j) == V4(After(pools, run).byKey[k])
  {
    GatewaysHandOut(pools, run);
    hide Handed, Requested, After;
    var c, g := After(pools, run), k.gateway;
    assert HandedState(c, g, pools[g], Requested(run, g));
    assert k == Key(g, k.domain);
    j :| 0 <= j < |Requested(run, g)| && Requested(run, g)[j] == k.domain;
  }

  lemma {:induction false} NoCollisionWithin(pools: Pools, run: seq<Section>, k: Key, l: Key)
    requires Served(pools, run) && k.gateway == l.gateway && k.gateway in pools
    requires PairwiseDisjoint(pools[k.gateway]) && NeverWraps(pools[k.gateway])
    ensures !Collide(After(pools, run), k, l)
  {
    hide Handed, Requested, After, NeverWraps;
    if Collide(After(pools, run), k, l) {
      var i := HeldPlace(pools, run, k);
      var j := HeldPlace(pools, run, l);
      assert i != j;
      HandedDistinct(pools[k.gateway], if i < j then i else j, if i < j then j else i);
    }
  }

  /** A run in which two names of the gateway get one address. */
  lemma {:induction false} ReusingRun(pools: Pools, g: Str) returns (run: seq<Section>, k: Key, l: Key)
    requires g in pools && PairwiseDisjoint(pools[g]) && !NeverWraps(pools[g])
    ensures ValidRun(pools, run) && k.gateway == l.gateway == g && Collide(After(pools, run), k, l)
  {
    hide Handed, Requested, Requests, After, NeverWraps, SampleName;
    var i, j := WrapHandsOutTwice(pools[g]);
    i, j := EarlyRepeat(pools[g], j);
    run := Requests(g, j + 1);
    RequestsValid(pools, g, j + 1);
    assert [] + run == run;
    NothingRequested(g);
    NamesOfRequests([], g, j + 1);
    SampleHolds(pools, run, g, j + 1, i);
    SampleHolds(pools, run, g, j + 1, j);
    k, l := Key(g, SampleName(i)), Key(g, SampleName(j));
    if k == l {
      SampleNameInjective(i, j);
    }
  }

  lemma NothingRequested(g: Str)
    ensures Requested([], g) == []
  {
  }

  /**
    A gateway with disjoint blocks never gives one address to two names, in all runs, if and only
    if no block that its cursor enters wraps.
   */
  lemma {:induction false} NeverReusedIff(pools: Pools, g: Str)
    requires g in pools && PairwiseDisjoint(pools[g])
    ensures NeverReused(pools, g) <==> NeverWraps(pools[g])
  {
    hide After, NeverWraps, Collide;
    if NeverWraps(pools[g]) {
      forall run, k: Key, l: Key | ValidRun(pools, run) && k.gateway == l.gateway == g
        ensures !Collide(After(pools, run), k, l)
      {
        NoCollisionWithin(pools, run, k, l);
      }
    } else {
      var run, k, l := ReusingRun(pools, g);
    }
  }

  // ----- across gateways

  /** The addresses of entered blocks. */
  ghost predicate HandsOut(ps: seq<Prefix>, a: Addr) {
    exists i | 0 <= i < |ps| :: Entered(ps, i) && Base(ps[i]) < a < End(ps[i])
  }

  /** Without wrapping, these are the addresses that are handed out. */
  lemma {:induction false} HandsOutIff(ps: seq<Prefix>, a: Addr)
    requires PairwiseDisjoint(ps) && NeverWraps(ps)
    ensures HandsOut(ps, a) <==> exists k: nat :: Handed(ps, k) == V4(a)
  {
    hide Handed, Entered, Wraps;
    if HandsOut(ps, a) {
      var i :| 0 <= i < |ps| && Entered(ps, i) && Base(ps[i]) < a < End(ps[i]);
      var k := EnteredReached(ps, i);
      InBlock(ps, i, k, a - Base(ps[i]) - 1);
    }
    if exists k: nat :: Handed(ps, k) == V4(a) {
      var k: nat :| Handed(ps, k) == V4(a);
      var i, o := HandedInEntered(ps, k);
      AtAddress(ps, k, i, o);
      assert Base(ps[i]) < a < End(ps[i]);
    }
  }

  /** Without wrapping, the place of a handed out address is below the number of usable ones. */
  lemma {:induction false} PlaceBound(ps: seq<Prefix>, k: nat)
    requires PairwiseDisjoint(ps) && NeverWraps(ps) && Handed(ps, k).V4?
    ensures k < ADDRESS_COUNT
  {
    hide Handed, NeverWraps, Capacity;
    forall i | 0 <= i < k + 1
      ensures Handed(ps, i).V4?
    {
      HandedBefore(ps, i, k);
    }
    forall i, j | 0 <= i < j < k + 1
      ensures Handed(ps, i) != Handed(ps, j)
    {
      HandedDistinct(ps, i, j);
    }
    DistinctBound(ps, k + 1);
    CapacityBound(ps);
  }

  ghost predicate NoCollision(pools: Pools) {
    forall run, k, l | ValidRun(pools, run) :: !Collide(After(pools, run), k, l)
  }

  lemma {:induction false} InverseOf(pools: Pools, run: seq<Section>)
    requires ValidRun(pools, run) && NoCollision(pools)
    ensures Inverse(After(pools, run))
  {
    hide SelectAddr;
    if run != [] {
      var init, last := run[..|run| - 1], run[|run| - 1];
      InverseOf(pools, init);
      var c, c' := After(pools, init), After(pools, run);
      if last.WriteSection? && c' != c {
        var ip := c'.byKey[last.key];
        assert c'.byKey == c.byKey[last.key := ip] && c'.byIP == c.byIP[ip := last.key];
        assert ip in c.byIP ==> Collide(c', last.key, c.byIP[ip]);
        InverseExtends(c, last.key, ip, c');
      }
    }
  }

  /** The two maps are inverse in all runs exactly when two names never hold one address. */
  lemma InverseIffNoCollision(pools: Pools)
    ensures (forall run | ValidRun(pools, run) :: Inverse(After(pools, run))) <==> NoCollision(pools)
  {
    hide After;
    if NoCollision(pools) {
      forall run | ValidRun(pools, run)
        ensures Inverse(After(pools, run))
      {
        InverseOf(pools, run);
      }
    }
  }

  ghost predicate AllDisjoint(pools: Pools) {
    forall g | g in pools :: PairwiseDisjoint(pools[g])
  }

  ghost predicate NoneWraps(pools: Pools) {
    forall g | g in pools :: NeverWraps(pools[g])
  }

  ghost predicate BothHandOut(ps: seq<Prefix>, qs: seq<Prefix>) {
    exists a: Addr :: HandsOut(ps, a) && HandsOut(qs, a)
  }

  ghost predicate HandOutApart(pools: Pools) {
    forall g, h | g in pools && h in pools && g != h :: !BothHandOut(pools[g], pools[h])
  }

  lemma CollisionIsShared(pools: Pools, run: seq<Section>, k: Key, l: Key)
    requires AllDisjoint(pools) && NoneWraps(pools) && ValidRun(pools, run)
    requires Collide(After(pools, run), k, l) && k.gateway != l.gateway
    ensures k.gateway in pools && l.gateway in pools && BothHandOut(pools[k.gateway], pools[l.gateway])
  {
    hide Handed, Requested, After, NeverWraps, HandsOut;
    var i := HeldPlace(pools, run, k);
    var j := HeldPlace(pools, run, l);
    var a := After(pools, run).byKey[k];
    HandsOutIff(pools[k.gateway], a);
    HandsOutIff(pools[l.gateway], a);
  }

  lemma {:induction false} NoCollisionAcross(pools: Pools, run: seq<Section>, k: Key, l: Key)
    requires AllDisjoint(pools) && NoneWraps(pools) && HandOutApart(pools) && ValidRun(pools, run)
    ensures !Collide(After(pools, run), k, l)
  {
    hide After, NeverWraps, BothHandOut;
    if Collide(After(pools, run), k, l) {
      if k.gateway == l.gateway {
        var j := HeldPlace(pools, run, k);
        NoCollisionWithin(pools, run, k, l);
      } else {
        CollisionIsShared(pools, run, k, l);
      }
    }
  }

  lemma {:induction false} CollidingRun(pools: Pools, g: Str, h: Str) returns (run: seq<Section>, k: Key, l: Key)
    requires AllDisjoint(pools) && NoneWraps(pools) && g in pools && h in pools && g != h
    requires BothHandOut(pools[g], pools[h])
    ensures ValidRun(pools, run) && Collide(After(pools, run), k, l)
  {
    hide Handed, After, NeverWraps, HandsOut;
    var a: Addr :| HandsOut(pools[g], a) && HandsOut(pools[h], a);
    HandsOutIff(pools[g], a);
    HandsOutIff(pools[h], a);
    var i: nat :| Handed(pools[g], i) == V4(a);
    var j: nat :| Handed(pools[h], j) == V4(a);
    PlaceBound(pools[g], i);
    PlaceBound(pools[h], j);
    run, k, l := GatewaysCollide(pools, g, h, i, j);
  }

  /**
    For all pools of disjoint blocks: no two names ever hold one address, equivalently the two
    maps are inverse in all runs, if and only if no gateway's cursor enters a block that wraps
    and no two gateways enter blocks with a usable address in common.
   */
  lemma {:induction false} InverseIff(pools: Pools)
    requires AllDisjoint(pools)
    ensures (forall run | ValidRun(pools, run) :: Inverse(After(pools, run))) <==> NoneWraps(pools) && HandOutApart(pools)
  {
    hide After, NeverWraps, Collide, BothHandOut, Inverse;
    InverseIffNoCollision(pools);
    if !NoneWraps(pools) {
      var g :| g in pools && !NeverWraps(pools[g]);
      var run, k, l := ReusingRun(pools, g);
    } else if !HandOutApart(pools) {
      var g, h :| g in pools && h in pools && g != h && BothHandOut(pools[g], pools[h]);
      var run, k, l := CollidingRun(pools, g, h);
    } else {
      forall run, k, l | ValidRun(pools, run)
        ensures !Collide(After(pools, run), k, l)
      {
        NoCollisionAcross(pools, run, k, l);
      }
    }
  }
}
