/**
  Runs that request as many names as wanted, and with them the exact condition under which the
  allocator's two maps stay inverse across gateways.
 */
module SampleRuns {
  import opened Addresses
  import opened Allocators
  import opened AllocatorRuns
  import opened Basics
  import opened Enumeration
  import opened Names
  import opened SampleNames

  function Requests(g: Str, n: nat): seq<Section> {
    if n == 0 then [] else Requests(g, n - 1) + [WriteSection(Key(g, SampleName(n - 1)))]
  }

  /** Requests as the DNS path makes them: for served gateways and valid names. */
  ghost predicate ValidRun(pools: Pools, run: seq<Section>) {
    Served(pools, run) && forall i | 0 <= i < |run| :: ValidName(run[i].key.domain)
  }

  /** Distinct numbers below a bound are at most as many as the bound. */
  lemma {:induction false} Pigeonhole(s: seq<nat>, bound: nat)
    requires forall i | 0 <= i < |s| :: s[i] < bound
    requires forall i, j | 0 <= i < j < |s| :: s[i] != s[j]
    ensures |s| <= bound
  {
    if s != [] {
      assert s[0] < bound;
      if i :| 0 <= i < |s| && s[i] == bound - 1 {
        Pigeonhole(s[..i] + s[i + 1..], bound - 1);
      } else {
        Pigeonhole(s, bound - 1);
      }
    }
  }

  /** Disjoint blocks hold no more usable addresses than there are addresses. */
  lemma CapacityBound(ps: seq<Prefix>)
    requires PairwiseDisjoint(ps)
    ensures Capacity(ps) <= ADDRESS_COUNT
  {
    var s: seq<nat> := seq(Capacity(ps), k requires 0 <= k < Capacity(ps) => UsableNumber(ps, k));
    forall i, j | 0 <= i < j < |s|
      ensures s[i] != s[j]
    {
      KthUsableBeyond(ps, i);
      KthUsableBeyond(ps, j);
      if KthUsable(ps, i) == KthUsable(ps, j) {
        KthUsableInjective(ps, i, j);
      }
    }
    Pigeonhole(s, ADDRESS_COUNT);
  }

  function UsableNumber(ps: seq<Prefix>, k: nat): (r: nat)
    ensures r < ADDRESS_COUNT
  {
    if KthUsable(ps, k).V4? then KthUsable(ps, k).addr else 0
  }

  lemma {:induction false} RequestsSections(g: Str, n: nat, i: nat)
    requires i < |Requests(g, n)|
    ensures i < n && Requests(g, n)[i] == WriteSection(Key(g, SampleName(i)))
  {
    RequestsLength(g, n - 1);
    if i < n - 1 {
      RequestsSections(g, n - 1, i);
    }
  }

  lemma {:induction false} RequestsLength(g: Str, n: nat)
    ensures |Requests(g, n)| == n
  {
    if n > 0 {
      RequestsLength(g, n - 1);
    }
  }

  lemma RequestsValid(pools: Pools, g: Str, n: nat)
    requires g in pools && n <= ADDRESS_COUNT + 1
    ensures ValidRun(pools, Requests(g, n))
  {
    forall i | 0 <= i < |Requests(g, n)|
      ensures Requests(g, n)[i].key.gateway in pools && ValidName(Requests(g, n)[i].key.domain)
    {
      RequestsSections(g, n, i);
      SampleNameValid(i);
    }
  }

  lemma RequestedNext(run: seq<Section>, k: Key, g: Str)
    ensures Requested(run + [WriteSection(k)], g) ==
            if k.gateway == g && k.domain !in Requested(run, g) then Requested(run, g) + [k.domain] else Requested(run, g)
  {
    assert (run + [WriteSection(k)])[..|run|] == run;
  }

  lemma SampleNameIsNew(names: seq<Str>)
    requires forall i | 0 <= i < |names| :: names[i] == SampleName(i)
    ensures SampleName(|names|) !in names
  {
    hide SampleName;
    forall i | 0 <= i < |names|
      ensures names[i] != SampleName(|names|)
    {
      if SampleName(i) == SampleName(|names|) {
        SampleNameInjective(i, |names|);
      }
    }
  }

  /** The sample names become the names of a gateway that had none, in order. */
  lemma {:induction false} NamesOfRequests(run: seq<Section>, g: Str, n: nat)
    requires Requested(run, g) == []
    ensures |Requested(run + Requests(g, n), g)| == n
    ensures forall i | 0 <= i < n :: Requested(run + Requests(g, n), g)[i] == SampleName(i)
  {
    hide SampleName, Requested;
    if n == 0 {
      assert run + [] == run;
    } else {
      NamesOfRequests(run, g, n - 1);
      var init, k := run + Requests(g, n - 1), Key(g, SampleName(n - 1));
      assert run + Requests(g, n) == init + [WriteSection(k)];
      SampleNameIsNew(Requested(init, g));
      RequestedNext(init, k, g);
    }
  }

  lemma {:induction false} NamesOfOthers(run: seq<Section>, h: Str, n: nat, g: Str)
    requires g != h
    ensures Requested(run + Requests(h, n), g) == Requested(run, g)
  {
    hide SampleName, Requested;
    if n == 0 {
      assert run + [] == run;
    } else {
      NamesOfOthers(run, h, n - 1, g);
      var init, k := run + Requests(h, n - 1), Key(h, SampleName(n - 1));
      assert run + Requests(h, n) == init + [WriteSection(k)];
      RequestedNext(init, k, g);
    }
  }

  /** Requesting enough names makes a gateway give out whatever its cursor comes to. */
  lemma SampleHolds(pools: Pools, run: seq<Section>, g: Str, n: nat, i: nat)
    requires Served(pools, run) && g in pools
    requires |Requested(run, g)| == n && forall m | 0 <= m < n :: Requested(run, g)[m] == SampleName(m)
    requires i < n && Handed(pools[g], i).V4?
    ensures var c := After(pools, run);
            Key(g, SampleName(i)) in c.byKey && V4(c.byKey[Key(g, SampleName(i))]) == Handed(pools[g], i)
  {
    GatewaysHandOut(pools, run);
    var c, names := After(pools, run), Requested(run, g);
    hide Handed, SampleName, Requested, After;
    assert HandedState(c, g, pools[g], names);
    assert names[i] == SampleName(i);
  }

  /** Two gateways that come to the same address both give it out in some run. */
  lemma GatewaysCollide(pools: Pools, g: Str, h: Str, i: nat, j: nat) returns (run: seq<Section>, k: Key, l: Key)
    requires g in pools && h in pools && g != h && i <= ADDRESS_COUNT && j <= ADDRESS_COUNT
    requires Handed(pools[g], i) == Handed(pools[h], j) && Handed(pools[g], i).V4?
    ensures ValidRun(pools, run)
    ensures k != l && k in After(pools, run).byKey && l in After(pools, run).byKey
    ensures V4(After(pools, run).byKey[k]) == V4(After(pools, run).byKey[l]) == Handed(pools[g], i)
  {
    hide Handed, SampleName, After, Requested, Requests, ValidName;
    var first, second := Requests(g, i + 1), Requests(h, j + 1);
    run := first + second;
    RequestsValid(pools, g, i + 1);
    RequestsValid(pools, h, j + 1);
    CollidingNames(first, second, g, h, i, j);
    SampleHolds(pools, run, g, i + 1, i);
    SampleHolds(pools, run, h, j + 1, j);
    k, l := Key(g, SampleName(i)), Key(h, SampleName(j));
  }

  /** Two gateways with a usable address in common both give it out in some run. */
  lemma SharedAddressCollides(pools: Pools, g: Str, h: Str, a: Addr) returns (run: seq<Section>)
    requires SoundPools(pools) && g in pools && h in pools && g != h
    requires IsUsable(pools[g], a) && IsUsable(pools[h], a)
    ensures ValidRun(pools, run)
    ensures exists k, l :: k != l && k in After(pools, run).byKey && l in After(pools, run).byKey &&
              After(pools, run).byKey[k] == After(pools, run).byKey[l] == a
  {
    hide KthUsable, Capacity, IsUsable, After, ValidRun, Handed;
    KthUsableComplete(pools[g], a);
    KthUsableComplete(pools[h], a);
    var i: nat :| i < Capacity(pools[g]) && KthUsable(pools[g], i) == V4(a);
    var j: nat :| j < Capacity(pools[h]) && KthUsable(pools[h], j) == V4(a);
    CapacityBound(pools[g]);
    CapacityBound(pools[h]);
    HandedExact(pools[g], i);
    HandedExact(pools[h], j);
    var k, l;
    run, k, l := GatewaysCollide(pools, g, h, i, j);
  }

  lemma CollidingNames(first: seq<Section>, second: seq<Section>, g: Str, h: Str, i: nat, j: nat)
    requires g != h && first == Requests(g, i + 1) && second == Requests(h, j + 1)
    ensures |Requested(first + second, g)| == i + 1 && |Requested(first + second, h)| == j + 1
    ensures forall m | 0 <= m < i + 1 :: Requested(first + second, g)[m] == SampleName(m)
    ensures forall m | 0 <= m < j + 1 :: Requested(first + second, h)[m] == SampleName(m)
  {
    assert [] + first == first;
    NamesOfRequests([], g, i + 1);
    NamesOfOthers(first, h, j + 1, g);
    NamesOfOthers([], g, i + 1, h);
    NamesOfRequests(first, h, j + 1);
  }

  /** The two maps stay inverse in all runs if and only if no two gateways share a usable address. */
  lemma {:induction false} InverseIffNothingShared(pools: Pools)
    requires SoundPools(pools)
    ensures (forall run | ValidRun(pools, run) :: Inverse(After(pools, run))) <==> NothingShared(pools)
  {
    if NothingShared(pools) {
      forall run | ValidRun(pools, run)
        ensures Inverse(After(pools, run))
      {
        AllocatorEnumerates(pools, run);
      }
    } else {
      var g, h :| g in pools && h in pools && g != h && Shares(pools[g], pools[h]);
      var a: Addr :| IsUsable(pools[g], a) && IsUsable(pools[h], a);
      var run := SharedAddressCollides(pools, g, h, a);
      assert !Inverse(After(pools, run));
    }
  }
}
