/**
  Whole runs of the in-memory allocator, at the grain of its lock sections: a request first
  reads under the read lock and, when it misses, allocates under the write lock. Sections of
  different requests interleave freely.
 */
module AllocatorRuns {
  import opened Addresses
  import opened Allocators
  import opened Basics
  import opened Enumeration

  datatype Section = ReadSection(key: Key) | WriteSection(key: Key)

  type Pools = map<Str, seq<Prefix>>

  ghost predicate Served(pools: Pools, run: seq<Section>) {
    forall i | 0 <= i < |run| :: run[i].key.gateway in pools
  }

  /** Every gateway has smooth disjoint blocks. */
  ghost predicate SoundPools(pools: Pools) {
    forall g | g in pools :: PairwiseDisjoint(pools[g]) && Smooth(pools[g])
  }

  /** Some address can be handed out from both lists. */
  ghost predicate Shares(ps: seq<Prefix>, qs: seq<Prefix>) {
    exists a: Addr :: IsUsable(ps, a) && IsUsable(qs, a)
  }

  ghost predicate NothingShared(pools: Pools) {
    forall g, h | g in pools && h in pools && g != h :: !Shares(pools[g], pools[h])
  }

  ghost predicate GoodPools(pools: Pools) {
    SoundPools(pools) && NothingShared(pools)
  }

  /** The state a run leads to from a given one. */
  function From(c: Cache, pools: Pools, run: seq<Section>): Cache
    requires Served(pools, run)
  {
    if run == [] then c
    else
      var before, last := From(c, pools, run[..|run| - 1]), run[|run| - 1];
      if last.ReadSection? then before else before.Allocate(last.key, pools[last.key.gateway]).0
  }

  /** What section i of the run reports; Invalid is a miss or an exhaustion error. */
  function AnswerFrom(c: Cache, pools: Pools, run: seq<Section>, i: nat): MaybeAddr
    requires Served(pools, run) && i < |run|
  {
    var before, k := From(c, pools, run[..i]), run[i].key;
    if run[i].WriteSection? then before.Allocate(k, pools[k.gateway]).1
    else if k in before.byKey then V4(before.byKey[k])
    else Invalid
  }

  function After(pools: Pools, run: seq<Section>): Cache
    requires Served(pools, run)
  {
    From(EMPTY_CACHE, pools, run)
  }

  function Answer(pools: Pools, run: seq<Section>, i: nat): MaybeAddr
    requires Served(pools, run) && i < |run|
  {
    AnswerFrom(EMPTY_CACHE, pools, run, i)
  }

  lemma {:induction false} FromConcat(c: Cache, pools: Pools, run: seq<Section>, more: seq<Section>)
    requires Served(pools, run) && Served(pools, more)
    ensures From(From(c, pools, run), pools, more) == From(c, pools, run + more)
  {
    if more == [] {
      assert run + more == run;
    } else {
      FromConcat(c, pools, run, more[..|more| - 1]);
      assert (run + more)[..|run + more| - 1] == run + more[..|more| - 1];
    }
  }

  /** The distinct names a gateway was asked to allocate, in order of their first request. */
  function Requested(run: seq<Section>, g: Str): seq<Str> {
    if run == [] then []
    else
      var names, last := Requested(run[..|run| - 1], g), run[|run| - 1];
      if last.WriteSection? && last.key.gateway == g && last.key.domain !in names
      then names + [last.key.domain]
      else names
  }

  /** One gateway's part of the state after its names were requested, for any list of blocks. */
  ghost predicate HandedState(c: Cache, g: Str, ps: seq<Prefix>, names: seq<Str>) {
    && (forall j | 0 <= j < |names| ::
          if Handed(ps, j).V4? then Key(g, names[j]) in c.byKey && V4(c.byKey[Key(g, names[j])]) == Handed(ps, j)
          else Key(g, names[j]) !in c.byKey)
    && (forall n | Key(g, n) in c.byKey :: n in names)
    && c.Cursor(g) == CursorAt(ps, |names|)
    && (g in c.next <==> names != [] && Handed(ps, 0).V4?)
  }

  /** The k-th distinct name of each gateway holds the k-th address its cursor hands out. */
  ghost predicate EachHanded(c: Cache, pools: Pools, run: seq<Section>) {
    && c.expires == map[]
    && (forall k | k in c.byKey :: k.gateway in pools && c.byKey[k] in c.byIP)
    && (forall g | g in c.next :: g in pools)
    && (forall g | g in pools :: HandedState(c, g, pools[g], Requested(run, g)))
  }

  /** The same where the blocks are smooth: the usable addresses in order. */
  ghost predicate GatewayState(c: Cache, g: Str, ps: seq<Prefix>, names: seq<Str>) {
    && (forall j | 0 <= j < |names| ::
          if j < Capacity(ps) then Key(g, names[j]) in c.byKey && V4(c.byKey[Key(g, names[j])]) == KthUsable(ps, j)
          else Key(g, names[j]) !in c.byKey)
    && (forall n | Key(g, n) in c.byKey :: n in names)
    && c.Cursor(g) == CursorAfter(ps, Given(ps, |names|))
    && (g in c.next <==> Given(ps, |names|) > 0)
  }

  /** The k-th distinct name of each gateway holds its k-th usable address. */
  ghost predicate EachEnumerated(c: Cache, pools: Pools, run: seq<Section>) {
    && c.expires == map[]
    && (forall k | k in c.byKey :: k.gateway in pools)
    && (forall g | g in c.next :: g in pools)
    && (forall g | g in pools :: GatewayState(c, g, pools[g], Requested(run, g)))
  }

  /** And the two maps are inverse. */
  ghost predicate Enumerated(c: Cache, pools: Pools, run: seq<Section>) {
    Inverse(c) && EachEnumerated(c, pools, run)
  }

  lemma {:induction false} NamesDistinct(run: seq<Section>, g: Str)
    ensures forall i, j | 0 <= i < j < |Requested(run, g)| :: Requested(run, g)[i] != Requested(run, g)[j]
  {
    if run != [] {
      NamesDistinct(run[..|run| - 1], g);
    }
  }

  lemma UnsharedAddresses(ps: seq<Prefix>, qs: seq<Prefix>, i: nat, j: nat)
    requires !Shares(ps, qs) && i < Capacity(ps) && j < Capacity(qs)
    ensures KthUsable(ps, i) != KthUsable(qs, j)
  {
    KthUsableBeyond(ps, i);
    KthUsableComplete(ps, KthUsable(ps, i).addr);
    KthUsableComplete(qs, KthUsable(ps, i).addr);
  }

  /** The next address of a gateway is held by nobody. */
  lemma {:induction false} NextIsFree(c: Cache, pools: Pools, run: seq<Section>, g: Str)
    requires GoodPools(pools) && Enumerated(c, pools, run) && g in pools
    requires |Requested(run, g)| < Capacity(pools[g])
    ensures var ip := KthUsable(pools[g], |Requested(run, g)|); ip.V4? && ip.addr !in c.byIP
  {
    var m := |Requested(run, g)|;
    KthUsableBeyond(pools[g], m);
    var ip := KthUsable(pools[g], m).addr;
    if ip in c.byIP {
      var k := c.byIP[ip];
      var h := k.gateway;
      assert GatewayState(c, h, pools[h], Requested(run, h));
      assert Key(h, k.domain) == k;
      var j :| 0 <= j < |Requested(run, h)| && Requested(run, h)[j] == k.domain;
      if h == g {
        KthUsableInjective(pools[g], j, m);
      } else {
        UnsharedAddresses(pools[g], pools[h], m, j);
      }
    }
  }

  /** A request for a name that holds nothing is answered by the cursor. */
  lemma CursorAnswers(c: Cache, g: Str, ps: seq<Prefix>, names: seq<Str>, n: Str)
    requires HandedState(c, g, ps, names) && Key(g, n) !in c.byKey
    ensures c.Allocate(Key(g, n), ps).1 == SelectAddr(ps, c.Cursor(g)) == Handed(ps, |names|)
    ensures n in names ==> Handed(ps, |names|) == Invalid
  {
    hide SelectAddr;
    if n in names {
      var j :| 0 <= j < |names| && names[j] == n;
      HandedEnds(ps, j, |names|);
    }
  }

  /** One gateway's state after a write section for a name it had not seen. */
  lemma {:induction false} NewName(c: Cache, g: Str, ps: seq<Prefix>, names: seq<Str>, n: Str)
    requires HandedState(c, g, ps, names) && n !in names
    ensures HandedState(c.Allocate(Key(g, n), ps).0, g, ps, names + [n])
  {
    hide SelectAddr, Handed, CursorAt;
    CursorAnswers(c, g, ps, names, n);
    CursorStep(ps, |names|);
    if names != [] && Handed(ps, 0) == Invalid {
      HandedEnds(ps, 0, |names|);
    }
    var c', names' := c.Allocate(Key(g, n), ps).0, names + [n];
    forall j | 0 <= j < |names'|
      ensures if Handed(ps, j).V4? then Key(g, names'[j]) in c'.byKey && V4(c'.byKey[Key(g, names'[j])]) == Handed(ps, j)
              else Key(g, names'[j]) !in c'.byKey
    {
      if j < |names| {
        assert names'[j] == names[j] && names[j] != n;
      }
    }
  }

  lemma OtherGateway(c: Cache, g: Str, ps: seq<Prefix>, names: seq<Str>, k: Key, qs: seq<Prefix>)
    requires HandedState(c, g, ps, names) && k.gateway != g
    ensures HandedState(c.Allocate(k, qs).0, g, ps, names)
  {
    hide SelectAddr, Handed, CursorAt;
  }

  /** One gateway's state after a write section for one of its names, new or not. */
  lemma {:induction false} WriteGateway(c: Cache, ps: seq<Prefix>, run: seq<Section>, k: Key)
    requires HandedState(c, k.gateway, ps, Requested(run, k.gateway))
    ensures HandedState(c.Allocate(k, ps).0, k.gateway, ps, Requested(run + [WriteSection(k)], k.gateway))
  {
    var names, run' := Requested(run, k.gateway), run + [WriteSection(k)];
    assert run'[..|run|] == run;
    assert k == Key(k.gateway, k.domain);
    hide Handed, SelectAddr;
    if k.domain !in names {
      NewName(c, k.gateway, ps, names, k.domain);
    } else {
      if k !in c.byKey {
        CursorAnswers(c, k.gateway, ps, names, k.domain);
      }
      assert c.Allocate(k, ps).0 == c;
    }
  }

  lemma {:induction false} WriteFrame(c: Cache, pools: Pools, run: seq<Section>, k: Key, c': Cache, run': seq<Section>)
    requires EachHanded(c, pools, run) && k.gateway in pools
    requires c' == c.Allocate(k, pools[k.gateway]).0 && run' == run + [WriteSection(k)]
    ensures c'.expires == map[]
    ensures forall l | l in c'.byKey :: l.gateway in pools && c'.byKey[l] in c'.byIP
    ensures c'.next.Keys <= c.next.Keys + {k.gateway}
    ensures forall h | h in pools && h != k.gateway :: HandedState(c', h, pools[h], Requested(run', h))
  {
    hide SelectAddr, HandedState;
    assert run'[..|run|] == run;
    forall h | h in pools && h != k.gateway
      ensures HandedState(c', h, pools[h], Requested(run', h))
    {
      OtherGateway(c, h, pools[h], Requested(run, h), k, pools[k.gateway]);
    }
  }

  lemma WriteStep(c: Cache, pools: Pools, run: seq<Section>, k: Key)
    requires EachHanded(c, pools, run) && k.gateway in pools
    ensures EachHanded(c.Allocate(k, pools[k.gateway]).0, pools, run + [WriteSection(k)])
  {
    hide HandedState, Cache.Allocate;
    var c', run' := c.Allocate(k, pools[k.gateway]).0, run + [WriteSection(k)];
    WriteGateway(c, pools[k.gateway], run, k);
    WriteFrame(c, pools, run, k, c', run');
  }

  /** For all pools, every run and every interleaving of lock sections. */
  lemma {:induction false} GatewaysHandOut(pools: Pools, run: seq<Section>)
    requires Served(pools, run)
    ensures EachHanded(After(pools, run), pools, run)
  {
    if run == [] {
    } else {
      var init, last := run[..|run| - 1], run[|run| - 1];
      GatewaysHandOut(pools, init);
      assert run == init + [last];
      if last.WriteSection? {
        WriteStep(After(pools, init), pools, init, last.key);
      }
    }
  }

  lemma HandedStateExact(c: Cache, g: Str, ps: seq<Prefix>, names: seq<Str>)
    requires PairwiseDisjoint(ps) && Smooth(ps) && HandedState(c, g, ps, names)
    ensures GatewayState(c, g, ps, names)
  {
    hide Handed, KthUsable, Capacity, CursorAt, CursorAfter;
    HandedExact(ps, |names|);
    HandedExact(ps, 0);
    KthUsableBeyond(ps, 0);
    forall j | 0 <= j < |names|
      ensures Handed(ps, j) == KthUsable(ps, j) && (KthUsable(ps, j).V4? <==> j < Capacity(ps))
    {
      HandedExact(ps, j);
      KthUsableBeyond(ps, j);
    }
  }

  /** On sound pools each gateway enumerates its usable addresses, whether or not gateways share some. */
  lemma {:induction false} GatewaysEnumerate(pools: Pools, run: seq<Section>)
    requires SoundPools(pools) && Served(pools, run)
    ensures EachEnumerated(After(pools, run), pools, run)
  {
    hide HandedState, GatewayState, After;
    GatewaysHandOut(pools, run);
    forall g | g in pools
      ensures GatewayState(After(pools, run), g, pools[g], Requested(run, g))
    {
      HandedStateExact(After(pools, run), g, pools[g], Requested(run, g));
    }
  }

  lemma InverseExtends(c: Cache, k: Key, ip: Addr, c': Cache)
    requires Inverse(c) && k !in c.byKey && ip !in c.byIP
    requires c'.byKey == c.byKey[k := ip] && c'.byIP == c.byIP[ip := k]
    ensures Inverse(c')
  {
  }

  /** What a new name is given was held by nobody. */
  lemma {:induction false} AllocatesFree(pools: Pools, run: seq<Section>, k: Key)
    requires GoodPools(pools) && Served(pools, run) && k.gateway in pools && Enumerated(After(pools, run), pools, run)
    requires k !in After(pools, run).byKey
    ensures var c := After(pools, run);
            var ip := c.Allocate(k, pools[k.gateway]).1;
            ip.V4? ==> ip.addr !in c.byIP
  {
    hide SelectAddr, KthUsable, Capacity, GatewayState, HandedState, Inverse, Requested, Handed, After, Cache.Allocate;
    var c, g := After(pools, run), k.gateway;
    GatewaysHandOut(pools, run);
    assert k == Key(g, k.domain);
    CursorAnswers(c, g, pools[g], Requested(run, g), k.domain);
    HandedExact(pools[g], |Requested(run, g)|);
    KthUsableBeyond(pools[g], |Requested(run, g)|);
    if |Requested(run, g)| < Capacity(pools[g]) {
      NextIsFree(c, pools, run, g);
    }
  }

  lemma {:induction false} WriteInverse(pools: Pools, run: seq<Section>, k: Key)
    requires GoodPools(pools) && Served(pools, run) && k.gateway in pools && Enumerated(After(pools, run), pools, run)
    ensures Inverse(After(pools, run).Allocate(k, pools[k.gateway]).0)
  {
    hide SelectAddr, Inverse, Requested, After, EachEnumerated;
    var c := After(pools, run);
    var (c', ip) := c.Allocate(k, pools[k.gateway]);
    if k !in c.byKey && ip.V4? {
      AllocatesFree(pools, run, k);
      InverseExtends(c, k, ip.addr, c');
    }
  }

  /** With nothing shared the maps are inverse as well. */
  lemma {:induction false} AllocatorEnumerates(pools: Pools, run: seq<Section>)
    requires GoodPools(pools) && Served(pools, run)
    ensures Enumerated(After(pools, run), pools, run)
  {
    GatewaysEnumerate(pools, run);
    if run != [] {
      hide EachEnumerated;
      var init, last := run[..|run| - 1], run[|run| - 1];
      AllocatorEnumerates(pools, init);
      if last.WriteSection? {
        WriteInverse(pools, init, last.key);
      }
    }
  }

  lemma {:induction false} NamesGrow(run: seq<Section>, i: nat, g: Str)
    requires i <= |run|
    ensures Requested(run[..i], g) <= Requested(run, g)
  {
    if i == |run| {
      assert run[..i] == run;
    } else {
      assert run[..|run| - 1][..i] == run[..i];
      NamesGrow(run[..|run| - 1], i, g);
    }
  }

  /** A name requested before has its place already; a new one gets the next. */
  lemma PlaceOfFirstRequest(run: seq<Section>, i: nat, j: nat)
    requires i < |run|
    requires j < |Requested(run, run[i].key.gateway)| && Requested(run, run[i].key.gateway)[j] == run[i].key.domain
    ensures var names, n := Requested(run[..i], run[i].key.gateway), run[i].key.domain;
            if n in names then j < |names| && names[j] == n else run[i].WriteSection? ==> j == |names|
  {
    var g := run[i].key.gateway;
    NamesDistinct(run, g);
    NamesGrow(run, i, g);
    NamesGrow(run, i + 1, g);
    assert run[..i + 1][..i] == run[..i];
    var names, n := Requested(run[..i], g), run[i].key.domain;
    if n in names {
      var m :| 0 <= m < |names| && names[m] == n;
      assert Requested(run, g)[m] == n;
    } else if run[i].WriteSection? {
      assert Requested(run[..i + 1], g) == names + [n];
      assert Requested(run, g)[|names|] == n;
    }
  }

  /**
    A name's place in the order of first requests fixes every answer for it, for all pools: a
    write section answers the address handed out at that place, or fails if there is none; a
    read section answers it once the name was requested, and misses before.
   */
  lemma {:induction false} AnswersFollowCursor(pools: Pools, run: seq<Section>, i: nat, j: nat)
    requires Served(pools, run) && i < |run|
    requires j < |Requested(run, run[i].key.gateway)| && Requested(run, run[i].key.gateway)[j] == run[i].key.domain
    ensures var k := run[i].key;
            Answer(pools, run, i) ==
            if run[i].WriteSection? || k.domain in Requested(run[..i], k.gateway)
            then Handed(pools[k.gateway], j) else Invalid
  {
    var k, before := run[i].key, run[..i];
    var g, ps := k.gateway, pools[k.gateway];
    var c := After(pools, before);
    hide SelectAddr, Handed, From, Requested;
    GatewaysHandOut(pools, before);
    PlaceOfFirstRequest(run, i, j);
    assert HandedState(c, g, ps, Requested(before, g)) && k == Key(g, k.domain);
    if k !in c.byKey {
      CursorAnswers(c, g, ps, Requested(before, g), k.domain);
    }
  }

  /** On sound pools that is the usable address of that number, and a write fails exactly past the capacity. */
  lemma AnswersFollowPlace(pools: Pools, run: seq<Section>, i: nat, j: nat)
    requires SoundPools(pools) && Served(pools, run) && i < |run|
    requires j < |Requested(run, run[i].key.gateway)| && Requested(run, run[i].key.gateway)[j] == run[i].key.domain
    ensures var k := run[i].key;
            Answer(pools, run, i) ==
            if run[i].WriteSection? || k.domain in Requested(run[..i], k.gateway)
            then KthUsable(pools[k.gateway], j) else Invalid
  {
    hide Answer, Handed, KthUsable;
    AnswersFollowCursor(pools, run, i, j);
    HandedExact(pools[run[i].key.gateway], j);
  }

  /** Without a store, the lifecycle's live lookup before an allocation neither drops nor changes anything. */
  lemma LiveLookupIsPlain(pools: Pools, run: seq<Section>, k: Key, now: int)
    requires Served(pools, run)
    ensures var c := After(pools, run);
            c.LookupKeyLive(k, now) == (c, if k in c.byKey then Some(c.byKey[k]) else None)
  {
    GatewaysHandOut(pools, run);
  }
}
