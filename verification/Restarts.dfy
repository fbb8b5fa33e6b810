/**
  Saving the in-memory allocator and loading the rows into a new one (`Allocator.Save` and
  `Allocator.Load`). Only the mappings are stored; each cursor is rebuilt as one past the
  highest saved address of its gateway.
 */
module Restarts {
  import opened Addresses
  import opened Allocators
  import opened AllocatorRuns
  import opened Basics
  import opened Enumeration
  import opened Names
  import opened SampleNames
  import opened SampleRuns

  /** Blocks with something to hand out are listed in address order. */
  ghost predicate Ascending(ps: seq<Prefix>) {
    forall i, j | 0 <= i < j < |ps| && Size(ps[i]) > 1 && Size(ps[j]) > 1 :: End(ps[i]) <= Base(ps[j])
  }

  lemma KthUsableAscends(ps: seq<Prefix>, j: nat, k: nat)
    requires Ascending(ps) && j < k < Capacity(ps)
    ensures KthUsable(ps, j).V4? && KthUsable(ps, k).V4? && KthUsable(ps, j).addr < KthUsable(ps, k).addr
  {
    var r, o := Locate(ps, j);
    var r', o' := Locate(ps, k);
    KthUsableAt(ps, r, o);
    KthUsableAt(ps, r', o');
    if r' < r {
      BeforeStep(ps, r');
      BeforeMonotone(ps, r' + 1, r);
    }
  }

  /** No smooth block list hands out 255.255.255.255, so every cursor is an address. */
  lemma CursorIsValid(ps: seq<Prefix>, k: nat)
    requires Smooth(ps) && k < Capacity(ps)
    ensures KthUsable(ps, k).V4? && KthUsable(ps, k).addr + 1 < ADDRESS_COUNT
    ensures Next(KthUsable(ps, k)) == V4(KthUsable(ps, k).addr + 1)
  {
    var r := KthUsableBlock(ps, k);
    EndInRange(ps[r]);
    assert SmoothAt(ps, r);
  }

  /** The highest row of a gateway below the top address. */
  ghost predicate IsHighest(rows: seq<DiskRow>, g: Str, ip: Addr) {
    && ip + 1 < ADDRESS_COUNT && DiskIpOf(rows, g, ip)
    && (forall i | 0 <= i < |rows| && rows[i].key.gateway == g && rows[i].ip + 1 < ADDRESS_COUNT :: rows[i].ip <= ip)
  }

  ghost predicate DiskIpOf(rows: seq<DiskRow>, g: Str, ip: Addr) {
    exists i | 0 <= i < |rows| :: rows[i].key.gateway == g && rows[i].ip == ip
  }

  ghost predicate Mentions(rows: seq<DiskRow>, g: Str) {
    exists i | 0 <= i < |rows| :: rows[i].key.gateway == g
  }

  /** The state that loading rows of a two-way map builds, in any order. */
  ghost predicate Loaded(c: Cache, rows: seq<DiskRow>) {
    && (forall i | 0 <= i < |rows| :: rows[i].key in c.byKey && c.byKey[rows[i].key] == rows[i].ip)
    && (forall i | 0 <= i < |rows| :: rows[i].ip in c.byIP && c.byIP[rows[i].ip] == rows[i].key)
    && (forall k | k in c.byKey :: DiskRow(k, c.byKey[k]) in rows)
    && (forall ip | ip in c.byIP :: DiskRow(c.byIP[ip], ip) in rows)
    && c.expires == map[]
    && CursorsLoaded(c.next, rows)
  }

  /** Each gateway's cursor is one past its highest row; a row at the top address alone leaves it unset. */
  ghost predicate CursorsLoaded(next: map<Str, MaybeAddr>, rows: seq<DiskRow>) {
    && (forall g :: g in next <==> Mentions(rows, g))
    && (forall g | g in next :: CursorLoaded(next[g], rows, g))
  }

  ghost predicate CursorLoaded(cursor: MaybeAddr, rows: seq<DiskRow>, g: Str) {
    if cursor.V4? then cursor.addr > 0 && IsHighest(rows, g, cursor.addr - 1)
    else forall i | 0 <= i < |rows| && rows[i].key.gateway == g :: rows[i].ip + 1 == ADDRESS_COUNT
  }

  ghost predicate OneToOne(rows: seq<DiskRow>) {
    forall i, j | 0 <= i < j < |rows| :: rows[i].ip != rows[j].ip && rows[i].key != rows[j].key
  }

  lemma LoadRowMaps(c: Cache, rows: seq<DiskRow>, row: DiskRow)
    requires Loaded(c, rows) && OneToOne(rows + [row])
    ensures var c', rows' := c.LoadRow(row), rows + [row];
            && (forall i | 0 <= i < |rows'| :: rows'[i].key in c'.byKey && c'.byKey[rows'[i].key] == rows'[i].ip)
            && (forall i | 0 <= i < |rows'| :: rows'[i].ip in c'.byIP && c'.byIP[rows'[i].ip] == rows'[i].key)
            && (forall k | k in c'.byKey :: DiskRow(k, c'.byKey[k]) in rows')
            && (forall ip | ip in c'.byIP :: DiskRow(c'.byIP[ip], ip) in rows')
  {
    var rows' := rows + [row];
    forall i | 0 <= i < |rows|
      ensures rows[i].key != row.key && rows[i].ip != row.ip
    {
      assert rows'[i] == rows[i] && rows'[|rows|] == row;
    }
  }

  lemma LoadRowCursor(c: Cache, rows: seq<DiskRow>, row: DiskRow, g: Str)
    requires CursorsLoaded(c.next, rows)
    ensures var next, rows' := c.LoadRow(row).next, rows + [row];
            && (g in next <==> Mentions(rows', g))
            && (g in next ==> CursorLoaded(next[g], rows', g))
  {
    var rows' := rows + [row];
    assert rows'[|rows|] == row;
    assert forall i | 0 <= i < |rows| :: rows'[i] == rows[i];
    if g in c.next && c.next[g].V4? {
      var i :| 0 <= i < |rows| && rows[i].key.gateway == g && rows[i].ip == c.next[g].addr - 1;
      assert rows'[i].key.gateway == g && rows'[i].ip == c.next[g].addr - 1;
    }
  }

  lemma {:induction false} LoadBuilds(rows: seq<DiskRow>)
    requires OneToOne(rows)
    ensures Loaded(EMPTY_CACHE.Load(rows), rows)
  {
    if rows != [] {
      var init, last := rows[..|rows| - 1], rows[|rows| - 1];
      assert rows == init + [last];
      LoadBuilds(init);
      var c := EMPTY_CACHE.Load(init);
      LoadRowMaps(c, init, last);
      var next := c.LoadRow(last).next;
      forall g
        ensures g in next <==> Mentions(rows, g)
        ensures g in next ==> CursorLoaded(next[g], rows, g)
      {
        LoadRowCursor(c, init, last, g);
      }
      assert CursorsLoaded(next, rows);
    }
  }

  ghost predicate AllAscending(pools: Pools) {
    forall g | g in pools :: Ascending(pools[g])
  }

  /** The place of an allocated name in its gateway's order. */
  lemma {:induction false} PlaceOf(c: Cache, pools: Pools, run: seq<Section>, k: Key) returns (j: nat)
    requires Enumerated(c, pools, run) && k in c.byKey
    ensures j < Given(pools[k.gateway], |Requested(run, k.gateway)|)
    ensures KthUsable(pools[k.gateway], j) == V4(c.byKey[k]) && Requested(run, k.gateway)[j] == k.domain
  {
    var g := k.gateway;
    assert GatewayState(c, g, pools[g], Requested(run, g)) && k == Key(g, k.domain);
    j :| 0 <= j < |Requested(run, g)| && Requested(run, g)[j] == k.domain;
  }

  /** Saved rows of a run are one-to-one and below the top address. */
  lemma {:induction false} SavedRows(c: Cache, pools: Pools, run: seq<Section>, rows: seq<DiskRow>)
    requires GoodPools(pools) && Enumerated(c, pools, run) && Lists(rows, c.byIP)
    ensures OneToOne(rows) && forall i | 0 <= i < |rows| :: rows[i].ip + 1 < ADDRESS_COUNT
  {
    forall i | 0 <= i < |rows|
      ensures rows[i].ip + 1 < ADDRESS_COUNT
    {
      var j := PlaceOf(c, pools, run, rows[i].key);
      CursorIsValid(pools[rows[i].key.gateway], j);
    }
  }

  /** The last address a gateway gave out is among the saved rows. */
  lemma {:induction false} LastIsSaved(c: Cache, pools: Pools, run: seq<Section>, rows: seq<DiskRow>, g: Str)
    returns (last: Addr)
    requires Enumerated(c, pools, run) && Lists(rows, c.byIP)
    requires g in pools && Given(pools[g], |Requested(run, g)|) > 0
    ensures V4(last) == KthUsable(pools[g], Given(pools[g], |Requested(run, g)|) - 1)
    ensures DiskIpOf(rows, g, last)
  {
    var names, m := Requested(run, g), Given(pools[g], |Requested(run, g)|) - 1;
    assert GatewayState(c, g, pools[g], names);
    var k := Key(g, names[m]);
    last := c.byKey[k];
    assert DiskRow(k, last) in rows;
  }

  lemma {:induction false} GatewayCursor(c: Cache, pools: Pools, run: seq<Section>, g: Str)
    requires Enumerated(c, pools, run) && g in pools
    ensures g in c.next <==> Given(pools[g], |Requested(run, g)|) > 0
    ensures g in c.next ==> c.next[g] == Next(KthUsable(pools[g], Given(pools[g], |Requested(run, g)|) - 1))
  {
    hide KthUsable, Capacity, Requested;
    assert GatewayState(c, g, pools[g], Requested(run, g));
  }

  /** Among ascending addresses the highest saved one is the last one given out. */
  lemma HighestIsLast(ps: seq<Prefix>, rows: seq<DiskRow>, g: Str, j: nat, m: nat, ip: Addr, last: Addr)
    requires Ascending(ps) && j <= m < Capacity(ps)
    requires KthUsable(ps, j) == V4(ip) && KthUsable(ps, m) == V4(last)
    requires IsHighest(rows, g, ip) && DiskIpOf(rows, g, last) && last + 1 < ADDRESS_COUNT
    ensures ip == last
  {
    if j < m {
      KthUsableAscends(ps, j, m);
    }
  }

  /** A saved address stands at some place of its gateway's order. */
  lemma {:induction false} PlaceOfSaved(c: Cache, pools: Pools, run: seq<Section>, rows: seq<DiskRow>, g: Str, ip: Addr)
    returns (j: nat)
    requires Enumerated(c, pools, run) && Lists(rows, c.byIP) && DiskIpOf(rows, g, ip)
    ensures g in pools && j < Given(pools[g], |Requested(run, g)|) && KthUsable(pools[g], j) == V4(ip)
  {
    var i :| 0 <= i < |rows| && rows[i].key.gateway == g && rows[i].ip == ip;
    j := PlaceOf(c, pools, run, rows[i].key);
  }

  lemma {:induction false} SameCursor(c: Cache, pools: Pools, run: seq<Section>, rows: seq<DiskRow>, g: Str, ip: Addr)
    requires GoodPools(pools) && AllAscending(pools) && Enumerated(c, pools, run) && Lists(rows, c.byIP)
    requires IsHighest(rows, g, ip)
    ensures g in c.next && c.next[g] == Next(V4(ip))
  {
    hide Enumerated, Lists;
    var j := PlaceOfSaved(c, pools, run, rows, g, ip);
    var last := LastIsSaved(c, pools, run, rows, g);
    CursorIsValid(pools[g], Given(pools[g], |Requested(run, g)|) - 1);
    GatewayCursor(c, pools, run, g);
    HighestIsLast(pools[g], rows, g, j, Given(pools[g], |Requested(run, g)|) - 1, ip, last);
  }

  lemma {:induction false} CursorIsMentioned(c: Cache, pools: Pools, run: seq<Section>, rows: seq<DiskRow>, g: Str)
    requires Enumerated(c, pools, run) && Lists(rows, c.byIP) && g in c.next
    ensures Mentions(rows, g)
  {
    GatewayCursor(c, pools, run, g);
    var last := LastIsSaved(c, pools, run, rows, g);
    assert DiskIpOf(rows, g, last);
  }

  /** One past the highest row is the cursor, for every gateway that has one. */
  ghost predicate CursorsFollowRows(next: map<Str, MaybeAddr>, rows: seq<DiskRow>) {
    && (forall g, ip | IsHighest(rows, g, ip) :: g in next && next[g] == Next(V4(ip)))
    && (forall g | g in next :: Mentions(rows, g))
  }

  lemma {:induction false} RunCursorsFollowRows(c: Cache, pools: Pools, run: seq<Section>, rows: seq<DiskRow>)
    requires GoodPools(pools) && AllAscending(pools) && Enumerated(c, pools, run) && Lists(rows, c.byIP)
    ensures CursorsFollowRows(c.next, rows)
  {
    forall g, ip | IsHighest(rows, g, ip)
      ensures g in c.next && c.next[g] == Next(V4(ip))
    {
      SameCursor(c, pools, run, rows, g, ip);
    }
    forall g | g in c.next
      ensures Mentions(rows, g)
    {
      CursorIsMentioned(c, pools, run, rows, g);
    }
  }

  /**
    Restart round trip: after any run on ascending smooth pools, loading the saved rows, in
    whatever order they were saved, rebuilds the allocator exactly, cursors included.
   */
  lemma RestartRoundTrip(pools: Pools, run: seq<Section>, rows: seq<DiskRow>)
    requires GoodPools(pools) && AllAscending(pools) && Served(pools, run)
    requires Lists(rows, After(pools, run).byIP)
    ensures EMPTY_CACHE.Load(rows) == After(pools, run)
  {
    var c, r := After(pools, run), EMPTY_CACHE.Load(rows);
    AllocatorEnumerates(pools, run);
    SavedRows(c, pools, run, rows);
    LoadBuilds(rows);
    SameMaps(c, r, rows);
    RunCursorsFollowRows(c, pools, run, rows);
    SameCursors(r.next, c.next, rows);
  }

  lemma SameCursors(loaded: map<Str, MaybeAddr>, next: map<Str, MaybeAddr>, rows: seq<DiskRow>)
    requires CursorsLoaded(loaded, rows) && CursorsFollowRows(next, rows)
    requires forall i | 0 <= i < |rows| :: rows[i].ip + 1 < ADDRESS_COUNT
    ensures loaded == next
  {
    forall g | g in loaded
      ensures g in next && next[g] == loaded[g]
    {
      assert Mentions(rows, g) && CursorLoaded(loaded[g], rows, g);
      assert IsHighest(rows, g, loaded[g].addr - 1);
    }
  }

  lemma SameMaps(c: Cache, r: Cache, rows: seq<DiskRow>)
    requires Inverse(c) && Lists(rows, c.byIP) && Loaded(r, rows)
    ensures r.byKey == c.byKey && r.byIP == c.byIP
  {
    forall k | k in c.byKey
      ensures k in r.byKey && r.byKey[k] == c.byKey[k]
    {
      assert DiskRow(c.byIP[c.byKey[k]], c.byKey[k]) in rows;
    }
    assert r.byKey == c.byKey;
    assert r.byIP == c.byIP;
  }

  // ----- allocations after a restart

  ghost predicate Saved(rows: seq<DiskRow>, k: Key) {
    exists r | 0 <= r < |rows| :: rows[r].key == k
  }

  ghost predicate Taken(rows: seq<DiskRow>, ip: MaybeAddr) {
    exists r | 0 <= r < |rows| :: V4(rows[r].ip) == ip
  }

  /** Continuing after the load is continuing the saved run. */
  lemma ContinuesRun(pools: Pools, run: seq<Section>, more: seq<Section>, i: nat)
    requires Served(pools, run) && Served(pools, more) && i < |more|
    ensures AnswerFrom(After(pools, run), pools, more, i) == Answer(pools, run + more, |run| + i)
  {
    FromConcat(EMPTY_CACHE, pools, run, more[..i]);
    assert (run + more)[..|run| + i] == run + more[..i];
  }

  /** A name whose place holds a saved address was itself saved with it. */
  lemma PlaceIsSaved(
    c: Cache, pools: Pools, run: seq<Section>, all: seq<Section>, rows: seq<DiskRow>, r: nat, k: Key, j: nat)
    requires GoodPools(pools) && Enumerated(c, pools, run) && Lists(rows, c.byIP) && r < |rows|
    requires k.gateway in pools && Requested(run, k.gateway) <= Requested(all, k.gateway)
    requires j < |Requested(all, k.gateway)| && Requested(all, k.gateway)[j] == k.domain
    requires KthUsable(pools[k.gateway], j) == V4(rows[r].ip)
    ensures rows[r].key == k
  {
    hide KthUsable, Capacity, GatewayState;
    var l := rows[r].key;
    var t := PlaceOf(c, pools, run, l);
    KthUsableBeyond(pools[k.gateway], j);
    if l.gateway == k.gateway {
      KthUsableInjective(pools[k.gateway], j, t);
    } else {
      UnsharedAddresses(pools[k.gateway], pools[l.gateway], j, t);
    }
  }

  /** On ascending pools no allocation after a restart, however late, gives a new name an address that was saved. */
  lemma FreshAfterRestart(pools: Pools, run: seq<Section>, rows: seq<DiskRow>, more: seq<Section>, i: nat)
    requires GoodPools(pools) && AllAscending(pools) && Served(pools, run) && Served(pools, more)
    requires Lists(rows, After(pools, run).byIP)
    requires i < |more| && more[i].WriteSection? && !Saved(rows, more[i].key)
    ensures !Taken(rows, AnswerFrom(EMPTY_CACHE.Load(rows), pools, more, i))
  {
    hide KthUsable, Capacity, After, AnswerFrom, Answer, Lists, Enumerated;
    var all, k, g := run + more, more[i].key, more[i].key.gateway;
    RestartRoundTrip(pools, run, rows);
    ContinuesRun(pools, run, more, i);
    AllocatorEnumerates(pools, run);
    var j := WrittenPlace(all, |run| + i);
    AnswersFollowPlace(pools, all, |run| + i, j);
    assert all[..|run|] == run;
    NamesGrow(all, |run|, g);
    if Taken(rows, KthUsable(pools[g], j)) {
      var r :| 0 <= r < |rows| && V4(rows[r].ip) == KthUsable(pools[g], j);
      PlaceIsSaved(After(pools, run), pools, run, all, rows, r, k, j);
    }
  }

  /** A written name has a place. */
  lemma WrittenPlace(run: seq<Section>, i: nat) returns (j: nat)
    requires i < |run| && run[i].WriteSection?
    ensures var k := run[i].key; j < |Requested(run, k.gateway)| && Requested(run, k.gateway)[j] == k.domain
  {
    var k := run[i].key;
    assert run[..i + 1][..i] == run[..i];
    assert k.domain in Requested(run[..i + 1], k.gateway);
    NamesGrow(run, i + 1, k.gateway);
    j :| 0 <= j < |Requested(run[..i + 1], k.gateway)| && Requested(run[..i + 1], k.gateway)[j] == k.domain;
  }

  /** The highest of the first blocks that hand out something. */
  lemma {:induction false} HighestBlock(ps: seq<Prefix>, i: nat, j: nat) returns (m: nat)
    requires i < j <= |ps| && Size(ps[i]) > 1
    ensures m < j && Size(ps[m]) > 1
    ensures forall t | 0 <= t < j && Size(ps[t]) > 1 :: End(ps[t]) <= End(ps[m])
    decreases j
  {
    hide Size, End;
    if i == j - 1 && forall t | 0 <= t < i :: Size(ps[t]) <= 1 {
      m := i;
    } else {
      var i' :| 0 <= i' < j - 1 && Size(ps[i']) > 1;
      m := HighestBlock(ps, i', j - 1);
      if Size(ps[j - 1]) > 1 && End(ps[j - 1]) > End(ps[m]) {
        m := j - 1;
      }
    }
  }

  /** All that the first Before(j) + 1 names got lies at or below the end of the highest block before j. */
  lemma GivenBelow(ps: seq<Prefix>, i: nat, j: nat, m: nat, t: nat)
    requires PairwiseDisjoint(ps)
    requires i < j < |ps| && Size(ps[i]) > 1 && Size(ps[j]) > 1 && End(ps[i]) > Base(ps[j])
    requires m < j && forall b | 0 <= b < j && Size(ps[b]) > 1 :: End(ps[b]) <= End(ps[m])
    requires t <= Before(ps, j) && t < Capacity(ps)
    ensures KthUsable(ps, t).V4? && KthUsable(ps, t).addr < End(ps[m])
  {
    hide KthUsable, ClearLow, Pow2;
    var r, o := Locate(ps, t);
    KthUsableAt(ps, r, o);
    BeforeStep(ps, j);
    if r > j {
      BeforeMonotone(ps, j + 1, r);
    }
    assert Disjoint(ps[i], ps[j]);
    assert End(ps[i]) <= End(ps[m]);
  }

  lemma {:induction false} ListingExists(m: map<Addr, Key>) returns (rows: seq<DiskRow>)
    ensures Lists(rows, m)
    decreases |m|
  {
    rows := [];
    if m != map[] {
      hide Lists;
      var ip :| ip in m;
      assert m.Keys == (m - {ip}).Keys + {ip};
      rows := ListingExists(m - {ip});
      ListingExtended(rows, m, ip);
      rows := rows + [DiskRow(m[ip], ip)];
    } else {
      assert Lists([], map[]);
    }
  }

  lemma ListingExtended(rows: seq<DiskRow>, m: map<Addr, Key>, ip: Addr)
    requires ip in m && Lists(rows, m - {ip})
    ensures Lists(rows + [DiskRow(m[ip], ip)], m)
  {
    var all := rows + [DiskRow(m[ip], ip)];
    forall a | a in m
      ensures DiskRow(m[a], a) in all
    {
      if a != ip {
        assert a in m - {ip};
      }
    }
  }

  /** The load sets the cursor one past the highest row of the gateway. */
  lemma LoadedCursor(rows: seq<DiskRow>, g: Str, ip: Addr)
    requires OneToOne(rows) && IsHighest(rows, g, ip)
    ensures EMPTY_CACHE.Load(rows).Cursor(g) == V4(ip + 1)
  {
    hide OneToOne, Cache.Load;
    LoadBuilds(rows);
    var next := EMPTY_CACHE.Load(rows).next;
    assert Mentions(rows, g) && CursorLoaded(next[g], rows, g);
  }

  /** After the first Before(j) + 1 names of a descending list, the load leaves the cursor at the end of an earlier block. */
  lemma DescendingCursor(pools: Pools, run: seq<Section>, rows: seq<DiskRow>, g: Str, i: nat, j: nat, m: nat)
    requires GoodPools(pools) && g in pools && Served(pools, run) && Lists(rows, After(pools, run).byIP)
    requires var ps := pools[g];
             && i < j < |ps| && Size(ps[i]) > 1 && Size(ps[j]) > 1 && End(ps[i]) > Base(ps[j])
             && m < j && Size(ps[m]) > 1 && (forall b | 0 <= b < j && Size(ps[b]) > 1 :: End(ps[b]) <= End(ps[m]))
             && |Requested(run, g)| == Before(ps, j) + 1
    ensures End(pools[g][m]) < ADDRESS_COUNT
    ensures EMPTY_CACHE.Load(rows).Cursor(g) == V4(End(pools[g][m]))
    ensures Before(pools[g], m + 1) <= Before(pools[g], j) < Capacity(pools[g])
  {
    hide KthUsable, Capacity, ClearLow, Pow2, After, Requested, Lists, Enumerated;
    var ps, c := pools[g], After(pools, run);
    AllocatorEnumerates(pools, run);
    SavedRows(c, pools, run, rows);
    KthUsableAt(ps, j, 0);
    KthUsableAt(ps, m, Size(ps[m]) - 2);
    BeforeStep(ps, m);
    BeforeMonotone(ps, m + 1, j);
    assert SmoothAt(ps, m);
    EndInRange(ps[m]);
    var top: Addr := End(ps[m]) - 1;
    PlaceSaved(c, pools, run, rows, g, Before(ps, m) + Size(ps[m]) - 2);
    forall r | 0 <= r < |rows| && rows[r].key.gateway == g
      ensures rows[r].ip <= top
    {
      var t := PlaceOfSaved(c, pools, run, rows, g, rows[r].ip);
      GivenBelow(ps, i, j, m, t);
    }
    LoadedCursor(rows, g, top);
  }

  /** Every address given out is among the rows. */
  lemma PlaceSaved(c: Cache, pools: Pools, run: seq<Section>, rows: seq<DiskRow>, g: Str, t: nat)
    requires Enumerated(c, pools, run) && Lists(rows, c.byIP) && g in pools
    requires t < |Requested(run, g)| && t < Capacity(pools[g])
    ensures KthUsable(pools[g], t).V4? && DiskIpOf(rows, g, KthUsable(pools[g], t).addr)
  {
    hide KthUsable, Capacity, Requested;
    assert GatewayState(c, g, pools[g], Requested(run, g));
    var k := Key(g, Requested(run, g)[t]);
    assert DiskRow(k, c.byKey[k]) in rows;
  }

  /** The first n sample names of a gateway, saved; the next one is new. */
  lemma SavedSample(pools: Pools, g: Str, n: nat) returns (run: seq<Section>, rows: seq<DiskRow>)
    requires GoodPools(pools) && g in pools && n <= ADDRESS_COUNT
    ensures ValidRun(pools, run) && Lists(rows, After(pools, run).byIP)
    ensures |Requested(run, g)| == n && !Saved(rows, Key(g, SampleName(n)))
  {
    assert Requested([], g) == [];
    hide After, Requested, Requests, SampleName, ValidName, Lists, Saved, GoodPools;
    run := Requests(g, n);
    RequestsValid(pools, g, n);
    rows := ListingExists(After(pools, run).byIP);
    assert [] + run == run;
    NamesOfRequests([], g, n);
    NewNameNotSaved(pools, run, rows, g, n);
  }

  /** On a list that is not ascending some restart makes the very next new name take a saved address. */
  lemma DescendingReuses(pools: Pools, g: Str, i: nat, j: nat)
    returns (run: seq<Section>, rows: seq<DiskRow>, k: Key)
    requires GoodPools(pools) && Descends(pools, g, i, j)
    ensures ValidRun(pools, run) && ValidRun(pools, [WriteSection(k)]) && Lists(rows, After(pools, run).byIP)
    ensures !Saved(rows, k) && k.gateway == g && g in pools
    ensures Taken(rows, EMPTY_CACHE.Load(rows).Allocate(k, pools[g]).1)
  {
    hide KthUsable, Capacity, ClearLow, Pow2, After, Requested, SampleName, ValidName, Lists, Saved, Taken, Cache.Allocate;
    var ps, n := pools[g], Before(pools[g], j) + 1;
    KthUsableAt(ps, j, 0);
    CapacityBound(ps);
    run, rows := SavedSample(pools, g, n);
    k := Key(g, SampleName(n));
    SampleNameValid(n);
    var m := HighestBlock(ps, i, j);
    DescendingCursor(pools, run, rows, g, i, j, m);
    ReusesAfterBlock(pools, run, rows, g, m, k);
  }

  lemma NewNameNotSaved(pools: Pools, run: seq<Section>, rows: seq<DiskRow>, g: Str, n: nat)
    requires GoodPools(pools) && g in pools && Served(pools, run) && Lists(rows, After(pools, run).byIP)
    requires |Requested(run, g)| == n && forall i | 0 <= i < n :: Requested(run, g)[i] == SampleName(i)
    ensures !Saved(rows, Key(g, SampleName(n)))
  {
    hide SampleName, Requested, After;
    AllocatorEnumerates(pools, run);
    SampleNameIsNew(Requested(run, g));
    assert GatewayState(After(pools, run), g, pools[g], Requested(run, g));
  }

  lemma NotLoaded(rows: seq<DiskRow>, k: Key)
    requires OneToOne(rows) && !Saved(rows, k)
    ensures k !in EMPTY_CACHE.Load(rows).byKey
  {
    LoadBuilds(rows);
  }

  /** With the cursor at the end of a finished block a new name gets the address after it, which is saved if it was given out. */
  lemma ReusesAfterBlock(pools: Pools, run: seq<Section>, rows: seq<DiskRow>, g: Str, m: nat, k: Key)
    requires GoodPools(pools) && g in pools && Served(pools, run) && Lists(rows, After(pools, run).byIP)
    requires m < |pools[g]| && Size(pools[g][m]) > 1 && End(pools[g][m]) < ADDRESS_COUNT
    requires EMPTY_CACHE.Load(rows).Cursor(g) == V4(End(pools[g][m]))
    requires k.gateway == g && !Saved(rows, k)
    requires Before(pools[g], m + 1) < |Requested(run, g)| && Before(pools[g], m + 1) < Capacity(pools[g])
    ensures Taken(rows, EMPTY_CACHE.Load(rows).Allocate(k, pools[g]).1)
  {
    hide KthUsable, Capacity, ClearLow, Pow2, After, Requested, Enumerated, SelectAddr, FirstFrom, Lists, Saved, OneToOne;
    var ps, c := pools[g], After(pools, run);
    AllocatorEnumerates(pools, run);
    SavedRows(c, pools, run, rows);
    NotLoaded(rows, k);
    assert SmoothAt(ps, m);
    LeavingExactIffSmooth(ps, m, V4(End(ps[m])));
    FirstFromIsKth(ps, m + 1);
    PlaceSaved(c, pools, run, rows, g, Before(ps, m + 1));
  }

  /** Saving and loading is the identity, after every run and for rows in every order. */
  ghost predicate RestartsExactly(pools: Pools) {
    forall run: seq<Section>, rows: seq<DiskRow> | ValidRun(pools, run) && Lists(rows, After(pools, run).byIP) ::
      EMPTY_CACHE.Load(rows) == After(pools, run)
  }

  /** After every restart and every continuation, no new name is ever given a saved address. */
  ghost predicate RestartsFresh(pools: Pools) {
    forall run: seq<Section>, rows: seq<DiskRow>, more: seq<Section>
      | ValidRun(pools, run) && Lists(rows, After(pools, run).byIP) && ValidRun(pools, more) ::
      FreshAfter(pools, rows, more)
  }

  ghost predicate FreshAfter(pools: Pools, rows: seq<DiskRow>, more: seq<Section>)
    requires Served(pools, more)
  {
    forall i | 0 <= i < |more| && more[i].WriteSection? && !Saved(rows, more[i].key) ::
      !Taken(rows, AnswerFrom(EMPTY_CACHE.Load(rows), pools, more, i))
  }

  /** A pool whose blocks i and j are in descending order. */
  ghost predicate Descends(pools: Pools, g: Str, i: nat, j: nat) {
    g in pools &&
    var ps := pools[g];
    i < j < |ps| && Size(ps[i]) > 1 && Size(ps[j]) > 1 && End(ps[i]) > Base(ps[j])
  }

  lemma DescendingNotFresh(pools: Pools, g: Str, i: nat, j: nat)
    requires GoodPools(pools) && Descends(pools, g, i, j)
    ensures !RestartsFresh(pools) && !RestartsExactly(pools)
  {
    hide ValidRun, Lists, After, Taken, Saved, GoodPools, Descends, AnswerFrom, Cache.Allocate;
    var run, rows, k := DescendingReuses(pools, g, i, j);
    SingleAnswer(pools, rows, k);
    SavedIsNotFree(pools, run, rows, k);
    var more := [WriteSection(k)];
    assert more[0] == WriteSection(k);
    assert !FreshAfter(pools, rows, more);
  }

  lemma SingleAnswer(pools: Pools, rows: seq<DiskRow>, k: Key)
    requires k.gateway in pools
    ensures Served(pools, [WriteSection(k)])
    ensures AnswerFrom(EMPTY_CACHE.Load(rows), pools, [WriteSection(k)], 0) ==
            EMPTY_CACHE.Load(rows).Allocate(k, pools[k.gateway]).1
  {
    assert [WriteSection(k)][..0] == [];
  }

  lemma SavedIffAllocated(c: Cache, rows: seq<DiskRow>, k: Key)
    requires Inverse(c) && Lists(rows, c.byIP)
    ensures Saved(rows, k) <==> k in c.byKey
  {
    if k in c.byKey {
      assert DiskRow(c.byIP[c.byKey[k]], c.byKey[k]) in rows;
    }
  }

  /** Had the load restored the state, the address would have been free. */
  lemma SavedIsNotFree(pools: Pools, run: seq<Section>, rows: seq<DiskRow>, k: Key)
    requires GoodPools(pools) && ValidRun(pools, run) && Lists(rows, After(pools, run).byIP) && k.gateway in pools
    requires !Saved(rows, k) && Taken(rows, EMPTY_CACHE.Load(rows).Allocate(k, pools[k.gateway]).1)
    ensures EMPTY_CACHE.Load(rows) != After(pools, run)
  {
    hide Cache.Allocate, After, EachEnumerated;
    AllocatorEnumerates(pools, run);
    SavedIffAllocated(After(pools, run), rows, k);
    AllocatesFree(pools, run, k);
  }

  /**
    Restart, exactly: loading gives back the saved state after every run if and only if every
    pool lists its blocks in ascending order, and the same condition decides whether allocations
    after restarts are always fresh.
   */
  lemma {:induction false} RestartIffAscending(pools: Pools)
    requires GoodPools(pools)
    ensures RestartsExactly(pools) <==> AllAscending(pools)
    ensures RestartsFresh(pools) <==> AllAscending(pools)
  {
    if AllAscending(pools) {
      forall run: seq<Section>, rows: seq<DiskRow> | ValidRun(pools, run) && Lists(rows, After(pools, run).byIP)
        ensures EMPTY_CACHE.Load(rows) == After(pools, run)
      {
        RestartRoundTrip(pools, run, rows);
      }
      forall run: seq<Section>, rows: seq<DiskRow>, more: seq<Section>
        | ValidRun(pools, run) && Lists(rows, After(pools, run).byIP) && ValidRun(pools, more)
        ensures FreshAfter(pools, rows, more)
      {
        forall i | 0 <= i < |more| && more[i].WriteSection? && !Saved(rows, more[i].key)
          ensures !Taken(rows, AnswerFrom(EMPTY_CACHE.Load(rows), pools, more, i))
        {
          FreshAfterRestart(pools, run, rows, more, i);
        }
      }
    } else {
      var g :| g in pools && !Ascending(pools[g]);
      var ps := pools[g];
      var i, j :| 0 <= i < j < |ps| && Size(ps[i]) > 1 && Size(ps[j]) > 1 && End(ps[i]) > Base(ps[j]);
      DescendingNotFresh(pools, g, i, j);
    }
  }

  /** 10.254.1.0/30 listed before 10.254.0.0/30: after a restart the fifth name takes the fourth one's address. */
  lemma {:induction false} DescendingBlocksReuseAddresses(g: Str, names: seq<Str>)
    requires |names| == 5 && forall i, j | 0 <= i < j < 5 :: names[i] != names[j]
    ensures var ps := [Block(0x0AFE0100, 30), Block(0x0AFE0000, 30)];
            var rows := [
              DiskRow(Key(g, names[0]), 0x0AFE0101), DiskRow(Key(g, names[1]), 0x0AFE0102),
              DiskRow(Key(g, names[2]), 0x0AFE0103), DiskRow(Key(g, names[3]), 0x0AFE0001)];
            && (forall i | 0 <= i < 4 :: V4(rows[i].ip) == KthUsable(ps, i))
            && EMPTY_CACHE.Load(rows).Allocate(Key(g, names[4]), ps).1 == V4(rows[3].ip)
  {
    var p: Prefix, q: Prefix := Block(0x0AFE0100, 30), Block(0x0AFE0000, 30);
    var ps := [p, q];
    var rows := [
      DiskRow(Key(g, names[0]), 0x0AFE0101), DiskRow(Key(g, names[1]), 0x0AFE0102),
      DiskRow(Key(g, names[2]), 0x0AFE0103), DiskRow(Key(g, names[3]), 0x0AFE0001)];
    assert Size(p) == Size(q) == 4 by { assert Pow2(2) == 4; }
    assert Base(p) == p.addr by { assert ClearLow(p.addr / 4, 0) == p.addr / 4; }
    assert Base(q) == q.addr by { assert ClearLow(q.addr / 4, 0) == q.addr / 4; }
    assert ps[1..] == [q];
    assert forall i | 0 <= i < 4 :: V4(rows[i].ip) == KthUsable(ps, i);
    LoadedFour(rows, g, names[4]);
    SelectAtGap(ps, 0, 0x0AFE0104);
  }

  lemma LoadedFour(rows: seq<DiskRow>, g: Str, n: Str)
    requires |rows| == 4 && OneToOne(rows)
    requires forall i | 0 <= i < 4 :: rows[i].key.gateway == g && rows[i].key.domain != n
    requires rows[2].ip + 1 < ADDRESS_COUNT && forall i | 0 <= i < 4 :: rows[i].ip <= rows[2].ip
    ensures EMPTY_CACHE.Load(rows).Cursor(g) == V4(rows[2].ip + 1) && Key(g, n) !in EMPTY_CACHE.Load(rows).byKey
  {
    assert DiskIpOf(rows, g, rows[2].ip);
    LoadedCursor(rows, g, rows[2].ip);
    NotLoaded(rows, Key(g, n));
  }
}
