/**
  What interleaved operations do to the caches. An entry is backed when the table row of its
  name has its address and lives at least as long. At the grain of single statements this can
  fail (`StaleRememberSharesAddress`); the lemmas here say for every interleaving where an
  entry comes from, and exactly when and how long it is backed.
 */
module CacheRaces {
  import opened Addresses
  import opened Allocators
  import opened Basics
  import opened RegistryInvariant
  import opened StatementRuns
  import opened Tables

  // ----- where cache entries come from

  ghost predicate CachesTwoWay(s: State) {
    forall c | 0 <= c < |s.caches| :: TwoWay(s.caches[c])
  }

  lemma SectionKeepsTwoWay(c: Cache, op: Operation)
    requires TwoWay(c)
    ensures TwoWay(CacheAfter(c, op))
  {
    match op.phase
    case Remembering(found, _) => RememberKeepsTwoWay(c, found.key, found.ip, op.Expiry());
    case Probing =>
    case Confirming(_) =>
    case _ =>
  }

  lemma RememberKeepsTwoWay(c: Cache, k: Key, ip: Addr, expiry: int)
    requires TwoWay(c)
    ensures TwoWay(c.RememberUntil(k, ip, expiry))
  {
  }

  /** Under every interleaving the two maps of every cache stay inverse. */
  lemma {:induction false} AlwaysTwoWay(s: State, run: seq<Action>, t: nat)
    requires CachesTwoWay(s) && t <= |run|
    ensures CachesTwoWay(At(s, run, t)) && |At(s, run, t).caches| == |s.caches|
  {
    if t == 0 {
      assert run[..0] == [];
    } else {
      AlwaysTwoWay(s, run, t - 1);
      AtStep(s, run, t - 1);
      var before, a := At(s, run, t - 1), run[t - 1];
      if a.Advance? && Enabled(before, a.op) {
        var op := before.ops[a.op];
        SectionKeepsTwoWay(before.caches[op.allocator], op);
      }
    }
  }

  /** An operation in this phase enters this mapping in a cache, for its lease. */
  ghost predicate Enters(op: Operation, c: nat, k: Key, ip: Addr, expiry: int) {
    && op.phase.Remembering? && op.phase.found.key == k && op.phase.found.ip == ip
    && op.allocator == c && op.Expiry() == expiry
  }

  ghost predicate HasEntry(c: Cache, k: Key, ip: Addr, expiry: int) {
    ip in c.byIP && c.byIP[ip] == k && ip in c.expires && c.expires[ip] == expiry
  }

  lemma EntryAppears(s: State, i: nat, c: nat, k: Key, ip: Addr, expiry: int)
    requires Enabled(s, i) && c < |s.caches| && TwoWay(s.caches[c])
    requires HasEntry(StepOf(s, i).caches[c], k, ip, expiry) && !HasEntry(s.caches[c], k, ip, expiry)
    ensures Enters(s.ops[i], c, k, ip, expiry)
  {
  }

  /** Every cache entry of a run was entered by the Remembering section of some operation, with its clock and lease. */
  lemma {:induction false} EntryOrigin(s: State, run: seq<Action>, u: nat, c: nat, k: Key, ip: Addr, expiry: int)
    returns (r: nat, i: nat)
    requires CachesTwoWay(s) && u <= |run| && c < |s.caches| && s.caches[c] == EMPTY_CACHE
    requires c < |At(s, run, u).caches| && HasEntry(At(s, run, u).caches[c], k, ip, expiry)
    ensures r < u && Acts(s, run, r, i) && Enters(At(s, run, r).ops[i], c, k, ip, expiry)
    decreases u
  {
    assert run[..0] == [];
    AlwaysTwoWay(s, run, u - 1);
    AtStep(s, run, u - 1);
    var before, a := At(s, run, u - 1), run[u - 1];
    if HasEntry(before.caches[c], k, ip, expiry) {
      r, i := EntryOrigin(s, run, u - 1, c, k, ip, expiry);
    } else {
      r, i := u - 1, a.op;
      EntryAppears(before, i, c, k, ip, expiry);
    }
  }

  // ----- how long a row backs an entry

  /** A DELETE at or past the expiry of k's row, or an UPDATE of it to less than e. */
  predicate Breaks(rows: Table, op: Operation, k: Key, e: int) {
    || (op.phase.Deleting? && k in rows && rows[k].expiry <= op.now)
    || (op.phase.Updating? && op.phase.found.key == k && op.Expiry() < e)
  }

  lemma BackedKept(rows: Table, op: Operation, k: Key, ip: Addr, e: int)
    requires Backed(rows, k, ip, e)
    ensures Backed(RowsAfter(rows, op), k, ip, e) <==> !Breaks(rows, op, k, e)
  {
  }

  ghost predicate BrokenAt(s: State, run: seq<Action>, x: nat, k: Key, e: int)
    requires x < |run|
  {
    && run[x].Advance? && Enabled(At(s, run, x), run[x].op)
    && Breaks(At(s, run, x).rows, At(s, run, x).ops[run[x].op], k, e)
  }

  ghost predicate Unbroken(s: State, run: seq<Action>, v: nat, w: nat, k: Key, e: int)
    requires v <= w <= |run|
  {
    forall x | v <= x < w :: !BrokenAt(s, run, x, k, e)
  }

  ghost predicate BackedAt(s: State, run: seq<Action>, x: nat, k: Key, ip: Addr, e: int)
    requires x <= |run|
  {
    Backed(At(s, run, x).rows, k, ip, e)
  }

  ghost predicate BackedThrough(s: State, run: seq<Action>, v: nat, w: nat, k: Key, ip: Addr, e: int)
    requires v <= w <= |run|
  {
    forall x | v <= x <= w :: BackedAt(s, run, x, k, ip, e)
  }

  lemma BackedNext(s: State, run: seq<Action>, x: nat, k: Key, ip: Addr, e: int)
    requires x < |run| && BackedAt(s, run, x, k, ip, e)
    ensures BackedAt(s, run, x + 1, k, ip, e) <==> !BrokenAt(s, run, x, k, e)
  {
    AtStep(s, run, x);
    var before, a := At(s, run, x), run[x];
    if a.Advance? && Enabled(before, a.op) {
      BackedKept(before.rows, before.ops[a.op], k, ip, e);
    }
  }

  /** A backed mapping stays backed exactly until a statement that breaks it. */
  lemma {:induction false} StaysBacked(s: State, run: seq<Action>, v: nat, w: nat, k: Key, ip: Addr, e: int)
    requires v <= w <= |run| && BackedAt(s, run, v, k, ip, e)
    ensures BackedThrough(s, run, v, w, k, ip, e) <==> Unbroken(s, run, v, w, k, e)
    decreases w
  {
    hide BackedAt, BrokenAt;
    if v < w {
      StaysBacked(s, run, v, w - 1, k, ip, e);
      if BackedThrough(s, run, v, w - 1, k, ip, e) {
        assert BackedAt(s, run, w - 1, k, ip, e);
        BackedNext(s, run, w - 1, k, ip, e);
        assert BackedAt(s, run, w, k, ip, e) <==> !BrokenAt(s, run, w - 1, k, e);
      }
    }
  }

  // ----- entries found by a SELECT and renewed by an UPDATE

  /** Action u is the UPDATE by which operation i renews its result. */
  ghost predicate Updates(s: State, run: seq<Action>, u: nat, i: nat, found: Found)
    requires u < |run|
  {
    Acts(s, run, u, i) && At(s, run, u).ops[i].phase == Updating(found)
  }

  /** The UPDATE backs the mapping for the operation's lease exactly when the row still has the address. */
  lemma UpdateBacks(s: State, run: seq<Action>, u: nat, i: nat, found: Found)
    requires u < |run| && Updates(s, run, u, i, found)
    ensures BackedAt(s, run, u + 1, found.key, found.ip, At(s, run, u).ops[i].Expiry()) <==>
            HasAddress(At(s, run, u).rows, found.key, found.ip)
  {
    AtStep(s, run, u);
  }

  /** A row that lives from the deciding SELECT to the UPDATE still has the address. */
  lemma LivingRowHasAddress(s: State, run: seq<Action>, t: nat, u: nat, i: nat, found: Found)
    requires UniqueIps(s.rows) && t <= u < |run| && Decides(s, run, t, i, found)
    requires RowLives(s, run, t, u, found.key)
    ensures HasAddress(At(s, run, u).rows, found.key, found.ip)
  {
    DecisionReadsRow(s, run, t, i, found);
    RowKeepsAddress(s, run, t, u, found.key);
  }

  /**
    The entry of an operation that found a row and renewed it is backed in every state from its
    UPDATE on to w exactly when the row still had the address at the UPDATE and no later
    statement breaks it; a row that lives from the SELECT to the UPDATE has it.
   */
  lemma {:induction false} RenewedEntryBackedIff(s: State, run: seq<Action>, t: nat, u: nat, w: nat, i: nat, found: Found)
    requires UniqueIps(s.rows) && t < u < w <= |run|
    requires Decides(s, run, t, i, found) && Updates(s, run, u, i, found)
    ensures var e := At(s, run, u).ops[i].Expiry();
            BackedThrough(s, run, u + 1, w, found.key, found.ip, e) <==>
            HasAddress(At(s, run, u).rows, found.key, found.ip) && Unbroken(s, run, u + 1, w, found.key, e)
    ensures RowLives(s, run, t, u, found.key) ==> HasAddress(At(s, run, u).rows, found.key, found.ip)
  {
    hide Decides, BackedAt, RowLives, HasAddress;
    var e := At(s, run, u).ops[i].Expiry();
    UpdateBacks(s, run, u, i, found);
    if BackedAt(s, run, u + 1, found.key, found.ip, e) {
      StaysBacked(s, run, u + 1, w, found.key, found.ip, e);
    }
    if RowLives(s, run, t, u, found.key) {
      LivingRowHasAddress(s, run, t, u, i, found);
    }
  }

  // ----- entries of the inserting half, which is not followed by an UPDATE

  lemma SelectBacks(s: State, run: seq<Action>, t: nat, i: nat, found: Found, e: int)
    requires t < |run| && Decides(s, run, t, i, found)
    ensures BackedAt(s, run, t + 1, found.key, found.ip, e) <==> BackedAt(s, run, t, found.key, found.ip, e)
  {
    DecisionReadsRow(s, run, t, i, found);
    AtStep(s, run, t);
  }

  /**
    The entry of an operation that inserted, or lost the insertion to another, is backed from
    its deciding SELECT on exactly when the row it read lives as long as the entry and no later
    statement breaks it.
   */
  lemma {:induction false} CreatedEntryBackedIff(s: State, run: seq<Action>, t: nat, w: nat, i: nat, found: Found)
    requires t < w <= |run| && Decides(s, run, t, i, found) && At(s, run, t).ops[i].phase.Reselecting?
    ensures var e := At(s, run, t).ops[i].Expiry();
            BackedThrough(s, run, t + 1, w, found.key, found.ip, e) <==>
            BackedAt(s, run, t, found.key, found.ip, e) && Unbroken(s, run, t + 1, w, found.key, e)
  {
    hide BackedAt;
    var e := At(s, run, t).ops[i].Expiry();
    SelectBacks(s, run, t, i, found, e);
    if BackedAt(s, run, t + 1, found.key, found.ip, e) {
      StaysBacked(s, run, t + 1, w, found.key, found.ip, e);
    }
  }

  // ----- entries of any kind

  /**
    The entry of any operation, also one answered from the cache that enters its result again
    and skips the renewal, is backed from its Remembering section on exactly when it is backed
    at that section and no later statement breaks it.
   */
  lemma {:induction false} RememberedEntryBackedIff(s: State, run: seq<Action>, r: nat, w: nat, i: nat)
    requires r < w <= |run| && Acts(s, run, r, i) && At(s, run, r).ops[i].phase.Remembering?
    ensures var op := At(s, run, r).ops[i];
            var found := op.phase.found;
            BackedThrough(s, run, r + 1, w, found.key, found.ip, op.Expiry()) <==>
            BackedAt(s, run, r, found.key, found.ip, op.Expiry()) && Unbroken(s, run, r + 1, w, found.key, op.Expiry())
  {
    var op := At(s, run, r).ops[i];
    var found := op.phase.found;
    AtStep(s, run, r);
    assert At(s, run, r + 1).rows == At(s, run, r).rows;
    hide At;
    if BackedAt(s, run, r + 1, found.key, found.ip, op.Expiry()) {
      StaysBacked(s, run, r + 1, w, found.key, found.ip, op.Expiry());
    }
  }

  // ----- a condition on the clocks alone

  /** DELETEs run with clocks before `bound`, and UPDATEs of k write at least e. */
  predicate Mild(op: Operation, k: Key, bound: int, e: int) {
    && (op.phase.Deleting? ==> op.now < bound)
    && (op.phase.Updating? && op.phase.found.key == k ==> op.Expiry() >= e)
  }

  ghost predicate MildBetween(s: State, run: seq<Action>, v: nat, w: nat, k: Key, bound: int, e: int)
    requires v <= w <= |run|
  {
    forall x | v <= x < w && run[x].Advance? && Enabled(At(s, run, x), run[x].op) ::
      Mild(At(s, run, x).ops[run[x].op], k, bound, e)
  }

  lemma MildStep(s: State, run: seq<Action>, x: nat, k: Key, ip: Addr, d: int, bound: int, e: int)
    requires x < |run| && bound <= d <= e && BackedAt(s, run, x, k, ip, d)
    requires run[x].Advance? && Enabled(At(s, run, x), run[x].op) ==> Mild(At(s, run, x).ops[run[x].op], k, bound, e)
    ensures BackedAt(s, run, x + 1, k, ip, d)
  {
    BackedNext(s, run, x, k, ip, d);
  }

  lemma {:induction false} MildKeepsBacked(
    s: State, run: seq<Action>, v: nat, w: nat, k: Key, ip: Addr, d: int, bound: int, e: int)
    requires v <= w <= |run| && bound <= d <= e
    requires BackedAt(s, run, v, k, ip, d) && MildBetween(s, run, v, w, k, bound, e)
    ensures BackedThrough(s, run, v, w, k, ip, d)
    decreases w
  {
    hide BackedAt, Mild, Enabled, At;
    if v < w {
      MildKeepsBacked(s, run, v, w - 1, k, ip, d, bound, e);
      MildStep(s, run, w - 1, k, ip, d, bound, e);
    }
  }

  /**
    Coherence under concurrency: when no DELETE up to w runs with a clock that has reached the
    expiry d of the row an operation selected or the expiry of its entry, and no UPDATE of the
    name writes less than that entry's expiry, the entry is backed from its UPDATE on to w.
   */
  lemma {:induction false} MildRunsKeepEntriesBacked(
    s: State, run: seq<Action>, t: nat, u: nat, w: nat, i: nat, found: Found, d: int)
    requires t < u < w <= |run| && Decides(s, run, t, i, found) && Updates(s, run, u, i, found)
    requires BackedAt(s, run, t, found.key, found.ip, d)
    requires var e := At(s, run, u).ops[i].Expiry();
             MildBetween(s, run, t, w, found.key, if d < e then d else e, e)
    ensures BackedThrough(s, run, u + 1, w, found.key, found.ip, At(s, run, u).ops[i].Expiry())
  {
    hide Decides, MildBetween;
    var e := At(s, run, u).ops[i].Expiry();
    var bound := if d < e then d else e;
    MildWithin(s, run, t, w, t, u, found.key, bound, e);
    MildWithin(s, run, t, w, u + 1, w, found.key, bound, e);
    MildKeepsBacked(s, run, t, u, found.key, found.ip, bound, bound, e);
    assert BackedAt(s, run, u, found.key, found.ip, bound);
    UpdateBacks(s, run, u, i, found);
    MildKeepsBacked(s, run, u + 1, w, found.key, found.ip, e, bound, e);
  }

  lemma MildWithin(s: State, run: seq<Action>, v: nat, w: nat, v': nat, w': nat, k: Key, bound: int, e: int)
    requires v <= v' <= w' <= w <= |run| && MildBetween(s, run, v, w, k, bound, e)
    ensures MildBetween(s, run, v', w', k, bound, e)
  {
  }

  // ----- an interleaving that leaves one address cached for two names

  lemma {:induction false} AfterOne(s: State, run: seq<Action>, a: Action)
    ensures After(s, run + [a]) == Step(After(s, run), a)
  {
    assert (run + [a])[..|run|] == run;
  }

  lemma AfterThree(s: State, a: Action, b: Action, c: Action)
    ensures After(s, [a, b, c]) == Step(Step(Step(s, a), b), c)
  {
    hide Step;
    AfterNothing(s);
    AfterOne(s, [], a);
    AfterOne(s, [a], b);
    AfterOne(s, [a, b], c);
    assert [] + [a] == [a] && [a] + [b] == [a, b] && [a, b] + [c] == [a, b, c];
  }

  function OnlyEntry(k: Key, ip: Addr, expiry: int): Cache {
    Cache(map[k := ip], map[ip := k], map[k.gateway := Next(V4(ip))], map[ip := expiry])
  }

  /** Replica 0 looks k up at time 10. */
  function Reader(k: Key, lease: int, phase: Phase): Operation {
    Operation(ByKey(k), 0, 0, 10, lease, phase)
  }

  /** Replica 1 allocates for l at time 11. */
  function Writer(l: Key, p: Prefix, lease: int, phase: Phase): Operation {
    Operation(New(l, [p]), 1, 1, 11, lease, phase)
  }

  const EMPTY_CACHES := [EMPTY_CACHE, EMPTY_CACHE]
  const NO_RENEWALS: seq<map<Key, int>> := [map[], map[]]

  /** The reader selects its row, which expires at time 11. */
  function Reads(k: Key, lease: int): seq<Action> {
    [Begin(ByKey(k), 0, 0, 10, lease), Advance(0), Advance(0)]
  }

  lemma AfterReads(k: Key, ip: Addr, lease: int)
    ensures var rows: Table := map[k := Row(ip, 11)];
            After(State(rows, EMPTY_CACHES, NO_RENEWALS, []), Reads(k, lease)) ==
            State(rows, EMPTY_CACHES, NO_RENEWALS, [Reader(k, lease, Remembering(Found(k, ip, false), false))])
  {
    var rows: Table := map[k := Row(ip, 11)];
    AfterThree(State(rows, EMPTY_CACHES, NO_RENEWALS, []), Begin(ByKey(k), 0, 0, 10, lease), Advance(0), Advance(0));
  }

  /** The writer finds no row. */
  function Misses(l: Key, p: Prefix, lease: int): seq<Action> {
    [Begin(New(l, [p]), 1, 1, 11, lease), Advance(1), Advance(1)]
  }

  lemma AfterMisses(rows: Table, reader: Operation, l: Key, p: Prefix, lease: int)
    requires l !in rows
    ensures After(State(rows, EMPTY_CACHES, NO_RENEWALS, [reader]), Misses(l, p, lease)) ==
            State(rows, EMPTY_CACHES, NO_RENEWALS, [reader, Writer(l, p, lease, Deleting)])
  {
    AfterThree(State(rows, EMPTY_CACHES, NO_RENEWALS, [reader]), Begin(New(l, [p]), 1, 1, 11, lease), Advance(1), Advance(1));
  }

  /** The writer deletes the expired row, inserts at its address, and reads its own row back. */
  const REPLACES := [Advance(1), Advance(1), Advance(1)]

  function Uncached(rows: Table, reader: Operation, writer: Operation): State {
    State(rows, EMPTY_CACHES, NO_RENEWALS, [reader, writer])
  }

  lemma Deletes(rows: Table, reader: Operation, l: Key, p: Prefix, ip: Addr, lease: int)
    requires ip == Base(p) + 1 && Contains(p, V4(ip))
    ensures Step(Uncached(rows, reader, Writer(l, p, lease, Deleting)), Advance(1)) ==
            Uncached(DeleteExpired(rows, 11), reader, Writer(l, p, lease, Inserting(0, V4(ip))))
  {
    hide DeleteExpired;
  }

  lemma Inserts(reader: Operation, l: Key, p: Prefix, ip: Addr, lease: int)
    ensures Step(Uncached(map[], reader, Writer(l, p, lease, Inserting(0, V4(ip)))), Advance(1)) ==
            Uncached(map[l := Row(ip, 11 + lease)], reader, Writer(l, p, lease, Reselecting(0, V4(ip), true)))
  {
    assert l in map[l := Row(ip, 11 + lease)];
  }

  lemma Reselects(reader: Operation, l: Key, p: Prefix, ip: Addr, lease: int)
    requires 0 < lease
    ensures var rows := map[l := Row(ip, 11 + lease)];
            Step(Uncached(rows, reader, Writer(l, p, lease, Reselecting(0, V4(ip), true))), Advance(1)) ==
            Uncached(rows, reader, Writer(l, p, lease, Remembering(Found(l, ip, false), true)))
  {
  }

  lemma AfterReplaces(k: Key, reader: Operation, l: Key, p: Prefix, ip: Addr, lease: int)
    requires k != l && ip == Base(p) + 1 && Contains(p, V4(ip)) && 0 < lease
    ensures After(Uncached(map[k := Row(ip, 11)], reader, Writer(l, p, lease, Deleting)), REPLACES) ==
            Uncached(map[l := Row(ip, 11 + lease)], reader, Writer(l, p, lease, Remembering(Found(l, ip, false), true)))
  {
    var rows: Table := map[k := Row(ip, 11)];
    assert DeleteExpired(rows, 11) == map[];
    hide Step, After, Uncached, DeleteExpired;
    AfterThree(Uncached(rows, reader, Writer(l, p, lease, Deleting)), Advance(1), Advance(1), Advance(1));
    Deletes(rows, reader, l, p, ip, lease);
    Inserts(reader, l, p, ip, lease);
    Reselects(reader, l, p, ip, lease);
  }

  /** The writer remembers and returns; the reader, unaware, remembers what it selected. */
  const REMEMBERS := [Advance(1), Advance(1), Advance(0)]

  lemma Remembers(s: State, i: nat)
    requires Enabled(s, i) && s.ops[i].phase.Remembering?
    ensures var op := s.ops[i];
            var found := op.phase.found;
            Step(s, Advance(i)) ==
            s.(caches := s.caches[op.allocator := s.caches[op.allocator].RememberUntil(found.key, found.ip, op.Expiry())],
               ops := s.ops[i := op.(phase := if op.phase.created then Recording(found) else Renewing(found))])
  {
    hide Cache.RememberUntil;
  }

  lemma Records(s: State, i: nat)
    requires Enabled(s, i) && s.ops[i].phase.Recording?
    ensures var op := s.ops[i];
            Step(s, Advance(i)) ==
            s.(renewals := s.renewals[op.store := s.renewals[op.store][op.phase.found.key := op.now]],
               ops := s.ops[i := op.(phase := Returned(op.phase.found))])
  {
  }

  lemma AfterRemembers(rows: Table, k: Key, l: Key, p: Prefix, ip: Addr, lease: int)
    ensures After(Uncached(rows, Reader(k, lease, Remembering(Found(k, ip, false), false)),
                           Writer(l, p, lease, Remembering(Found(l, ip, false), true))), REMEMBERS) ==
            State(rows, [OnlyEntry(k, ip, 10 + lease), OnlyEntry(l, ip, 11 + lease)], [map[], map[l := 11]],
                  [Reader(k, lease, Renewing(Found(k, ip, false))), Writer(l, p, lease, Returned(Found(l, ip, false)))])
  {
    hide Step, After;
    var s := Uncached(rows, Reader(k, lease, Remembering(Found(k, ip, false), false)),
                      Writer(l, p, lease, Remembering(Found(l, ip, false), true)));
    AfterThree(s, Advance(1), Advance(1), Advance(0));
    Remembers(s, 1);
    var s1 := Step(s, Advance(1));
    assert s1.caches == [EMPTY_CACHE, OnlyEntry(l, ip, 11 + lease)];
    Records(s1, 1);
    var s2 := Step(s1, Advance(1));
    assert s2.renewals == [map[], map[l := 11]];
    Remembers(s2, 0);
  }

  /** The reader's UPDATE finds no row; a last turn changes nothing. */
  const UPDATES_NOTHING := [Advance(0), Advance(0), Advance(0)]

  function Renewal(
    rows: Table, caches: seq<Cache>, renewals: seq<map<Key, int>>, k: Key, lease: int, phase: Phase, writer: Operation): State
  {
    State(rows, caches, renewals, [Reader(k, lease, phase), writer])
  }

  lemma Renews(rows: Table, caches: seq<Cache>, k: Key, ip: Addr, lease: int, writer: Operation, renewed: map<Key, int>)
    requires k !in rows && |caches| == 2
    ensures var found := Found(k, ip, false);
            && Step(Renewal(rows, caches, [map[], renewed], k, lease, Renewing(found), writer), Advance(0)) ==
               Renewal(rows, caches, [map[k := 10], renewed], k, lease, Updating(found), writer)
            && Step(Renewal(rows, caches, [map[k := 10], renewed], k, lease, Updating(found), writer), Advance(0)) ==
               Renewal(rows, caches, [map[k := 10], renewed], k, lease, Returned(found), writer)
            && Step(Renewal(rows, caches, [map[k := 10], renewed], k, lease, Returned(found), writer), Advance(0)) ==
               Renewal(rows, caches, [map[k := 10], renewed], k, lease, Returned(found), writer)
  {
  }

  lemma AfterUpdatesNothing(
    rows: Table, caches: seq<Cache>, k: Key, ip: Addr, lease: int, writer: Operation, renewed: map<Key, int>)
    requires k !in rows && |caches| == 2
    ensures After(Renewal(rows, caches, [map[], renewed], k, lease, Renewing(Found(k, ip, false)), writer), UPDATES_NOTHING) ==
            Renewal(rows, caches, [map[k := 10], renewed], k, lease, Returned(Found(k, ip, false)), writer)
  {
    hide Step, After, Renewal;
    AfterThree(Renewal(rows, caches, [map[], renewed], k, lease, Renewing(Found(k, ip, false)), writer),
               Advance(0), Advance(0), Advance(0));
    Renews(rows, caches, k, ip, lease, writer, renewed);
  }

  function Race(k: Key, l: Key, p: Prefix, lease: int): seq<Action> {
    Reads(k, lease) + Misses(l, p, lease) + REPLACES + REMEMBERS + UPDATES_NOTHING
  }

  /**
    One lookup of k, one allocation for l, on two replicas. The lookup selects k's row just
    before it expires; the allocation deletes it and gives its address to l; then the lookup
    caches and returns what it selected. Both operations have returned the address, both caches
    answer with it, and the row of k is gone.
   */
  lemma {:induction false} StaleRememberSharesAddress(k: Key, l: Key, p: Prefix, ip: Addr, lease: int)
    requires k != l && ip == Base(p) + 1 && Contains(p, V4(ip)) && 1 < lease
    ensures var s := After(State(map[k := Row(ip, 11)], EMPTY_CACHES, NO_RENEWALS, []), Race(k, l, p, lease));
            && Committed(s, 0, Found(k, ip, false)) && s.ops[0].phase.Returned?
            && Committed(s, 1, Found(l, ip, false)) && s.ops[1].phase.Returned?
            && |s.caches| == 2
            && s.caches[0].LookupKeyLive(k, 11).1 == Some(ip) && s.caches[1].LookupKeyLive(l, 11).1 == Some(ip)
            && !Backed(s.rows, k, ip, 11)
  {
    hide After, Step;
    var start := State(map[k := Row(ip, 11)], EMPTY_CACHES, NO_RENEWALS, []);
    var reader := Reader(k, lease, Remembering(Found(k, ip, false), false));
    var rows: Table := map[l := Row(ip, 11 + lease)];
    AfterReads(k, ip, lease);
    AfterMisses(start.rows, reader, l, p, lease);
    AfterReplaces(k, reader, l, p, ip, lease);
    AfterRemembers(rows, k, l, p, ip, lease);
    AfterUpdatesNothing(rows, [OnlyEntry(k, ip, 10 + lease), OnlyEntry(l, ip, 11 + lease)], k, ip, lease,
                        Writer(l, p, lease, Returned(Found(l, ip, false))), map[l := 11]);
    RaceInParts(start, k, l, p, lease);
  }

  lemma RaceInParts(s: State, k: Key, l: Key, p: Prefix, lease: int)
    ensures After(s, Race(k, l, p, lease)) ==
            After(After(After(After(After(s, Reads(k, lease)), Misses(l, p, lease)), REPLACES), REMEMBERS), UPDATES_NOTHING)
  {
    hide After;
    var r, m := Reads(k, lease), Misses(l, p, lease);
    AfterConcat(s, r, m);
    AfterConcat(s, r + m, REPLACES);
    AfterConcat(s, r + m + REPLACES, REMEMBERS);
    AfterConcat(s, r + m + REPLACES + REMEMBERS, UPDATES_NOTHING);
  }
}
