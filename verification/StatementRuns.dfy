/**
  Concurrent operations at the grain of single SQL statements and lock sections. Any number of
  operations, from any replicas, each with its own sampled clock and lease, advance one
  statement or lock section at a time in any order, on one table and a cache and a renewal map
  per replica.

  Operations decided by the table converge on one address per name (`Convergence`). What the
  interleaving does to the caches is in `CacheRaces`, and `SerialRuns` shows that operations
  that do not overlap act as in `RegistryRuns`.
 */
module StatementRuns {
  import opened Addresses
  import opened Allocators
  import opened Basics
  import opened Registry
  import opened Tables

  datatype Request =
    | ByKey(key: Key)
    | ByIp(ip: Addr)
    | New(key: Key, prefixes: seq<Prefix>)

  datatype Phase =
    | Probing
    | Confirming(ip: Addr)
    | Selecting
    | Deleting
    | Inserting(block: nat, candidate: MaybeAddr)
    | Reselecting(block: nat, candidate: MaybeAddr, inserted: bool)
    | Remembering(found: Found, created: bool)
    | Recording(found: Found)
    | Renewing(found: Found)
    | Updating(found: Found)
    | Returned(found: Found)
    | Failed

  datatype Found = Found(key: Key, ip: Addr, cached: bool)

  datatype Operation = Operation(request: Request, store: nat, allocator: nat, now: int, lease: int, phase: Phase)
  {
    function Expiry(): int {
      now + lease
    }
  }

  datatype State = State(rows: Table, caches: seq<Cache>, renewals: seq<map<Key, int>>, ops: seq<Operation>)

  datatype Action =
    | Begin(request: Request, store: nat, allocator: nat, now: int, lease: int)
    | Advance(op: nat)

  predicate Fits(s: State, store: nat, allocator: nat) {
    store < |s.renewals| && allocator < |s.caches|
  }

  /** What an operation touches. */
  function Local(s: State, op: Operation): World
    requires Fits(s, op.store, op.allocator)
  {
    World(s.rows, s.caches[op.allocator], s.renewals[op.store])
  }

  /** The loop position for the next INSERT: the candidate, or the first of a later block. */
  function Seek(ps: seq<Prefix>, block: nat, candidate: MaybeAddr): Phase
    decreases if block < |ps| then |ps| - block else 0
  {
    if block >= |ps| then Failed
    else if Contains(ps[block], candidate) then Inserting(block, candidate)
    else if block + 1 == |ps| then Failed
    else Seek(ps, block + 1, Next(V4(Base(ps[block + 1]))))
  }

  function SeekFirst(ps: seq<Prefix>): Phase {
    if ps == [] then Failed else Seek(ps, 0, Next(V4(Base(ps[0]))))
  }

  /** The table after an operation's next statement. */
  function RowsAfter(rows: Table, op: Operation): Table {
    match op.phase
    case Deleting => DeleteExpired(rows, op.now)
    case Inserting(_, candidate) =>
      if op.request.New? && candidate.V4? then Insert(rows, op.request.key, candidate.addr, op.Expiry()) else rows
    case Updating(found) => UpdateExpiry(rows, found.key, op.Expiry())
    case _ => rows
  }

  /** The replica's cache after an operation's next lock section on it. */
  function CacheAfter(c: Cache, op: Operation): Cache {
    match op.phase
    case Probing => if op.request.ByIp? then c.LookupLive(op.request.ip, op.now).0 else c
    case Confirming(ip) => c.LookupLive(ip, op.now).0
    case Remembering(found, _) => c.RememberUntil(found.key, found.ip, op.Expiry())
    case _ => c
  }

  predicate SkipsRenewal(w: World, op: Operation, found: Found) {
    found.cached && w.Debounced(found.key, op.now)
  }

  function RenewalsAfter(w: World, op: Operation): map<Key, int> {
    match op.phase
    case Recording(found) => w.renewed[found.key := op.now]
    case Renewing(found) => if SkipsRenewal(w, op, found) then w.renewed else w.renewed[found.key := op.now]
    case _ => w.renewed
  }

  function WorldAfter(w: World, op: Operation): World {
    World(RowsAfter(w.rows, op), CacheAfter(w.cache, op), RenewalsAfter(w, op))
  }

  /** The first read of the cache; by key it yields an address to be confirmed under a second lock. */
  function FirstProbe(c: Cache, op: Operation): Phase {
    match op.request
    case ByIp(ip) =>
      var k := c.LookupLive(ip, op.now).1;
      if k.Some? then Remembering(Found(k.value, ip, true), false) else Selecting
    case _ =>
      if op.request.key in c.byKey then Confirming(c.byKey[op.request.key]) else Selecting
  }

  function SecondProbe(c: Cache, op: Operation): Phase
    requires op.phase.Confirming?
  {
    if c.LookupLive(op.phase.ip, op.now).1.None? then Selecting
    else match op.request
      case ByKey(k) => Renewing(Found(k, op.phase.ip, true))
      case New(k, _) => Remembering(Found(k, op.phase.ip, true), false)
      case ByIp(_) => Selecting
  }

  ghost function FirstSelect(rows: Table, op: Operation): Phase {
    match op.request
    case ByIp(ip) =>
      var k := SelectIp(rows, ip, op.now);
      if k.Some? then Remembering(Found(k.value, ip, false), false) else Failed
    case ByKey(k) =>
      var ip := SelectKey(rows, k, op.now);
      if ip.Some? then Remembering(Found(k, ip.value, false), false) else Failed
    case New(k, _) =>
      var ip := SelectKey(rows, k, op.now);
      if ip.Some? then Remembering(Found(k, ip.value, false), false) else Deleting
  }

  function SecondSelect(rows: Table, op: Operation): Phase
    requires op.phase.Reselecting? && op.request.New?
  {
    var ip := SelectKey(rows, op.request.key, op.now);
    if ip.Some? then Remembering(Found(op.request.key, ip.value, false), true)
    else if op.phase.inserted then Failed
    else Seek(op.request.prefixes, op.phase.block, Next(op.phase.candidate))
  }

  ghost function PhaseAfter(w: World, op: Operation): Phase {
    match op.phase
    case Probing => FirstProbe(w.cache, op)
    case Confirming(_) => SecondProbe(w.cache, op)
    case Selecting => FirstSelect(w.rows, op)
    case Deleting => if op.request.New? then SeekFirst(op.request.prefixes) else Failed
    case Inserting(block, candidate) => Reselecting(block, candidate, RowsAfter(w.rows, op) != w.rows)
    case Reselecting(_, _, _) => if op.request.New? then SecondSelect(w.rows, op) else Failed
    case Remembering(found, created) => if created then Recording(found) else Renewing(found)
    case Recording(found) => Returned(found)
    case Renewing(found) => if SkipsRenewal(w, op, found) then Returned(found) else Updating(found)
    case Updating(found) => Returned(found)
    case Returned(_) => op.phase
    case Failed => Failed
  }

  ghost function StepOf(s: State, i: nat): State
    requires i < |s.ops| && Fits(s, s.ops[i].store, s.ops[i].allocator)
  {
    var op := s.ops[i];
    var w := Local(s, op);
    var w' := WorldAfter(w, op);
    State(w'.rows, s.caches[op.allocator := w'.cache], s.renewals[op.store := w'.renewed],
          s.ops[i := op.(phase := PhaseAfter(w, op))])
  }

  ghost predicate Enabled(s: State, i: nat) {
    i < |s.ops| && Fits(s, s.ops[i].store, s.ops[i].allocator)
  }

  ghost function Step(s: State, a: Action): State {
    match a
    case Begin(request, store, allocator, now, lease) =>
      s.(ops := s.ops + [Operation(request, store, allocator, now, lease, Probing)])
    case Advance(i) =>
      if Enabled(s, i) then StepOf(s, i) else s
  }

  ghost function After(s: State, run: seq<Action>): State {
    if run == [] then s else Step(After(s, run[..|run| - 1]), run[|run| - 1])
  }

  ghost function At(s: State, run: seq<Action>, t: nat): State
    requires t <= |run|
  {
    After(s, run[..t])
  }

  lemma AtStep(s: State, run: seq<Action>, t: nat)
    requires t < |run|
    ensures At(s, run, t + 1) == Step(At(s, run, t), run[t])
  {
    assert run[..t + 1][..t] == run[..t];
  }

  lemma AfterNothing(s: State)
    ensures After(s, []) == s
  {
  }

  lemma {:induction false} AfterConcat(s: State, r: seq<Action>, q: seq<Action>)
    ensures After(s, r + q) == After(After(s, r), q)
    decreases |q|
  {
    hide Step;
    if q == [] {
      assert r + q == r;
    } else {
      var init := q[..|q| - 1];
      assert (r + q)[..|r + q| - 1] == r + init;
      AfterConcat(s, r, init);
    }
  }

  /** Every statement keeps addresses unique, and a row that stays keeps its address. */
  lemma StatementKeeps(rows: Table, op: Operation)
    requires UniqueIps(rows)
    ensures UniqueIps(RowsAfter(rows, op))
    ensures forall k | k in rows && k in RowsAfter(rows, op) :: RowsAfter(rows, op)[k].ip == rows[k].ip
  {
  }

  lemma {:induction false} AlwaysUnique(s: State, run: seq<Action>, t: nat)
    requires UniqueIps(s.rows) && t <= |run|
    ensures UniqueIps(At(s, run, t).rows)
  {
    if t > 0 {
      AlwaysUnique(s, run, t - 1);
      AtStep(s, run, t - 1);
      var before, a := At(s, run, t - 1), run[t - 1];
      if a.Advance? && Enabled(before, a.op) {
        StatementKeeps(before.rows, before.ops[a.op]);
      }
    }
  }

  /** What an operation is committed to return. */
  function Outcome(op: Operation): Option<Found> {
    match op.phase
    case Remembering(found, _) => Some(found)
    case Recording(found) => Some(found)
    case Renewing(found) => Some(found)
    case Updating(found) => Some(found)
    case Returned(found) => Some(found)
    case _ => None
  }

  ghost predicate Committed(s: State, i: nat, found: Found) {
    i < |s.ops| && Outcome(s.ops[i]) == Some(found)
  }

  /** Action t is a step of operation i. */
  ghost predicate Acts(s: State, run: seq<Action>, t: nat, i: nat)
    requires t < |run|
  {
    run[t] == Advance(i) && Enabled(At(s, run, t), i)
  }

  /** Action t is the SELECT that decides operation i, with this result. */
  ghost predicate Decides(s: State, run: seq<Action>, t: nat, i: nat, found: Found)
    requires t < |run|
  {
    && Acts(s, run, t, i)
    && (At(s, run, t).ops[i].phase.Selecting? || At(s, run, t).ops[i].phase.Reselecting?)
    && Committed(At(s, run, t + 1), i, found)
  }

  /** The deciding SELECT returns a live row of the table it reads. */
  lemma DecisionReadsRow(s: State, run: seq<Action>, t: nat, i: nat, found: Found)
    requires t < |run| && Decides(s, run, t, i, found)
    ensures !found.cached
    ensures Backed(At(s, run, t).rows, found.key, found.ip, At(s, run, t).ops[i].now + 1)
  {
    AtStep(s, run, t);
    var op := At(s, run, t).ops[i];
    if op.phase.Reselecting? && op.request.New? {
      SeekHasNoOutcome(op.request.prefixes, op.phase.block, Next(op.phase.candidate));
    }
  }

  lemma {:induction false} SeekHasNoOutcome(ps: seq<Prefix>, block: nat, candidate: MaybeAddr)
    ensures Seek(ps, block, candidate).Inserting? || Seek(ps, block, candidate).Failed?
    decreases if block < |ps| then |ps| - block else 0
  {
    if block + 1 < |ps| && !Contains(ps[block], candidate) {
      SeekHasNoOutcome(ps, block + 1, Next(V4(Base(ps[block + 1]))));
    }
  }

  /** Once committed, an operation returns that result. */
  lemma {:induction false} OutcomeStays(s: State, run: seq<Action>, t: nat, u: nat, i: nat, found: Found)
    requires t <= u <= |run| && Committed(At(s, run, t), i, found)
    ensures Committed(At(s, run, u), i, found)
    decreases u
  {
    if t < u {
      OutcomeStays(s, run, t, u - 1, i, found);
      AtStep(s, run, u - 1);
    }
  }

  /** An operation commits to a result that is not cached only by a SELECT. */
  lemma CommitsBySelect(s: State, i: nat, j: nat, found: Found)
    requires Enabled(s, j) && !Committed(s, i, found) && Committed(StepOf(s, j), i, found) && !found.cached
    ensures i == j && (s.ops[i].phase.Selecting? || s.ops[i].phase.Reselecting?)
  {
    var op := s.ops[j];
    if op.phase.Deleting? && op.request.New? && op.request.prefixes != [] {
      SeekHasNoOutcome(op.request.prefixes, 0, Next(V4(Base(op.request.prefixes[0]))));
    }
  }

  /** Every result that did not come from a cache was decided by some SELECT of the run. */
  lemma {:induction false} EveryResultIsDecided(s: State, run: seq<Action>, u: nat, i: nat, found: Found) returns (t: nat)
    requires s.ops == [] && u <= |run| && Committed(At(s, run, u), i, found) && !found.cached
    ensures t < u && Decides(s, run, t, i, found)
    decreases u
  {
    assert run[..0] == [];
    AtStep(s, run, u - 1);
    var before, a := At(s, run, u - 1), run[u - 1];
    if Committed(before, i, found) {
      t := EveryResultIsDecided(s, run, u - 1, i, found);
    } else {
      t := u - 1;
      CommitsBySelect(before, i, a.op, found);
    }
  }

  /** The key has a row in every state from t to u: its row is one and the same. */
  ghost predicate RowLives(s: State, run: seq<Action>, t: nat, u: nat, k: Key)
    requires t <= u <= |run|
  {
    forall v | t <= v <= u :: k in At(s, run, v).rows
  }

  lemma {:induction false} RowKeepsAddress(s: State, run: seq<Action>, t: nat, u: nat, k: Key)
    requires UniqueIps(s.rows) && t <= u <= |run| && RowLives(s, run, t, u, k)
    ensures At(s, run, u).rows[k].ip == At(s, run, t).rows[k].ip
    decreases u
  {
    if t < u {
      RowKeepsAddress(s, run, t, u - 1, k);
      AlwaysUnique(s, run, u - 1);
      AtStep(s, run, u - 1);
      var before, a := At(s, run, u - 1), run[u - 1];
      if a.Advance? && Enabled(before, a.op) {
        StatementKeeps(before.rows, before.ops[a.op]);
      }
    }
  }

  /**
    Convergence, for every interleaving and any clocks: two operations whose rows exist side by
    side in some state v between their deciding SELECTs return the same address if they concern
    the same name, and different addresses if they concern different names. With v the later
    SELECT, it is enough that the first row still exists there.
   */
  lemma {:induction false} Convergence(
    s: State, run: seq<Action>, t: nat, v: nat, u: nat, i: nat, j: nat, first: Found, later: Found)
    requires UniqueIps(s.rows) && t <= v <= u < |run|
    requires Decides(s, run, t, i, first) && Decides(s, run, u, j, later)
    requires RowLives(s, run, t, v, first.key) && (v < u ==> RowLives(s, run, v, u, later.key))
    ensures first.key == later.key <==> first.ip == later.ip
    ensures Committed(After(s, run), i, first) && Committed(After(s, run), j, later)
  {
    DecisionReadsRow(s, run, t, i, first);
    DecisionReadsRow(s, run, u, j, later);
    hide After, Outcome, Enabled;
    RowKeepsAddress(s, run, t, v, first.key);
    if v < u {
      RowKeepsAddress(s, run, v, u, later.key);
    }
    AlwaysUnique(s, run, v);
    assert run[..|run|] == run;
    OutcomeStays(s, run, t + 1, |run|, i, first);
    OutcomeStays(s, run, u + 1, |run|, j, later);
  }
}
