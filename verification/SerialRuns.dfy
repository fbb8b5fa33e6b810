/**
  The two grains agree: an operation that runs alone, statement by statement, ends in the state
  and with the answer that `RegistryInvariant.Apply` gives it in one step, so that every run of
  `RegistryRuns` is a run of the statement machine.
 */
module SerialRuns {
  import opened Addresses
  import opened Allocators
  import opened Basics
  import opened Registry
  import opened RegistryInvariant
  import opened StatementRuns
  import opened Tables
  import RegistryRuns

  /** An operation after n turns with nobody else acting. */
  ghost function Turns(w: World, op: Operation, n: nat): (World, Operation) {
    if n == 0 then (w, op)
    else
      var (w', op') := Turns(w, op, n - 1);
      (WorldAfter(w', op'), op'.(phase := PhaseAfter(w', op')))
  }

  ghost predicate Finishes(w: World, op: Operation, w': World, phase: Phase) {
    exists n :: Turns(w, op, n) == (w', op.(phase := phase))
  }

  lemma FinishNow(w: World, op: Operation)
    ensures Finishes(w, op, w, op.phase)
  {
    assert Turns(w, op, 0) == (w, op.(phase := op.phase));
  }

  lemma {:induction false} TurnsFirst(w: World, op: Operation, n: nat)
    ensures Turns(w, op, n + 1) == Turns(WorldAfter(w, op), op.(phase := PhaseAfter(w, op)), n)
  {
    hide WorldAfter, PhaseAfter;
    if n > 0 {
      TurnsFirst(w, op, n - 1);
    } else {
      assert Turns(w, op, 0) == (w, op);
    }
  }

  lemma FinishLater(w: World, op: Operation, w': World, phase: Phase)
    requires Finishes(WorldAfter(w, op), op.(phase := PhaseAfter(w, op)), w', phase)
    ensures Finishes(w, op, w', phase)
  {
    hide WorldAfter, PhaseAfter, Turns;
    var next := op.(phase := PhaseAfter(w, op));
    var n :| Turns(WorldAfter(w, op), next, n) == (w', next.(phase := phase));
    TurnsFirst(w, op, n);
  }

  // ----- the ends of an operation

  lemma RenewFinishes(w: World, op: Operation)
    requires op.phase.Renewing?
    ensures var found := op.phase.found;
            Finishes(w, op, w.Renew(found.key, op.now, op.lease, !found.cached), Returned(found))
  {
    hide Finishes;
    var found := op.phase.found;
    var w1, op1 := WorldAfter(w, op), op.(phase := PhaseAfter(w, op));
    if !SkipsRenewal(w, op, found) {
      var w2, op2 := WorldAfter(w1, op1), op1.(phase := PhaseAfter(w1, op1));
      FinishNow(w2, op2);
      FinishLater(w1, op1, w2, op2.phase);
    } else {
      FinishNow(w1, op1);
    }
    FinishLater(w, op, w.Renew(found.key, op.now, op.lease, !found.cached), Returned(found));
  }

  lemma RememberFinishes(w: World, op: Operation)
    requires op.phase.Remembering? && !op.phase.created
    ensures var found := op.phase.found;
            Finishes(w, op, w.Remember(found.key, found.ip, op.Expiry()).Renew(found.key, op.now, op.lease, !found.cached),
                     Returned(found))
  {
    hide Finishes;
    var found := op.phase.found;
    var w1, op1 := WorldAfter(w, op), op.(phase := PhaseAfter(w, op));
    RenewFinishes(w1, op1);
    FinishLater(w, op, w1.Renew(found.key, op.now, op.lease, !found.cached), Returned(found));
  }

  lemma CreateFinishes(w: World, op: Operation)
    requires op.phase.Remembering? && op.phase.created
    ensures var found := op.phase.found;
            Finishes(w, op, World(w.rows, w.cache, w.renewed[found.key := op.now]).Remember(found.key, found.ip, op.Expiry()),
                     Returned(found))
  {
    hide Finishes;
    var w1, op1 := WorldAfter(w, op), op.(phase := PhaseAfter(w, op));
    var w2, op2 := WorldAfter(w1, op1), op1.(phase := PhaseAfter(w1, op1));
    FinishNow(w2, op2);
    FinishLater(w1, op1, w2, op2.phase);
    FinishLater(w, op, w2, op2.phase);
  }

  // ----- the INSERT loop

  /** The first free address from this loop position on. */
  function FreeFrom(rows: Table, ps: seq<Prefix>, block: nat, candidate: MaybeAddr): MaybeAddr
    requires block < |ps|
  {
    var here := FirstFreeIn(rows, ps[block], candidate);
    if here.V4? then here else FirstFree(rows, ps[block + 1..])
  }

  lemma NextBlock(rows: Table, ps: seq<Prefix>, block: nat)
    requires block < |ps|
    ensures FirstFree(rows, ps[block..]) == FreeFrom(rows, ps, block, Next(V4(Base(ps[block]))))
  {
    assert ps[block..][1..] == ps[block + 1..];
  }

  /** Moving on to the next INSERT passes over no free address. */
  lemma {:induction false} SeekPassesNothing(rows: Table, ps: seq<Prefix>, block: nat, candidate: MaybeAddr)
    requires block < |ps|
    ensures var p := Seek(ps, block, candidate);
            || (p.Failed? && FreeFrom(rows, ps, block, candidate) == Invalid)
            || (p.Inserting? && block <= p.block < |ps| && Contains(ps[p.block], p.candidate)
                && (p.block == block ==> p.candidate == candidate)
                && FreeFrom(rows, ps, p.block, p.candidate) == FreeFrom(rows, ps, block, candidate))
    decreases |ps| - block
  {
    if !Contains(ps[block], candidate) {
      assert FirstFreeIn(rows, ps[block], candidate) == Invalid;
      if block + 1 == |ps| {
        assert ps[block + 1..] == [];
      } else {
        NextBlock(rows, ps, block + 1);
        SeekPassesNothing(rows, ps, block + 1, Next(V4(Base(ps[block + 1]))));
      }
    }
  }

  function Taken(w: World, k: Key, ip: Addr, now: int, lease: int): World {
    World(w.rows[k := Row(ip, now + lease)], w.cache, w.renewed[k := now]).Remember(k, ip, now + lease)
  }

  /** The world and the phase that end an insertion with this free address. */
  function TakenOr(w: World, op: Operation, ip: MaybeAddr): (World, Phase)
    requires op.request.New?
  {
    if ip == Invalid then (w, Failed)
    else (Taken(w, op.request.key, ip.addr, op.now, op.lease), Returned(Found(op.request.key, ip.addr, false)))
  }

  lemma InsertSucceeds(w: World, op: Operation)
    requires op.request.New? && op.phase.Inserting? && op.phase.candidate.V4? && 0 < op.lease
    requires op.request.key !in w.rows && !Holds(w.rows, op.phase.candidate.addr)
    ensures var (w', p) := TakenOr(w, op, op.phase.candidate);
            Finishes(w, op, w', p)
  {
    hide Finishes, Cache.RememberUntil;
    var (w', p) := TakenOr(w, op, op.phase.candidate);
    var w1, op1 := WorldAfter(w, op), op.(phase := PhaseAfter(w, op));
    var w2, op2 := WorldAfter(w1, op1), op1.(phase := PhaseAfter(w1, op1));
    assert op.request.key in w1.rows;
    assert op1.phase.inserted;
    CreateFinishes(w2, op2);
    FinishLater(w1, op1, w', p);
    FinishLater(w, op, w', p);
  }

  /** The loop ends with the first free address from its position, or fails when there is none. */
  lemma {:induction false} InsertLoopFinishes(w: World, op: Operation)
    requires op.request.New? && op.phase.Inserting? && op.phase.block < |op.request.prefixes| && 0 < op.lease
    requires Contains(op.request.prefixes[op.phase.block], op.phase.candidate) && op.request.key !in w.rows
    ensures var (w', p) := TakenOr(w, op, FreeFrom(w.rows, op.request.prefixes, op.phase.block, op.phase.candidate));
            Finishes(w, op, w', p)
    decreases |op.request.prefixes| - op.phase.block, ADDRESS_COUNT - op.phase.candidate.addr, 0
  {
    hide Finishes;
    var ps, block, candidate := op.request.prefixes, op.phase.block, op.phase.candidate;
    if !Holds(w.rows, candidate.addr) {
      InsertSucceeds(w, op);
    } else {
      var (w', p) := TakenOr(w, op, FreeFrom(w.rows, ps, block, candidate));
      var op1 := op.(phase := PhaseAfter(w, op));
      assert WorldAfter(w, op) == w && op1.phase == Reselecting(block, candidate, false);
      var op2 := op1.(phase := PhaseAfter(w, op1));
      assert WorldAfter(w, op1) == w && op2.phase == Seek(ps, block, Next(candidate));
      assert FreeFrom(w.rows, ps, block, Next(candidate)) == FreeFrom(w.rows, ps, block, candidate);
      SeekFinishes(w, op2, block, Next(candidate));
      FinishLater(w, op1, w', p);
      FinishLater(w, op, w', p);
    }
  }

  lemma {:induction false} SeekFinishes(w: World, op: Operation, block: nat, candidate: MaybeAddr)
    requires op.request.New? && block < |op.request.prefixes| && 0 < op.lease && op.request.key !in w.rows
    requires op.phase == Seek(op.request.prefixes, block, candidate)
    ensures var (w', p) := TakenOr(w, op, FreeFrom(w.rows, op.request.prefixes, block, candidate));
            Finishes(w, op, w', p)
    decreases |op.request.prefixes| - block, if candidate.V4? then ADDRESS_COUNT - candidate.addr else 0, 1
  {
    SeekPassesNothing(w.rows, op.request.prefixes, block, candidate);
    if op.phase.Failed? {
      FinishNow(w, op);
    } else {
      InsertLoopFinishes(w, op);
    }
  }

  // ----- whole operations

  function CallOf(request: Request): Call {
    match request
    case ByKey(k) => LookupKeyCall(k)
    case ByIp(ip) => LookupCall(ip)
    case New(k, ps) => AllocateCall(k, ps)
  }

  function RequestOf(call: Call): (r: Request)
    ensures CallOf(r) == call
  {
    match call
    case LookupKeyCall(k) => ByKey(k)
    case LookupCall(ip) => ByIp(ip)
    case AllocateCall(k, ps) => New(k, ps)
  }

  /** The phase in which an operation ends with this answer. */
  ghost predicate Reports(phase: Phase, answer: Answer) {
    match answer
    case Answer(k, ip) => phase.Returned? && phase.found.key == k && phase.found.ip == ip
    case NoAnswer => phase.Failed?
  }

  ghost predicate EndsAs(w: World, op: Operation, w': World, answer: Answer) {
    exists p | Reports(p, answer) :: Finishes(w, op, w', p)
  }

  lemma EndsLater(w: World, op: Operation, w': World, answer: Answer)
    requires EndsAs(WorldAfter(w, op), op.(phase := PhaseAfter(w, op)), w', answer)
    ensures EndsAs(w, op, w', answer)
  {
    hide WorldAfter, PhaseAfter, Finishes;
    var next := op.(phase := PhaseAfter(w, op));
    var p :| Reports(p, answer) && Finishes(WorldAfter(w, op), next, w', p);
    FinishLater(w, op, w', p);
  }

  /** From the DELETE on. */
  lemma {:induction false} DeletingEnds(w: World, op: Operation)
    requires op.request.New? && op.phase.Deleting? && 0 < op.lease && SelectKey(w.rows, op.request.key, op.now).None?
    ensures var (w', ip) := w.AllocateNew(op.request.key, op.request.prefixes, op.now, op.lease);
            EndsAs(w, op, w', if ip.V4? then Answer(op.request.key, ip.addr) else NoAnswer)
  {
    hide Finishes, Cache.RememberUntil;
    var k, ps := op.request.key, op.request.prefixes;
    var w1, op1 := WorldAfter(w, op), op.(phase := PhaseAfter(w, op));
    var (w', p) := TakenOr(w1, op, FirstFree(w1.rows, ps));
    if ps == [] {
      FinishNow(w1, op1);
    } else {
      NextBlock(w1.rows, ps, 0);
      assert ps[0..] == ps;
      SeekFinishes(w1, op1, 0, Next(V4(Base(ps[0]))));
    }
    FinishLater(w, op, w', p);
  }

  /** From the first SELECT on. */
  lemma {:induction false} SelectingEnds(w: World, op: Operation)
    requires op.phase.Selecting? && 0 < op.lease
    requires match op.request
             case ByIp(ip) => w.cache.LookupLive(ip, op.now) == (w.cache, None)
             case _ => w.cache.LookupKeyLive(op.request.key, op.now) == (w.cache, None)
    ensures var (w', answer) := Apply(w, CallOf(op.request), op.now, op.lease);
            EndsAs(w, op, w', answer)
  {
    hide Finishes, Cache.RememberUntil, World.AllocateNew, Cache.LookupLive, Cache.LookupKeyLive;
    var (w', answer) := Apply(w, CallOf(op.request), op.now, op.lease);
    var op1 := op.(phase := PhaseAfter(w, op));
    assert WorldAfter(w, op) == w;
    if op1.phase.Failed? {
      FinishNow(w, op1);
      assert Reports(Failed, answer);
    } else if op1.phase.Deleting? {
      DeletingEnds(w, op1);
    } else {
      RememberFinishes(w, op1);
      assert Reports(Returned(op1.phase.found), answer);
    }
    EndsLater(w, op, w', answer);
  }

  /** A missed probe leaves a cache that misses again without a change. */
  lemma MissAgain(c: Cache, ip: Addr, k: Key, now: int)
    ensures c.LookupLive(ip, now).1.None? ==> c.LookupLive(ip, now).0.LookupLive(ip, now) == (c.LookupLive(ip, now).0, None)
    ensures c.LookupKeyLive(k, now).1.None? ==>
              c.LookupKeyLive(k, now).0.LookupKeyLive(k, now) == (c.LookupKeyLive(k, now).0, None)
  {
  }

  lemma {:induction false} ReverseEnds(w: World, op: Operation)
    requires op.phase.Probing? && op.request.ByIp? && 0 < op.lease
    ensures var (w', answer) := Apply(w, CallOf(op.request), op.now, op.lease);
            EndsAs(w, op, w', answer)
  {
    hide Finishes, Cache.RememberUntil, Cache.LookupLive, Cache.LookupKeyLive;
    var ip := op.request.ip;
    var (w', answer) := Apply(w, LookupCall(ip), op.now, op.lease);
    var w1, op1 := WorldAfter(w, op), op.(phase := PhaseAfter(w, op));
    if w.cache.LookupLive(ip, op.now).1.Some? {
      RememberFinishes(w1, op1);
      assert Reports(Returned(op1.phase.found), answer);
    } else {
      MissAgain(w.cache, ip, Key([], []), op.now);
      SelectingEnds(w1, op1);
    }
    EndsLater(w, op, w', answer);
  }

  lemma {:induction false} ForwardEnds(w: World, op: Operation)
    requires op.phase.Probing? && !op.request.ByIp? && 0 < op.lease
    ensures var (w', answer) := Apply(w, CallOf(op.request), op.now, op.lease);
            EndsAs(w, op, w', answer)
  {
    hide Finishes, Cache.RememberUntil, Cache.LookupLive, World.AllocateNew;
    var k := op.request.key;
    var (w', answer) := Apply(w, CallOf(op.request), op.now, op.lease);
    var op1 := op.(phase := PhaseAfter(w, op));
    assert WorldAfter(w, op) == w;
    MissAgain(w.cache, 0, k, op.now);
    if k in w.cache.byKey {
      ConfirmingEnds(w, op1);
    } else {
      SelectingEnds(w, op1);
    }
    EndsLater(w, op, w', answer);
  }

  lemma {:induction false} ConfirmingEnds(w: World, op: Operation)
    requires !op.request.ByIp? && op.request.key in w.cache.byKey && 0 < op.lease
    requires op.phase == Confirming(w.cache.byKey[op.request.key])
    ensures var (w', answer) := Apply(w, CallOf(op.request), op.now, op.lease);
            EndsAs(w, op, w', answer)
  {
    hide Finishes, Cache.RememberUntil, Cache.LookupLive, World.AllocateNew;
    var (w', answer) := Apply(w, CallOf(op.request), op.now, op.lease);
    var w1, op1 := WorldAfter(w, op), op.(phase := PhaseAfter(w, op));
    if op1.phase.Selecting? {
      MissAgain(w.cache, 0, op.request.key, op.now);
      SelectingEnds(w1, op1);
    } else {
      HitKeeps(w.cache, op.phase.ip, op.now);
      assert w1 == w;
      if op.request.ByKey? {
        RenewFinishes(w1, op1);
      } else {
        RememberFinishes(w1, op1);
      }
      assert Reports(Returned(op1.phase.found), answer);
    }
    EndsLater(w, op, w', answer);
  }

  lemma HitKeeps(c: Cache, ip: Addr, now: int)
    ensures c.LookupLive(ip, now).1.Some? ==> c.LookupLive(ip, now).0 == c
  {
  }

  /** An operation that runs alone ends as `Apply` says. */
  lemma {:induction false} AloneActsAtOnce(w: World, op: Operation)
    requires op.phase.Probing? && 0 < op.lease
    ensures var (w', answer) := Apply(w, CallOf(op.request), op.now, op.lease);
            EndsAs(w, op, w', answer)
  {
    hide Apply, EndsAs;
    if op.request.ByIp? {
      ReverseEnds(w, op);
    } else {
      ForwardEnds(w, op);
    }
  }

  // ----- whole runs

  function Again(i: nat, n: nat): seq<Action> {
    seq(n, _ => Advance(i))
  }

  ghost function Put(s: State, i: nat, w: World, op: Operation): State
    requires i < |s.ops| && Fits(s, op.store, op.allocator)
  {
    State(w.rows, s.caches[op.allocator := w.cache], s.renewals[op.store := w.renewed], s.ops[i := op])
  }

  lemma {:induction false} TurnsKeepReplica(w: World, op: Operation, n: nat)
    ensures Turns(w, op, n).1 == op.(phase := Turns(w, op, n).1.phase)
  {
    if n > 0 {
      TurnsKeepReplica(w, op, n - 1);
    }
  }

  lemma StepPut(s: State, i: nat, w: World, op: Operation)
    requires i < |s.ops| && Fits(s, op.store, op.allocator)
    ensures Step(Put(s, i, w, op), Advance(i)) == Put(s, i, WorldAfter(w, op), op.(phase := PhaseAfter(w, op)))
  {
    hide WorldAfter, PhaseAfter;
    assert Local(Put(s, i, w, op), op) == w;
  }

  /** Turns of one operation, as a run of the machine. */
  lemma {:induction false} TurnsAreActions(s: State, i: nat, n: nat)
    requires Enabled(s, i)
    ensures var (w, op) := Turns(Local(s, s.ops[i]), s.ops[i], n);
            op == s.ops[i].(phase := op.phase) && After(s, Again(i, n)) == Put(s, i, w, op)
  {
    TurnsKeepReplica(Local(s, s.ops[i]), s.ops[i], n);
    if n > 0 {
      hide WorldAfter, PhaseAfter, Step, Put;
      TurnsAreActions(s, i, n - 1);
      var (w, op) := Turns(Local(s, s.ops[i]), s.ops[i], n - 1);
      StepPut(s, i, w, op);
      assert Again(i, n)[..n - 1] == Again(i, n - 1);
    }
  }

  /** One event of `RegistryRuns` as actions of one operation. */
  ghost function Begins(e: RegistryRuns.Event, lease: int): Action {
    Begin(RequestOf(e.call), e.store, e.allocator, e.now, lease)
  }

  ghost function Registered(s: State): RegistryRuns.System {
    RegistryRuns.System(s.rows, s.caches, s.renewals)
  }

  lemma {:induction false} EventAsActions(s: State, e: RegistryRuns.Event, lease: int) returns (actions: seq<Action>)
    requires RegistryRuns.Fits(Registered(s), e) && 0 < lease
    ensures var s' := After(s, actions);
            && Registered(s') == RegistryRuns.Step(Registered(s), e, lease)
            && |s'.ops| == |s.ops| + 1 && s'.ops[..|s.ops|] == s.ops
            && Reports(s'.ops[|s.ops|].phase, Apply(RegistryRuns.Local(Registered(s), e), e.call, e.now, lease).1)
  {
    hide Apply;
    var i, begin := |s.ops|, Begins(e, lease);
    var s1 := Step(s, begin);
    var w, op := Local(s1, s1.ops[i]), s1.ops[i];
    AloneActsAtOnce(w, op);
    var (w', answer) := Apply(w, e.call, e.now, lease);
    var p :| Reports(p, answer) && Finishes(w, op, w', p);
    var n :| Turns(w, op, n) == (w', op.(phase := p));
    actions := [begin] + Again(i, n);
    AfterConcat(s, [begin], Again(i, n));
    assert [begin][..0] == [] && After(s, [begin]) == s1;
    TurnsAreActions(s1, i, n);
  }

  /**
    Every run of whole operations is a run of the statement machine: some interleaving leaves
    the same table, caches and renewals, and each operation ends with the answer of its event.
   */
  lemma {:induction false} OperationRunsAreStatementRuns(s: RegistryRuns.System, run: seq<RegistryRuns.Event>, lease: int)
    returns (actions: seq<Action>)
    requires RegistryRuns.Runs(s, run) && 0 < lease
    ensures var t := After(State(s.rows, s.caches, s.renewals, []), actions);
            && Registered(t) == RegistryRuns.After(s, run, lease)
            && |t.ops| == |run|
            && forall i | 0 <= i < |run| :: Reports(t.ops[i].phase, RegistryRuns.AnswerOf(s, run, i, lease))
  {
    hide After, Step, Apply, Reports;
    var start := State(s.rows, s.caches, s.renewals, []);
    if run == [] {
      actions := [];
      AfterNothing(start);
    } else {
      var n := |run| - 1;
      var before := OperationRunsAreStatementRuns(s, run[..n], lease);
      var mid := After(start, before);
      var more := EventAsActions(mid, run[n], lease);
      actions := before + more;
      AfterConcat(start, before, more);
      forall i | 0 <= i < |run|
        ensures Reports(After(start, actions).ops[i].phase, RegistryRuns.AnswerOf(s, run, i, lease))
      {
        if i < n {
          assert run[..n][..i] == run[..i];
          assert After(mid, more).ops[i] == After(mid, more).ops[..n][i];
          assert RegistryRuns.AnswerOf(s, run[..n], i, lease) == RegistryRuns.AnswerOf(s, run, i, lease);
        }
      }
    }
  }
}
