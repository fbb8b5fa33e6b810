/**
  Whole runs of any number of DNS replicas on one registry. Grain: one operation is one step,
  all replicas share a clock that never goes back and use one lease. A store and an allocator
  may be paired freely, so a replica is any combination of the two.
 */
module RegistryRuns {
  import opened Addresses
  import opened Allocators
  import opened Names
  import opened RangeKeys
  import opened Registry
  import opened RegistryInvariant
  import opened SampleNames
  import opened Tables
  import Wire

  datatype Event = Event(store: nat, allocator: nat, call: Call, now: int)

  datatype System = System(rows: Table, caches: seq<Cache>, renewals: seq<map<Key, int>>)

  ghost predicate Fits(s: System, e: Event) {
    e.store < |s.renewals| && e.allocator < |s.caches|
  }

  function Local(s: System, e: Event): World
    requires Fits(s, e)
  {
    World(s.rows, s.caches[e.allocator], s.renewals[e.store])
  }

  ghost function Step(s: System, e: Event, lease: int): System
    requires Fits(s, e)
  {
    var w := Apply(Local(s, e), e.call, e.now, lease).0;
    System(w.rows, s.caches[e.allocator := w.cache], s.renewals[e.store := w.renewed])
  }

  ghost predicate SystemOk(s: System, clock: int, lease: int) {
    && UniqueIps(s.rows)
    && (forall i | 0 <= i < |s.caches| :: CacheCoherent(s.caches[i], s.rows, clock, lease))
    && (forall i | 0 <= i < |s.renewals| :: RenewalsHonoured(s.renewals[i], s.rows, clock, lease))
  }

  /** Replicas start with nothing cached, on whatever table is there. */
  ghost predicate Initial(s: System) {
    && UniqueIps(s.rows)
    && (forall i | 0 <= i < |s.caches| :: s.caches[i] == EMPTY_CACHE)
    && (forall i | 0 <= i < |s.renewals| :: s.renewals[i] == map[])
  }

  /** The run's clock starts after Go's zero time and never goes back. */
  ghost predicate Timed(run: seq<Event>) {
    && (forall i | 0 <= i < |run| :: 0 < run[i].now)
    && (forall i, j | 0 <= i < j < |run| :: run[i].now <= run[j].now)
  }

  ghost predicate Runs(s: System, run: seq<Event>) {
    Timed(run) && forall i | 0 <= i < |run| :: Fits(s, run[i])
  }

  ghost function After(s: System, run: seq<Event>, lease: int): (r: System)
    requires Runs(s, run)
    ensures |r.caches| == |s.caches| && |r.renewals| == |s.renewals|
  {
    if run == [] then s else Step(After(s, run[..|run| - 1], lease), run[|run| - 1], lease)
  }

  /** The state in which event i acts. */
  ghost function At(s: System, run: seq<Event>, i: nat, lease: int): (r: System)
    requires Runs(s, run) && i <= |run|
    ensures |r.caches| == |s.caches| && |r.renewals| == |s.renewals|
  {
    After(s, run[..i], lease)
  }

  ghost function AnswerOf(s: System, run: seq<Event>, i: nat, lease: int): Answer
    requires Runs(s, run) && i < |run|
  {
    Apply(Local(At(s, run, i, lease), run[i]), run[i].call, run[i].now, lease).1
  }

  lemma AtStart(s: System, run: seq<Event>, lease: int)
    requires Runs(s, run)
    ensures At(s, run, 0, lease) == s
  {
    assert run[..0] == [];
  }

  lemma AtStep(s: System, run: seq<Event>, i: nat, lease: int)
    requires Runs(s, run) && i < |run|
    ensures At(s, run, i + 1, lease) == Step(At(s, run, i, lease), run[i], lease)
  {
    assert run[..i + 1][..i] == run[..i];
  }

  lemma InitialOk(s: System, clock: int, lease: int)
    requires Initial(s)
    ensures SystemOk(s, clock, lease)
  {
  }

  lemma {:induction false} StepKeeps(s: System, e: Event, clock: int, lease: int)
    requires Fits(s, e) && SystemOk(s, clock, lease) && 0 < clock <= e.now && 0 < lease
    ensures Correct(Local(s, e), e.call, e.now, lease)
    ensures SystemOk(Step(s, e, lease), e.now, lease)
  {
    OperationCorrect(Local(s, e), e.call, clock, e.now, lease);
    var s' := Step(s, e, lease);
    forall i | 0 <= i < |s'.caches|
      ensures CacheCoherent(s'.caches[i], s'.rows, e.now, lease)
    {
      CoherenceKept(s.caches[i], s.rows, s'.rows, clock, e.now, lease);
    }
    forall i | 0 <= i < |s'.renewals|
      ensures RenewalsHonoured(s'.renewals[i], s'.rows, e.now, lease)
    {
      RenewalsKept(s.renewals[i], s.rows, s'.rows, clock, e.now, lease);
    }
  }

  /** The invariant holds before every event, at the time of that event. */
  lemma {:induction false} InvariantAt(s: System, run: seq<Event>, i: nat, lease: int)
    requires Initial(s) && Runs(s, run) && i < |run| && 0 < lease
    ensures SystemOk(At(s, run, i, lease), if i == 0 then run[0].now else run[i - 1].now, lease)
    ensures Correct(Local(At(s, run, i, lease), run[i]), run[i].call, run[i].now, lease)
  {
    if i == 0 {
      assert run[..0] == [];
      InitialOk(s, run[0].now, lease);
      StepKeeps(s, run[0], run[0].now, lease);
    } else {
      InvariantAt(s, run, i - 1, lease);
      AtStep(s, run, i - 1, lease);
      var before := At(s, run, i - 1, lease);
      StepKeeps(before, run[i - 1], if i == 1 then run[0].now else run[i - 2].now, lease);
      StepKeeps(At(s, run, i, lease), run[i], run[i - 1].now, lease);
    }
  }

  /** Cache refines table: in every run each answer is what the table alone gives at that time. */
  lemma CacheRefinesTable(s: System, run: seq<Event>, i: nat, lease: int)
    requires Initial(s) && Runs(s, run) && i < |run| && 0 < lease
    ensures AnswerOf(s, run, i, lease) == TableAnswer(At(s, run, i, lease).rows, run[i].call, run[i].now)
  {
    InvariantAt(s, run, i, lease);
  }

  /** How long an answer given at `now` is guaranteed to stand. */
  function StandsUntil(now: int, lease: int): int {
    if lease > RENEWAL_DEBOUNCE then now + lease - RENEWAL_DEBOUNCE + 1 else now + 1
  }

  /** Event i leaves the row it answered backed until StandsUntil. */
  lemma RowSettles(s: System, run: seq<Event>, i: nat, lease: int)
    requires Initial(s) && Runs(s, run) && i < |run| && 0 < lease && AnswerOf(s, run, i, lease).Answer?
    ensures var answer := AnswerOf(s, run, i, lease);
            Backed(At(s, run, i + 1, lease).rows, answer.key, answer.ip, StandsUntil(run[i].now, lease))
  {
    hide Apply;
    InvariantAt(s, run, i, lease);
    AtStep(s, run, i, lease);
  }

  /** An event before the end of a backed row's time leaves it backed. */
  lemma RowSurvives(s: System, run: seq<Event>, i: nat, lease: int, k: Key, ip: Addr, until: int)
    requires Initial(s) && Runs(s, run) && i < |run| && 0 < lease
    requires Backed(At(s, run, i, lease).rows, k, ip, until) && run[i].now < until <= run[i].now + lease
    ensures Backed(At(s, run, i + 1, lease).rows, k, ip, until)
  {
    hide Apply;
    InvariantAt(s, run, i, lease);
    AtStep(s, run, i, lease);
    assert Evolves(At(s, run, i, lease).rows, At(s, run, i + 1, lease).rows, run[i].now, lease);
  }

  /** An answered row stays, with its address, through every event before StandsUntil. */
  lemma {:induction false} RowStands(s: System, run: seq<Event>, i: nat, j: nat, lease: int)
    requires Initial(s) && Runs(s, run) && i < j < |run| && 0 < lease
    requires AnswerOf(s, run, i, lease).Answer? && run[j].now < StandsUntil(run[i].now, lease)
    ensures var answer := AnswerOf(s, run, i, lease);
            Backed(At(s, run, j, lease).rows, answer.key, answer.ip, StandsUntil(run[i].now, lease))
  {
    hide AnswerOf, At, Backed;
    if i == j - 1 {
      RowSettles(s, run, i, lease);
    } else {
      RowStands(s, run, i, j - 1, lease);
      var answer := AnswerOf(s, run, i, lease);
      RowSurvives(s, run, j - 1, lease, answer.key, answer.ip, StandsUntil(run[i].now, lease));
    }
  }

  predicate Asks(call: Call, k: Key, ip: Addr) {
    match call
    case LookupKeyCall(key) => key == k
    case LookupCall(a) => a == ip
    case AllocateCall(key, _) => key == k
  }

  /**
    The registry's promise, over every run: while an answer stands, whoever asks for that name
    or that address, at any replica, gets the same answer, and no other name is given that
    address nor that name another address.
   */
  lemma AnswersAgree(s: System, run: seq<Event>, i: nat, j: nat, lease: int)
    requires Initial(s) && Runs(s, run) && i < j < |run| && 0 < lease
    requires AnswerOf(s, run, i, lease).Answer? && run[j].now < StandsUntil(run[i].now, lease)
    ensures var first, later := AnswerOf(s, run, i, lease), AnswerOf(s, run, j, lease);
            && (Asks(run[j].call, first.key, first.ip) ==> later == first)
            && (later.Answer? ==> (later.key == first.key <==> later.ip == first.ip))
  {
    hide Apply;
    RowStands(s, run, i, j, lease);
    InvariantAt(s, run, j, lease);
    var rows := At(s, run, j, lease).rows;
    var w' := Apply(Local(At(s, run, j, lease), run[j]), run[j].call, run[j].now, lease).0;
    assert Evolves(rows, w'.rows, run[j].now, lease);
  }

  /** The time to live that the address records carry. */
  const RECORD_TTL: int := Wire.TTL_SECONDS * SECOND

  /** An address answered for one name is not answered for another while the first record may be cached. */
  ghost predicate TtlSafe(s: System, run: seq<Event>, lease: int)
    requires Runs(s, run)
  {
    forall i, j | 0 <= i < j < |run| ::
      var first, later := AnswerOf(s, run, i, lease), AnswerOf(s, run, j, lease);
      first.Answer? && later.Answer? && first.ip == later.ip && first.key != later.key ==>
        run[j].now > run[i].now + RECORD_TTL
  }

  lemma {:induction false} TtlSafeForLongLeases(s: System, run: seq<Event>, lease: int)
    requires Initial(s) && Runs(s, run) && lease >= RECORD_TTL + RENEWAL_DEBOUNCE
    ensures TtlSafe(s, run, lease)
  {
    forall i, j | 0 <= i < j < |run| && AnswerOf(s, run, i, lease).Answer?
      && run[j].now <= run[i].now + RECORD_TTL
      ensures var first, later := AnswerOf(s, run, i, lease), AnswerOf(s, run, j, lease);
              later.Answer? && first.ip == later.ip ==> first.key == later.key
    {
      AnswersAgree(s, run, i, j, lease);
    }
  }

  /** The uses of one name, each soon enough after the one before. */
  ghost predicate UsedSteadily(s: System, run: seq<Event>, uses: seq<nat>, k: Key, lease: int)
    requires Runs(s, run)
  {
    && (forall m | 0 <= m < |uses| :: uses[m] < |run| && Answered(s, run, uses[m], k, lease))
    && (forall m | 0 < m < |uses| ::
          uses[m - 1] < uses[m] && run[uses[m]].now <= run[uses[m - 1]].now + lease - RENEWAL_DEBOUNCE)
  }

  ghost predicate Answered(s: System, run: seq<Event>, i: nat, k: Key, lease: int)
    requires Runs(s, run) && i < |run|
  {
    AnswerOf(s, run, i, lease).Answer? && AnswerOf(s, run, i, lease).key == k
  }

  /**
    Stability: a name used again and again, by any replicas, at gaps of at most the lease less
    the debounce keeps one address, whatever else happens in between.
   */
  lemma {:induction false} AddressIsStable(s: System, run: seq<Event>, uses: seq<nat>, k: Key, lease: int, m: nat)
    requires Initial(s) && Runs(s, run) && lease > RENEWAL_DEBOUNCE
    requires UsedSteadily(s, run, uses, k, lease) && m < |uses|
    ensures AnswerOf(s, run, uses[m], lease) == AnswerOf(s, run, uses[0], lease)
  {
    hide AnswerOf;
    if m > 0 {
      AddressIsStable(s, run, uses, k, lease, m - 1);
      assert Answered(s, run, uses[m - 1], k, lease) && Answered(s, run, uses[m], k, lease);
      AnswersAgree(s, run, uses[m - 1], uses[m], lease);
    }
  }

  lemma InvariantAfter(s: System, run: seq<Event>, i: nat, lease: int)
    requires Initial(s) && Runs(s, run) && 0 < i <= |run| && 0 < lease
    ensures SystemOk(At(s, run, i, lease), run[i - 1].now, lease)
    ensures Evolves(At(s, run, i - 1, lease).rows, At(s, run, i, lease).rows, run[i - 1].now, lease)
  {
    hide Apply;
    InvariantAt(s, run, i - 1, lease);
    AtStep(s, run, i - 1, lease);
    StepKeeps(At(s, run, i - 1, lease), run[i - 1], if i == 1 then run[0].now else run[i - 2].now, lease);
  }

  /** A replica's part of every state of a run is one in which the next operation is correct. */
  lemma ReplicaOk(s: System, run: seq<Event>, i: nat, e: Event, lease: int) returns (clock: int)
    requires Initial(s) && Runs(s, run) && i <= |run| && 0 < lease
    requires Fits(At(s, run, i, lease), e) && 0 < e.now && (i > 0 ==> run[i - 1].now <= e.now)
    ensures 0 < clock <= e.now && WorldOk(Local(At(s, run, i, lease), e), clock, lease)
  {
    if i == 0 {
      clock := e.now;
      AtStart(s, run, lease);
      InitialOk(s, clock, lease);
    } else {
      clock := run[i - 1].now;
      InvariantAfter(s, run, i, lease);
    }
  }

  /** Event m takes the address from the row of k, which has expired at the time of the event. */
  ghost predicate Releases(s: System, run: seq<Event>, m: nat, lease: int, k: Key, ip: Addr)
    requires Runs(s, run) && m < |run|
  {
    && HasAddress(At(s, run, m, lease).rows, k, ip) && At(s, run, m, lease).rows[k].expiry <= run[m].now
    && !HasAddress(At(s, run, m + 1, lease).rows, k, ip)
  }

  /** A cache entry that gives the address to another name than l. */
  ghost predicate OtherEntry(c: Cache, ip: Addr, l: Key) {
    (ip in c.byIP && c.byIP[ip] != l) || exists n | n in c.byKey :: n != l && c.byKey[n] == ip
  }

  /**
    Over every run: an address held by one name and later by another was released in between by
    an event at or after the table expiry of the first name's row, however many events lie
    between the release and the reuse; and when the other name has it, every cached copy that
    still gives it to someone else has expired.
   */
  lemma {:induction false} MovesOnlyAfterExpiry(
    s: System, run: seq<Event>, i: nat, j: nat, lease: int, k: Key, l: Key, ip: Addr) returns (m: nat)
    requires Initial(s) && Runs(s, run) && i < j <= |run| && 0 < lease && k != l
    requires HasAddress(At(s, run, i, lease).rows, k, ip) && HasAddress(At(s, run, j, lease).rows, l, ip)
    ensures i <= m < j && Releases(s, run, m, lease, k, ip)
    ensures var caches := At(s, run, j, lease).caches;
            forall c | 0 <= c < |caches| && OtherEntry(caches[c], ip, l) :: caches[c].Stale(ip, run[j - 1].now)
    decreases j - i
  {
    hide At;
    InvariantAfter(s, run, j, lease);
    InvariantAfter(s, run, i + 1, lease);
    if HasAddress(At(s, run, i + 1, lease).rows, k, ip) {
      m := MovesOnlyAfterExpiry(s, run, i + 1, j, lease, k, l, ip);
    } else {
      m := i;
    }
  }

  // ----- the time to live and the lease

  /** A registry key as the DNS path forms it: a valid name under the key of an accepted range list. */
  ghost predicate DnsKey(k: Key, ps: seq<Prefix>) {
    ValidRanges(ps) && k.gateway == RangeKey(ps) && ValidName(k.domain)
  }

  ghost predicate FromDns(call: Call) {
    match call
    case LookupKeyCall(k) => exists ps :: DnsKey(k, ps)
    case LookupCall(_) => true
    case AllocateCall(k, ps) => DnsKey(k, ps)
  }

  /** Event j follows the lookup of its key that the same replica makes at the same time. */
  ghost predicate LookedUp(run: seq<Event>, j: nat)
    requires j < |run| && run[j].call.AllocateCall?
  {
    exists i | 0 <= i < j :: run[i] == run[j].(call := LookupKeyCall(run[j].call.key))
  }

  /** A run of DNS replicas: their keys, and a lookup before every allocation. */
  ghost predicate ServiceRun(s: System, run: seq<Event>) {
    && Initial(s) && Runs(s, run)
    && (forall i | 0 <= i < |run| :: FromDns(run[i].call))
    && (forall j | 0 <= j < |run| && run[j].call.AllocateCall? :: LookedUp(run, j))
  }

  /** 10.254.0.0/31, with one usable address. */
  const ONE_BLOCK: Prefix := Block(0x0AFE_0000, 31)
  const ONE_ADDRESS: Addr := 0x0AFE_0001

  function SampleKey(i: nat): Key {
    Key(RangeKey([ONE_BLOCK]), SampleName(i))
  }

  lemma SampleKeyFromDns(i: nat)
    requires i <= ADDRESS_COUNT
    ensures DnsKey(SampleKey(i), [ONE_BLOCK])
  {
    hide RangeKey;
    SampleNameValid(i);
  }

  lemma OnlyAddressIsFree()
    ensures FirstFree(map[], [ONE_BLOCK]) == V4(ONE_ADDRESS)
  {
    assert Base(ONE_BLOCK) == 0x0AFE_0000 && Size(ONE_BLOCK) == 2;
    assert FirstFreeIn(map[], ONE_BLOCK, V4(ONE_ADDRESS)) == V4(ONE_ADDRESS);
  }

  const FRESH := World(map[], EMPTY_CACHE, map[])

  /** One address, two names: a debounced use at t1 does not delay the reuse one lease after time 1. */
  lemma DebouncedUse(k: Key, l: Key, lease: int, t1: int)
    requires 0 < t1 <= lease && t1 <= RENEWAL_DEBOUNCE && k != l
    ensures var w := FRESH.Allocate(k, [ONE_BLOCK], 1, lease).0;
            && Apply(FRESH, LookupKeyCall(k), 1, lease) == (FRESH, NoAnswer)
            && Apply(FRESH, AllocateCall(k, [ONE_BLOCK]), 1, lease).0 == w
            && Apply(w, LookupKeyCall(k), t1, lease) == (w, Answer(k, ONE_ADDRESS))
            && Apply(w, LookupKeyCall(l), 1 + lease, lease) == (w, NoAnswer)
            && Apply(w, AllocateCall(l, [ONE_BLOCK]), 1 + lease, lease).1 == Answer(l, ONE_ADDRESS)
  {
    OnlyAddressIsFree();
    assert DeleteExpired(map[], 1) == map[];
    assert DeleteExpired(map[k := Row(ONE_ADDRESS, 1 + lease)], 1 + lease) == map[];
  }

  function Alone(w: World): System {
    System(w.rows, [w.cache], [w.renewed])
  }

  /** One replica on its own: an event acts on its world. */
  lemma AloneStep(s: System, run: seq<Event>, i: nat, lease: int, w: World)
    requires Runs(s, run) && i < |run| && run[i].store == run[i].allocator == 0 && At(s, run, i, lease) == Alone(w)
    ensures At(s, run, i + 1, lease) == Alone(Apply(w, run[i].call, run[i].now, lease).0)
    ensures AnswerOf(s, run, i, lease) == Apply(w, run[i].call, run[i].now, lease).1
  {
    hide Apply;
    AtStep(s, run, i, lease);
  }

  /** Two names one after the other on the one address, with a debounced use of the first at t1. */
  function ReuseRun(k: Key, l: Key, lease: int, t1: int): seq<Event> {
    [ Event(0, 0, LookupKeyCall(k), 1),
      Event(0, 0, AllocateCall(k, [ONE_BLOCK]), 1),
      Event(0, 0, LookupKeyCall(k), t1),
      Event(0, 0, LookupKeyCall(l), 1 + lease),
      Event(0, 0, AllocateCall(l, [ONE_BLOCK]), 1 + lease) ]
  }

  lemma ReuseRunIsServiceRun(k: Key, l: Key, lease: int, t1: int)
    requires 0 < t1 <= lease && DnsKey(k, [ONE_BLOCK]) && DnsKey(l, [ONE_BLOCK])
    ensures ServiceRun(Alone(FRESH), ReuseRun(k, l, lease, t1))
  {
    hide DnsKey;
    var run := ReuseRun(k, l, lease, t1);
    assert run[0] == run[1].(call := LookupKeyCall(k));
    assert run[3] == run[4].(call := LookupKeyCall(l));
  }

  lemma {:induction false} ReuseRunAnswers(k: Key, l: Key, lease: int, t1: int)
    requires 0 < t1 <= lease && t1 <= RENEWAL_DEBOUNCE && k != l
    requires Runs(Alone(FRESH), ReuseRun(k, l, lease, t1))
    ensures var s, run := Alone(FRESH), ReuseRun(k, l, lease, t1);
            AnswerOf(s, run, 2, lease) == Answer(k, ONE_ADDRESS) && AnswerOf(s, run, 4, lease) == Answer(l, ONE_ADDRESS)
  {
    hide AnswerOf, At, Apply, Runs, World.Allocate;
    var s, run := Alone(FRESH), ReuseRun(k, l, lease, t1);
    DebouncedUse(k, l, lease, t1);
    AtStart(s, run, lease);
    var w := FRESH.Allocate(k, [ONE_BLOCK], 1, lease).0;
    AloneStep(s, run, 0, lease, FRESH);
    AloneStep(s, run, 1, lease, FRESH);
    AloneStep(s, run, 2, lease, w);
    AloneStep(s, run, 3, lease, w);
    AloneStep(s, run, 4, lease, w);
  }

  /** For every shorter lease some run of the service hands an address on within the time to live. */
  lemma {:induction false} ShortLeaseViolatesTtl(lease: int) returns (s: System, run: seq<Event>)
    requires 0 < lease < RECORD_TTL + RENEWAL_DEBOUNCE
    ensures ServiceRun(s, run) && !TtlSafe(s, run, lease)
  {
    hide AnswerOf, ServiceRun, SampleName, RangeKey, DnsKey;
    var k, l := SampleKey(0), SampleKey(1);
    var t1 := if lease < RENEWAL_DEBOUNCE then lease else RENEWAL_DEBOUNCE;
    s, run := Alone(FRESH), ReuseRun(k, l, lease, t1);
    SampleKeyFromDns(0);
    SampleKeyFromDns(1);
    if k == l {
      SampleNameInjective(0, 1);
    }
    ReuseRunIsServiceRun(k, l, lease, t1);
    assert Runs(s, run);
    ReuseRunAnswers(k, l, lease, t1);
    assert run[4].now <= run[2].now + RECORD_TTL;
  }

  /**
    The 600 s time to live of the answers is respected in all runs of the service exactly for
    leases of at least 15 minutes.
   */
  lemma TtlSafeIffLeaseLongEnough(lease: int)
    requires 0 < lease
    ensures (forall s, run | ServiceRun(s, run) :: TtlSafe(s, run, lease)) <==> lease >= 15 * 60 * SECOND
  {
    if lease >= RECORD_TTL + RENEWAL_DEBOUNCE {
      forall s, run | ServiceRun(s, run)
        ensures TtlSafe(s, run, lease)
      {
        TtlSafeForLongLeases(s, run, lease);
      }
    } else {
      var s, run := ShortLeaseViolatesTtl(lease);
    }
  }
}
