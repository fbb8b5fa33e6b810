/**
  From a synthesized answer to an authorized flow: the address a name was given lies in the
  ranges chosen for it, the egress for those ranges takes the flow, the PTR lookup returns the
  name, and the policy allows exactly what it grants.
 */
module EndToEnd {
  import opened Addresses
  import opened Allocators
  import opened Basics
  import opened Grants
  import opened Messages
  import opened Names
  import opened Policy
  import opened PolicyMeaning
  import opened Ports
  import opened RangeKeys
  import opened Registry
  import opened RegistryInvariant
  import opened RegistryRuns
  import opened ReverseNames
  import opened Services
  import opened Tables
  import opened Wire

  /** Every row lies in the ranges its gateway key names. */
  ghost predicate InRange(rows: Table) {
    forall k, ps | k in rows && k.gateway == RangeKey(ps) :: IsUsable(ps, rows[k].ip)
  }

  /** Allocations of the DNS path: the gateway is the key of the ranges. */
  ghost predicate KeyedByRanges(call: Call) {
    call.AllocateCall? ==> call.key.gateway == RangeKey(call.prefixes)
  }

  /** A row's address was there before or is the first free address of an allocation for its key. */
  lemma RowOrigin(w: World, call: Call, now: int, lease: int, k: Key)
    requires k in Apply(w, call, now, lease).0.rows
    ensures var rows' := Apply(w, call, now, lease).0.rows;
            || (k in w.rows && rows'[k].ip == w.rows[k].ip)
            || (call.AllocateCall? && call.key == k &&
                V4(rows'[k].ip) == FirstFree(DeleteExpired(w.rows, now), call.prefixes))
  {
    hide FirstFree, Cache.RememberUntil, Cache.LookupKeyLive, Cache.LookupLive;
  }

  lemma FirstFreeIsUsable(rows: Table, ps: seq<Prefix>, a: Addr)
    requires FirstFree(rows, ps) == V4(a)
    ensures IsUsable(ps, a)
  {
    var k := FirstFit(rows, ps);
    KthUsableBeyond(ps, k);
    KthUsableComplete(ps, a);
  }

  lemma {:induction false} StepInRange(w: World, call: Call, now: int, lease: int)
    requires InRange(w.rows) && KeyedByRanges(call)
    ensures InRange(Apply(w, call, now, lease).0.rows)
  {
    hide Apply;
    var rows' := Apply(w, call, now, lease).0.rows;
    forall k, ps | k in rows' && k.gateway == RangeKey(ps)
      ensures IsUsable(ps, rows'[k].ip)
    {
      RowOrigin(w, call, now, lease, k);
      if !(k in w.rows && rows'[k].ip == w.rows[k].ip) {
        RangeKeyInjective(ps, call.prefixes);
        FirstFreeIsUsable(DeleteExpired(w.rows, now), ps, rows'[k].ip);
      }
    }
  }

  lemma {:induction false} AlwaysInRange(s: System, run: seq<Event>, i: nat, lease: int)
    requires Runs(s, run) && i <= |run| && InRange(s.rows)
    requires forall j | 0 <= j < |run| :: KeyedByRanges(run[j].call)
    ensures InRange(At(s, run, i, lease).rows)
  {
    hide Apply;
    if i == 0 {
      assert run[..0] == [];
    } else {
      AlwaysInRange(s, run, i - 1, lease);
      RegistryRuns.AtStep(s, run, i - 1, lease);
      StepInRange(Local(At(s, run, i - 1, lease), run[i - 1]), run[i - 1].call, run[i - 1].now, lease);
    }
  }

  /** In every run of the DNS path, an answered address is a usable address of the ranges chosen for its name. */
  lemma AnswerInChosenRanges(s: System, run: seq<Event>, i: nat, lease: int, ranges: seq<Prefix>)
    requires Initial(s) && Runs(s, run) && i < |run| && 0 < lease && InRange(s.rows)
    requires forall j | 0 <= j < |run| :: KeyedByRanges(run[j].call)
    requires AnswerOf(s, run, i, lease).Answer? && AnswerOf(s, run, i, lease).key.gateway == RangeKey(ranges)
    ensures IsUsable(ranges, AnswerOf(s, run, i, lease).ip)
  {
    RowSettles(s, run, i, lease);
    AlwaysInRange(s, run, i + 1, lease);
  }

  /**
    A DNS request in any state of any run: the service's lookup and allocation for the name and
    its ranges answers what the table says at that time, and keeps the replica's state correct.
   */
  lemma {:induction false} RequestInRun(
    s: System, run: seq<Event>, i: nat, e: Event, lease: int, name: Str, ranges: seq<Prefix>)
    requires Initial(s) && Runs(s, run) && i <= |run| && 0 < lease
    requires RegistryRuns.Fits(At(s, run, i, lease), e) && 0 < e.now && (i > 0 ==> run[i - 1].now <= e.now)
    ensures var w, k := RegistryRuns.Local(At(s, run, i, lease), e), Key(RangeKey(ranges), name);
            var (w', ip) := w.Resolve(k, ranges, e.now, lease);
            && (if ip.V4? then Answer(k, ip.addr) else NoAnswer) == TableAnswer(w.rows, AllocateCall(k, ranges), e.now)
            && WorldOk(w', e.now, lease)
            && (ip.V4? ==> Backed(w'.rows, k, ip.addr, StandsUntil(e.now, lease)))
  {
    hide At, WorldOk, TableAnswer, World.Resolve, RangeKey;
    var clock := ReplicaOk(s, run, i, e, lease);
    ResolveCorrect(RegistryRuns.Local(At(s, run, i, lease), e), Key(RangeKey(ranges), name), ranges, clock, e.now, lease);
  }

  /** The egress assigned exactly these ranges is the one that takes the flow. */
  lemma EgressSelectsItself(gateways: map<Str, Gateway>, tag: Str, a: Addr)
    requires tag in gateways && IsUsable(gateways[tag].prefixes, a)
    requires forall t | t in gateways && t != tag :: !Covers(gateways[t].prefixes, V4(a))
    ensures OnlyGateway(gateways, V4(a), tag)
  {
    var i :| 0 <= i < |gateways[tag].prefixes| && Base(gateways[tag].prefixes[i]) < a < End(gateways[tag].prefixes[i]);
    assert Contains(gateways[tag].prefixes[i], V4(a));
  }

  /** At the egress a flow is allowed exactly when a grant for its ranges covers it and no resolver clash comes up. */
  lemma FlowAllowedIff(
    gateways: map<Str, Gateway>, tag: Str, a: Addr, raw: Str, name: Str, grants: seq<Grant>, proto: Str, port: nat)
    requires OnlyGateway(gateways, V4(a), tag) && NormalName(raw) == Some(name)
    ensures (exists r :: FlowAllowed(gateways, V4(a), raw, Some(grants), proto, port, r)) <==>
            && Authorized(grants, gateways[tag].prefixes, Flow(name, proto, port))
            && !Clash(Candidates(grants, gateways[tag], Flow(name, proto, port)))
  {
    var flow := Flow(name, proto, port);
    CandidatesEmpty(grants, gateways[tag], flow);
    var cs := Candidates(grants, gateways[tag], flow);
    if cs != [] && !Clash(cs) {
      var w := HasWinner(cs);
      assert SelectsGateway(grants, gateways[tag], flow, Some(Chosen(gateways[tag], w)));
      assert FlowAllowed(gateways, V4(a), raw, Some(grants), proto, port, Chosen(gateways[tag], w));
    }
  }

  lemma {:induction false} HasWinner(cs: seq<Candidate>) returns (w: Candidate)
    requires cs != [] && !Clash(cs)
    ensures Winner(cs, w)
  {
    var init, last := cs[..|cs| - 1], cs[|cs| - 1];
    assert cs == init + [last];
    if Clash(init) {
      ClashGrows(init, [last]);
    }
    w := last;
    if init != [] {
      w := HasWinner(init);
    }
    TakeCandidate(init, last, w);
    w := if init == [] || last.priority > w.priority then last else w;
  }

  /** Some resource of the grants, whatever their ranges, permits the flow. */
  ghost predicate SomePermits(grants: seq<Grant>, flow: Flow) {
    exists i, j | 0 <= i < |grants| && 0 <= j < |grants[i].resources| :: Permitted(grants[i].resources[j], flow)
  }

  /** When the ranges are those parsed grants choose for the name, any resource that permits the flow authorizes it. */
  lemma {:induction false} AuthorizedIffGranted(
    entries: seq<Option<RawGrant>>, normalize: Str -> Option<Str>, ranges: seq<Prefix>, flow: Flow)
    requires AgreedRanges(Kept(entries, |entries|, normalize), flow.name, ranges)
    ensures Authorized(Kept(entries, |entries|, normalize), ranges, flow) <==>
            SomePermits(Kept(entries, |entries|, normalize), flow)
  {
    var grants := Kept(entries, |entries|, normalize);
    ParsedAuthorizeIff(entries, normalize, ranges, flow);
    hide Kept, Authorized, LabelsMatch, Match, NamesPort;
    forall i, j | 0 <= i < |grants| && 0 <= j < |grants[i].resources| && Permitted(grants[i].resources[j], flow)
      ensures grants[i].ranges == ranges
    {
      MatchIsLabelMatch(grants[i].resources[j].domain, flow.name);
      assert NameCovered(grants[i], flow.name);
    }
  }

  /** A resolver library reports PTR names in absolute form. */
  lemma AbsoluteName(name: Str)
    requires ValidName(name)
    ensures NormalName(name + [DOT]) == Some(name)
  {
    assert TrimSuffixDot(name + [DOT]) == name;
    ValidNameEnd(name);
    NormalNameFixed(name);
  }

  /** A request for the PTR record of an address, and the synthesized answer it follows. */
  ghost predicate AsksBack(s: System, run: seq<Event>, i: nat, j: nat, lease: int, k: Key, ip: Addr)
    requires Runs(s, run)
  {
    && i < j < |run| && run[j].now < StandsUntil(run[i].now, lease)
    && AnswerOf(s, run, i, lease) == Answer(k, ip)
    && run[j].call == LookupCall(ip)
  }

  /** The run is one of DNS replicas that started on a table filled by DNS replicas. */
  ghost predicate DnsRun(s: System, run: seq<Event>) {
    Initial(s) && Runs(s, run) && InRange(s.rows) && forall e | 0 <= e < |run| :: KeyedByRanges(run[e].call)
  }

  /** The PTR side: the reverse name parses to the address, the registry returns the name, and the response decodes to it. */
  lemma PtrLookupReturnsName(
    s: System, run: seq<Event>, i: nat, j: nat, lease: int, ranges: seq<Prefix>, name: Str, ip: Addr, request: Str, end: nat)
    requires DnsRun(s, run) && 0 < lease && ValidName(name)
    requires AsksBack(s, run, i, j, lease, Key(RangeKey(ranges), name), ip)
    requires HoldsQuestion(request, ReverseLabels(ip), end) && U16(request, 8) == 0 && U16(request, 10) == 0
    ensures Reversed(Join(ReverseLabels(ip), DOT)) == V4(ip)
    ensures AnswerOf(s, run, j, lease) == Answer(Key(RangeKey(ranges), name), ip)
    ensures DecodeMessage(PtrResponse(request, end, name)) ==
            Some(Meant(request, ReverseLabels(ip), end, 0,
                       [Record(ReverseLabels(ip), TYPE_PTR, CLASS_IN, TTL_SECONDS, Target(Labels(name)))]))
    ensures NormalName(Join(Labels(name), DOT) + [DOT]) == Some(name)
  {
    hide AnswerOf, DecodeMessage, InRange;
    AnswersAgree(s, run, i, j, lease);
    CanonicalReverse(ip);
    JoinSplit(name, DOT);
    AbsoluteName(name);
    ValidNameWire(name);
    EncodedLength(Labels(name));
    PtrResponseDecodes(request, ReverseLabels(ip), end, name);
  }

  /**
    The whole path, for every run. A name is answered with an address; while the answer stands a
    gateway asks for the PTR record of the address and gets that name; and the egress assigned
    the name's ranges takes the flow and allows it exactly when some resource of the parsed grants
    matches the name label by label and names the port, and no resolver conflict is met.
   */
  lemma {:induction false} AnsweredNameReachesItsEgress(
    s: System, run: seq<Event>, i: nat, j: nat, lease: int, ip: Addr,
    entries: seq<Option<RawGrant>>, normalize: Str -> Option<Str>, name: Str, ranges: seq<Prefix>,
    gateways: map<Str, Gateway>, tag: Str, proto: Str, port: nat)
    requires DnsRun(s, run) && 0 < lease && ValidName(name)
    requires AsksBack(s, run, i, j, lease, Key(RangeKey(ranges), name), ip)
    requires AgreedRanges(Kept(entries, |entries|, normalize), name, ranges)
    requires tag in gateways && gateways[tag].prefixes == ranges
    requires forall t | t in gateways && t != tag :: !Covers(gateways[t].prefixes, V4(ip))
    ensures AnswerOf(s, run, j, lease) == Answer(Key(RangeKey(ranges), name), ip)
    ensures OnlyGateway(gateways, V4(ip), tag)
    ensures var grants, flow := Kept(entries, |entries|, normalize), Flow(name, proto, port);
            (exists r :: FlowAllowed(gateways, V4(ip), name + [DOT], Some(grants), proto, port, r)) <==>
            && SomePermits(grants, flow)
            && !ResourcesConflict(grants, ranges, flow) && !GrantsConflict(grants, ranges, flow)
  {
    hide AnswerOf, FlowAllowed, Clash, Candidates, InRange, AgreedRanges, Authorized, SomePermits, ResourcesConflict,
      GrantsConflict, Kept;
    var grants := Kept(entries, |entries|, normalize);
    AnswerInChosenRanges(s, run, i, lease, ranges);
    AnswersAgree(s, run, i, j, lease);
    EgressSelectsItself(gateways, tag, ip);
    AbsoluteName(name);
    FlowAllowedIff(gateways, tag, ip, name + [DOT], name, grants, proto, port);
    AuthorizedIffGranted(entries, normalize, ranges, Flow(name, proto, port));
    ClashIffConflict(grants, gateways[tag], Flow(name, proto, port));
  }
}
