/**
  Policy evaluation: which gateway and resolver a flow gets (`GatewayFor`), whether it is
  authorized (`Authorize`), and which address ranges a name is synthesized from (`RangesForName`).
 */
module Policy {
  import opened Addresses
  import opened Basics
  import opened Names
  import opened Ports

  datatype Resource = Resource(domain: Str, ports: seq<Str>, upstreamDNS: Str)

  datatype Grant = Grant(upstreamDNS: Str, resources: seq<Resource>, ranges: seq<Prefix>)

  datatype Gateway = Gateway(prefixes: seq<Prefix>, resolver: Str, systemResolver: bool)

  datatype Flow = Flow(name: Str, proto: Str, port: nat)

  const SYSTEM: Str := ['s' as int, 'y' as int, 's' as int, 't' as int, 'e' as int, 'm' as int]

  predicate IsSystemResolver(resolver: Str) {
    ToLower(resolver) == SYSTEM
  }

  predicate ResourceMatches(r: Resource, flow: Flow) {
    Match(r.domain, flow.name) && PortAllowed(r.ports, flow.proto, flow.port)
  }

  // ----- resolver choice

  datatype Candidate = Candidate(resolver: Str, priority: nat)

  function CandidateOf(grant: Grant, resource: Resource, gateway: Gateway): Candidate {
    if resource.upstreamDNS != [] then Candidate(resource.upstreamDNS, 2)
    else if grant.upstreamDNS != [] then Candidate(grant.upstreamDNS, 1)
    else Candidate(gateway.resolver, 0)
  }

  /** The candidates of the first n resources of a grant, in order. */
  function GrantCandidates(grant: Grant, n: nat, gateway: Gateway, flow: Flow): seq<Candidate>
    requires n <= |grant.resources|
  {
    if n == 0 then []
    else
      GrantCandidates(grant, n - 1, gateway, flow) +
      (if ResourceMatches(grant.resources[n - 1], flow) then [CandidateOf(grant, grant.resources[n - 1], gateway)] else [])
  }

  /** The candidates of every matching resource of the grants for this gateway's ranges, in order. */
  function Candidates(grants: seq<Grant>, gateway: Gateway, flow: Flow): seq<Candidate> {
    if grants == [] then []
    else
      (if grants[0].ranges == gateway.prefixes then GrantCandidates(grants[0], |grants[0].resources|, gateway, flow) else []) +
      Candidates(grants[1..], gateway, flow)
  }

  /**
    Two candidates of one priority name different resolvers, and nothing of a higher priority
    comes before the second.
   */
  ghost predicate Clash(cs: seq<Candidate>) {
    exists i, j | 0 <= i < j < |cs| :: ClashAt(cs, i, j)
  }

  ghost predicate ClashAt(cs: seq<Candidate>, i: nat, j: nat)
    requires i < j < |cs|
  {
    && cs[i].priority == cs[j].priority && cs[i].resolver != cs[j].resolver
    && (forall t | 0 <= t < j :: cs[t].priority <= cs[j].priority)
  }

  /** The resolver shared by all candidates of the highest priority. */
  ghost predicate Winner(cs: seq<Candidate>, c: Candidate) {
    && c in cs
    && (forall d | d in cs :: d.priority <= c.priority)
    && (forall d | d in cs && d.priority == c.priority :: d == c)
  }

  function Chosen(gateway: Gateway, c: Candidate): Gateway {
    Gateway(gateway.prefixes, c.resolver, if c.priority > 0 then IsSystemResolver(c.resolver) else gateway.systemResolver)
  }

  /** The result of `GatewayFor`, stated by the candidates alone. */
  ghost predicate SelectsGateway(grants: seq<Grant>, gateway: Gateway, flow: Flow, r: Option<Gateway>) {
    var cs := Candidates(grants, gateway, flow);
    && (r.Some? <==> cs != [] && !Clash(cs))
    && (r.Some? ==> exists c | Winner(cs, c) :: r.value == Chosen(gateway, c))
  }

  lemma {:induction false} CandidatesConcat(gs: seq<Grant>, hs: seq<Grant>, gateway: Gateway, flow: Flow)
    ensures Candidates(gs + hs, gateway, flow) == Candidates(gs, gateway, flow) + Candidates(hs, gateway, flow)
  {
    if gs == [] {
      assert gs + hs == hs;
    } else {
      assert (gs + hs)[1..] == gs[1..] + hs;
      CandidatesConcat(gs[1..], hs, gateway, flow);
    }
  }

  lemma CandidatesStep(grants: seq<Grant>, i: nat, gateway: Gateway, flow: Flow)
    requires i < |grants|
    ensures Candidates(grants[..i + 1], gateway, flow) == Candidates(grants[..i], gateway, flow) +
            if grants[i].ranges == gateway.prefixes then GrantCandidates(grants[i], |grants[i].resources|, gateway, flow) else []
  {
    assert grants[..i + 1] == grants[..i] + [grants[i]];
    CandidatesConcat(grants[..i], [grants[i]], gateway, flow);
    assert [grants[i]][1..] == [];
  }

  /** The locals of the loop in `GatewayFor`. */
  datatype Locals = Locals(matched: bool, resolver: Str, priority: nat, system: bool)

  /** The locals after the candidates cs. */
  ghost predicate Running(cs: seq<Candidate>, gateway: Gateway, l: Locals) {
    && !Clash(cs)
    && (l.matched <==> cs != [])
    && (l.matched ==> Winner(cs, Candidate(l.resolver, l.priority)))
    && l.system == (if l.matched && l.priority > 0 then IsSystemResolver(l.resolver) else gateway.systemResolver)
  }

  lemma ClashGrows(cs: seq<Candidate>, ds: seq<Candidate>)
    requires Clash(cs)
    ensures Clash(cs + ds)
  {
    var i, j :| 0 <= i < j < |cs| && ClashAt(cs, i, j);
    assert ClashAt(cs + ds, i, j);
  }

  lemma ClashWithin(cs: seq<Candidate>, c: Candidate, i: nat, j: nat)
    requires i < j < |cs| && ClashAt(cs + [c], i, j)
    ensures ClashAt(cs, i, j)
  {
    var ds := cs + [c];
    forall t | 0 <= t < j
      ensures cs[t].priority <= cs[j].priority
    {
      assert ds[t] == cs[t];
    }
  }

  /** A clash that the last candidate brings is with the winner so far. */
  lemma ClashWithWinner(cs: seq<Candidate>, c: Candidate, w: Candidate)
    requires !Clash(cs) && Clash(cs + [c]) && (cs != [] ==> Winner(cs, w))
    ensures cs != [] && c.priority == w.priority && c != w
  {
    var ds := cs + [c];
    var i, j :| 0 <= i < j < |ds| && ClashAt(ds, i, j);
    if j < |cs| {
      ClashWithin(cs, c, i, j);
    }
    assert ds[i] in cs && ds[j] == c;
    var t :| 0 <= t < |cs| && cs[t] == w;
    assert ds[t] == w;
  }

  /** A candidate above the winner so far takes over; one at its level must agree; one below is ignored. */
  lemma TakeCandidate(cs: seq<Candidate>, c: Candidate, w: Candidate)
    requires !Clash(cs) && (cs != [] ==> Winner(cs, w))
    ensures Clash(cs + [c]) <==> cs != [] && c.priority == w.priority && c != w
    ensures !Clash(cs + [c]) ==> Winner(cs + [c], if cs == [] || c.priority > w.priority then c else w)
  {
    if cs != [] && c.priority == w.priority && c != w {
      var i :| 0 <= i < |cs| && cs[i] == w;
      assert ClashAt(cs + [c], i, |cs|);
    } else if Clash(cs + [c]) {
      ClashWithWinner(cs, c, w);
    }
  }

  /** The loop body for one matching resource; not ok when it returns failure. */
  method Consider(ghost cs: seq<Candidate>, gateway: Gateway, c: Candidate, l: Locals) returns (ok: bool, r: Locals)
    requires Running(cs, gateway, l)
    ensures ok <==> !Clash(cs + [c])
    ensures ok ==> Running(cs + [c], gateway, r)
  {
    TakeCandidate(cs, c, Candidate(l.resolver, l.priority));
    if !l.matched || c.priority > l.priority {
      return true, Locals(true, c.resolver, c.priority, if c.priority > 0 then IsSystemResolver(c.resolver) else l.system);
    }
    if c.priority == l.priority && c.resolver != l.resolver {
      return false, l;
    }
    return true, l;
  }

  /** The inner loop, over the resources of one grant. */
  method ConsiderGrant(ghost cs: seq<Candidate>, grant: Grant, gateway: Gateway, flow: Flow, l: Locals)
    returns (ok: bool, r: Locals)
    requires Running(cs, gateway, l)
    ensures ok <==> !Clash(cs + GrantCandidates(grant, |grant.resources|, gateway, flow))
    ensures ok ==> Running(cs + GrantCandidates(grant, |grant.resources|, gateway, flow), gateway, r)
  {
    ok, r := true, l;
    assert cs + [] == cs;
    for i := 0 to |grant.resources|
      invariant ok && Running(cs + GrantCandidates(grant, i, gateway, flow), gateway, r)
    {
      ghost var ds := GrantCandidates(grant, i, gateway, flow);
      var resource := grant.resources[i];
      var portOk := AllowedPort(resource.ports, flow.proto, flow.port);
      if Match(resource.domain, flow.name) && portOk {
        var c := CandidateOf(grant, resource, gateway);
        ok, r := Consider(cs + ds, gateway, c, r);
        assert cs + GrantCandidates(grant, i + 1, gateway, flow) == cs + ds + [c];
        if !ok {
          ClashStays(cs, grant, i + 1, gateway, flow);
          return;
        }
      } else {
        assert GrantCandidates(grant, i + 1, gateway, flow) == ds;
      }
    }
  }

  lemma {:induction false} GrantCandidatesGrow(grant: Grant, n: nat, m: nat, gateway: Gateway, flow: Flow)
    requires n <= m <= |grant.resources|
    ensures GrantCandidates(grant, n, gateway, flow) <= GrantCandidates(grant, m, gateway, flow)
    decreases m
  {
    if n < m {
      GrantCandidatesGrow(grant, n, m - 1, gateway, flow);
    }
  }

  lemma ClashStays(cs: seq<Candidate>, grant: Grant, n: nat, gateway: Gateway, flow: Flow)
    requires n <= |grant.resources| && Clash(cs + GrantCandidates(grant, n, gateway, flow))
    ensures Clash(cs + GrantCandidates(grant, |grant.resources|, gateway, flow))
  {
    GrantCandidatesGrow(grant, n, |grant.resources|, gateway, flow);
    var ds, all := GrantCandidates(grant, n, gateway, flow), GrantCandidates(grant, |grant.resources|, gateway, flow);
    assert all == ds + all[|ds|..];
    ClashGrows(cs + ds, all[|ds|..]);
    assert cs + ds + all[|ds|..] == cs + all;
  }

  method GatewayFor(grants: seq<Grant>, gateway: Gateway, flow: Flow) returns (r: Option<Gateway>)
    ensures SelectsGateway(grants, gateway, flow, r)
  {
    var l := Locals(false, gateway.resolver, 0, gateway.systemResolver);
    for i := 0 to |grants|
      invariant Running(Candidates(grants[..i], gateway, flow), gateway, l)
    {
      ghost var cs := Candidates(grants[..i], gateway, flow);
      CandidatesStep(grants, i, gateway, flow);
      if grants[i].ranges == gateway.prefixes {
        var ok;
        ok, l := ConsiderGrant(cs, grants[i], gateway, flow, l);
        if !ok {
          assert grants == grants[..i + 1] + grants[i + 1..];
          CandidatesConcat(grants[..i + 1], grants[i + 1..], gateway, flow);
          ClashGrows(Candidates(grants[..i + 1], gateway, flow), Candidates(grants[i + 1..], gateway, flow));
          return None;
        }
      } else {
        assert cs + [] == cs;
      }
    }
    assert grants[..|grants|] == grants;
    if !l.matched {
      return None;
    }
    assert Winner(Candidates(grants, gateway, flow), Candidate(l.resolver, l.priority));
    return Some(Gateway(gateway.prefixes, l.resolver, l.system));
  }

  // ----- authorization

  /** Some grant with exactly these ranges has a resource for the flow. */
  ghost predicate Authorized(grants: seq<Grant>, prefixes: seq<Prefix>, flow: Flow) {
    exists i | 0 <= i < |grants| :: grants[i].ranges == prefixes && GrantCovers(grants[i], flow)
  }

  ghost predicate GrantCovers(grant: Grant, flow: Flow) {
    exists j | 0 <= j < |grant.resources| :: ResourceMatches(grant.resources[j], flow)
  }

  method Authorize(grants: seq<Grant>, prefixes: seq<Prefix>, flow: Flow) returns (ok: bool)
    ensures ok <==> Authorized(grants, prefixes, flow)
    ensures ok <==>
            exists i, j | 0 <= i < |grants| && 0 <= j < |grants[i].resources| ::
              && grants[i].ranges == prefixes && Match(grants[i].resources[j].domain, flow.name)
              && PortAllowed(grants[i].resources[j].ports, flow.proto, flow.port)
  {
    hide Match, PortAllowed;
    for i := 0 to |grants|
      invariant forall m | 0 <= m < i :: !(grants[m].ranges == prefixes && GrantCovers(grants[m], flow))
    {
      if grants[i].ranges != prefixes {
        continue;
      }
      var resources := grants[i].resources;
      for j := 0 to |resources|
        invariant forall m | 0 <= m < j :: !ResourceMatches(resources[m], flow)
      {
        var portOk := AllowedPort(resources[j].ports, flow.proto, flow.port);
        if Match(resources[j].domain, flow.name) && portOk {
          assert grants[i].resources[j] == resources[j];
          return true;
        }
      }
    }
    return false;
  }

  lemma {:induction false} GrantCandidatesEmpty(grant: Grant, n: nat, gateway: Gateway, flow: Flow)
    requires n <= |grant.resources|
    ensures GrantCandidates(grant, n, gateway, flow) != [] <==>
            exists j | 0 <= j < n :: ResourceMatches(grant.resources[j], flow)
  {
    if n > 0 {
      GrantCandidatesEmpty(grant, n - 1, gateway, flow);
    }
  }

  lemma {:induction false} CandidatesEmpty(grants: seq<Grant>, gateway: Gateway, flow: Flow)
    ensures Candidates(grants, gateway, flow) != [] <==> Authorized(grants, gateway.prefixes, flow)
  {
    if grants != [] {
      CandidatesEmpty(grants[1..], gateway, flow);
      GrantCandidatesEmpty(grants[0], |grants[0].resources|, gateway, flow);
      if Authorized(grants[1..], gateway.prefixes, flow) {
        var i :| 0 <= i < |grants[1..]| && grants[1..][i].ranges == gateway.prefixes && GrantCovers(grants[1..][i], flow);
        assert grants[i + 1] == grants[1..][i];
      }
      if Authorized(grants, gateway.prefixes, flow) {
        var i :| 0 <= i < |grants| && grants[i].ranges == gateway.prefixes && GrantCovers(grants[i], flow);
        if i > 0 {
          assert grants[1..][i - 1] == grants[i];
        }
      }
    }
  }

  /** `GatewayFor` allows a flow exactly when it is authorized and no resolver clash comes up. */
  lemma GatewayForAuthorizes(grants: seq<Grant>, gateway: Gateway, flow: Flow, r: Option<Gateway>)
    requires SelectsGateway(grants, gateway, flow, r)
    ensures r.Some? <==> Authorized(grants, gateway.prefixes, flow) && !Clash(Candidates(grants, gateway, flow))
  {
    CandidatesEmpty(grants, gateway, flow);
  }

  // ----- range choice

  ghost predicate NameCovered(grant: Grant, name: Str) {
    exists j | 0 <= j < |grant.resources| :: Match(grant.resources[j].domain, name)
  }

  /** These are the ranges of every grant that covers the name, and there is one. */
  ghost predicate AgreedRanges(grants: seq<Grant>, name: Str, ranges: seq<Prefix>) {
    && (exists i | 0 <= i < |grants| :: NameCovered(grants[i], name))
    && (forall i | 0 <= i < |grants| && NameCovered(grants[i], name) :: grants[i].ranges == ranges)
  }

  /** The code's nil slice is the empty sequence; parsed grants never have empty ranges. */
  method RangesForName(grants: seq<Grant>, name: Str) returns (r: Option<seq<Prefix>>)
    requires forall i | 0 <= i < |grants| :: grants[i].ranges != []
    ensures forall ranges :: r == Some(ranges) <==> AgreedRanges(grants, name, ranges)
  {
    var ranges: seq<Prefix> := [];
    for i := 0 to |grants|
      invariant ranges == [] <==> forall m | 0 <= m < i :: !NameCovered(grants[m], name)
      invariant forall m | 0 <= m < i && NameCovered(grants[m], name) :: grants[m].ranges == ranges
    {
      ghost var before := ranges;
      var resources := grants[i].resources;
      for j := 0 to |resources|
        invariant (exists m | 0 <= m < j :: Match(resources[m].domain, name)) ==>
                    ranges == grants[i].ranges && (before == [] || before == ranges)
        invariant (forall m | 0 <= m < j :: !Match(resources[m].domain, name)) ==> ranges == before
      {
        if !Match(resources[j].domain, name) {
          continue;
        }
        if ranges != [] && ranges != grants[i].ranges {
          assert NameCovered(grants[i], name);
          return None;
        }
        ranges := grants[i].ranges;
      }
    }
    return if ranges != [] then Some(ranges) else None;
  }
}
