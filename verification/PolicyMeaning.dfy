/**
  What the policy decisions mean in terms of the grants and resources themselves: which
  resources permit a flow, which resolver an allowed flow gets, and which grants conflict.
 */
module PolicyMeaning {
  import opened Addresses
  import opened Basics
  import opened Names
  import opened Policy
  import opened Ports

  // ----- which resources permit a flow

  /** The name matches label by label, and the port list is empty or names protocol and port. */
  ghost predicate Permitted(r: Resource, flow: Flow) {
    && LabelsMatch(Labels(r.domain), Labels(flow.name))
    && (r.ports == [] || exists e | 0 <= e < |r.ports| :: NamesPort(r.ports[e], flow.proto, flow.port))
  }

  lemma MatchesIffPermitted(r: Resource, flow: Flow)
    requires forall i | 0 <= i < |r.ports| :: ValidPort(r.ports[i])
    ensures ResourceMatches(r, flow) <==> Permitted(r, flow)
  {
    hide LabelsMatch, Match, PortAllowed, NamesPort, ValidPort;
    MatchIsLabelMatch(r.domain, flow.name);
    AllowedPortMeaning(r.ports, flow.proto, flow.port);
  }

  // ----- the matching resources, in order

  /** Resource j of grant i is one of these ranges and matches the flow. */
  ghost predicate Matching(grants: seq<Grant>, ranges: seq<Prefix>, flow: Flow, i: nat, j: nat) {
    && i < |grants| && j < |grants[i].resources| && grants[i].ranges == ranges
    && Match(grants[i].resources[j].domain, flow.name)
    && PortAllowed(grants[i].resources[j].ports, flow.proto, flow.port)
  }

  predicate Precedes(i: nat, j: nat, m: nat, n: nat) {
    i < m || (i == m && j < n)
  }

  datatype Position = Position(grant: nat, resource: nat)

  function GrantPositions(grant: Grant, i: nat, n: nat, flow: Flow): seq<Position>
    requires n <= |grant.resources|
  {
    if n == 0 then []
    else
      GrantPositions(grant, i, n - 1, flow) +
      (if ResourceMatches(grant.resources[n - 1], flow) then [Position(i, n - 1)] else [])
  }

  /** The positions of the matching resources of the first n grants. */
  function Positions(grants: seq<Grant>, n: nat, ranges: seq<Prefix>, flow: Flow): seq<Position>
    requires n <= |grants|
  {
    if n == 0 then []
    else
      Positions(grants, n - 1, ranges, flow) +
      (if grants[n - 1].ranges == ranges then GrantPositions(grants[n - 1], n - 1, |grants[n - 1].resources|, flow) else [])
  }

  /** Where candidate t of a list comes from. */
  ghost predicate ComesFrom(grants: seq<Grant>, gateway: Gateway, p: Position, c: Candidate) {
    && p.grant < |grants| && p.resource < |grants[p.grant].resources|
    && c == CandidateOf(grants[p.grant], grants[p.grant].resources[p.resource], gateway)
  }

  lemma {:induction false} GrantPositionsFit(grants: seq<Grant>, i: nat, n: nat, gateway: Gateway, flow: Flow)
    requires i < |grants| && n <= |grants[i].resources|
    ensures var ps, cs := GrantPositions(grants[i], i, n, flow), GrantCandidates(grants[i], n, gateway, flow);
            |ps| == |cs| && forall t | 0 <= t < |ps| :: ComesFrom(grants, gateway, ps[t], cs[t])
  {
    hide ResourceMatches, CandidateOf;
    if n > 0 {
      GrantPositionsFit(grants, i, n - 1, gateway, flow);
    }
  }

  /** The candidates are those of the positions, one by one. */
  lemma {:induction false} PositionsFit(grants: seq<Grant>, n: nat, gateway: Gateway, flow: Flow)
    requires n <= |grants|
    ensures var ps, cs := Positions(grants, n, gateway.prefixes, flow), Candidates(grants[..n], gateway, flow);
            |ps| == |cs| && forall t | 0 <= t < |ps| :: ComesFrom(grants, gateway, ps[t], cs[t])
  {
    if n > 0 {
      hide Candidates, ComesFrom, GrantCandidates, GrantPositions;
      PositionsFit(grants, n - 1, gateway, flow);
      CandidatesStep(grants, n - 1, gateway, flow);
      GrantPositionsFit(grants, n - 1, |grants[n - 1].resources|, gateway, flow);
    }
  }

  ghost predicate InOrder(ps: seq<Position>) {
    forall t, u | 0 <= t < u < |ps| :: Precedes(ps[t].grant, ps[t].resource, ps[u].grant, ps[u].resource)
  }

  lemma {:induction false} GrantPositionsExact(grant: Grant, i: nat, n: nat, flow: Flow)
    requires n <= |grant.resources|
    ensures var ps := GrantPositions(grant, i, n, flow);
            && InOrder(ps)
            && forall p :: p in ps <==> p.grant == i && p.resource < n && ResourceMatches(grant.resources[p.resource], flow)
  {
    hide ResourceMatches;
    if n > 0 {
      GrantPositionsExact(grant, i, n - 1, flow);
      var before := GrantPositions(grant, i, n - 1, flow);
      assert forall t | 0 <= t < |before| :: before[t] in before;
    }
  }

  lemma {:induction false} PositionsExact(grants: seq<Grant>, n: nat, ranges: seq<Prefix>, flow: Flow)
    requires n <= |grants|
    ensures var ps := Positions(grants, n, ranges, flow);
            && InOrder(ps)
            && forall p :: p in ps <==> p.grant < n && Matching(grants, ranges, flow, p.grant, p.resource)
  {
    hide GrantPositions, Match, PortAllowed;
    if n > 0 {
      PositionsExact(grants, n - 1, ranges, flow);
      var before := Positions(grants, n - 1, ranges, flow);
      var own := GrantPositions(grants[n - 1], n - 1, |grants[n - 1].resources|, flow);
      GrantPositionsExact(grants[n - 1], n - 1, |grants[n - 1].resources|, flow);
      assert forall t | 0 <= t < |before| :: before[t] in before;
      assert forall t | 0 <= t < |own| :: own[t] in own;
    }
  }

  /** Number t of the matching resources, and the candidate it gives. */
  ghost predicate Numbered(
    grants: seq<Grant>, gateway: Gateway, flow: Flow, cs: seq<Candidate>, ps: seq<Position>)
  {
    && cs == Candidates(grants, gateway, flow)
    && |ps| == |cs| && InOrder(ps)
    && (forall t | 0 <= t < |ps| :: ComesFrom(grants, gateway, ps[t], cs[t]))
    && (forall p :: p in ps <==> Matching(grants, gateway.prefixes, flow, p.grant, p.resource))
  }

  lemma CandidatesNumbered(grants: seq<Grant>, gateway: Gateway, flow: Flow) returns (cs: seq<Candidate>, ps: seq<Position>)
    ensures Numbered(grants, gateway, flow, cs, ps)
  {
    hide Candidates, Positions, ComesFrom, InOrder;
    cs, ps := Candidates(grants, gateway, flow), Positions(grants, |grants|, gateway.prefixes, flow);
    assert grants[..|grants|] == grants;
    PositionsFit(grants, |grants|, gateway, flow);
    PositionsExact(grants, |grants|, gateway.prefixes, flow);
  }

  lemma NumberOf(ps: seq<Position>, i: nat, j: nat) returns (t: nat)
    requires Position(i, j) in ps
    ensures t < |ps| && ps[t] == Position(i, j)
  {
    t :| 0 <= t < |ps| && ps[t] == Position(i, j);
  }

  // ----- the resolver of an allowed flow

  /** The resolver a matching resource names itself; empty if none. */
  function OwnResolver(grants: seq<Grant>, i: nat, j: nat): Str
    requires i < |grants| && j < |grants[i].resources|
  {
    grants[i].resources[j].upstreamDNS
  }

  /** The flow's gateway uses this resolver, through the host's own path if it spells "system" in any letter case. */
  ghost predicate Uses(g: Gateway, resolver: Str) {
    g.resolver == resolver && (g.systemResolver <==> SpelledAs(resolver, Ascii("system")))
  }

  lemma SystemSpelled(resolver: Str)
    ensures IsSystemResolver(resolver) <==> SpelledAs(resolver, Ascii("system"))
  {
    assert SYSTEM == Ascii("system");
    LowerIsSpelling(resolver, SYSTEM);
  }

  /**
    A resolver named by matching resources wins over one named by their grants, which wins over
    the gateway's own; all that name one at the winning level name the same.
   */
  lemma {:induction false} ResolverChosen(grants: seq<Grant>, gateway: Gateway, flow: Flow, g: Gateway)
    requires SelectsGateway(grants, gateway, flow, Some(g))
    ensures g.prefixes == gateway.prefixes
    ensures exists i: nat, j: nat :: Matching(grants, gateway.prefixes, flow, i, j)
    ensures forall i: nat, j: nat | Matching(grants, gateway.prefixes, flow, i, j) && OwnResolver(grants, i, j) != [] ::
              Uses(g, OwnResolver(grants, i, j))
    ensures (forall i: nat, j: nat | Matching(grants, gateway.prefixes, flow, i, j) :: OwnResolver(grants, i, j) == []) ==>
              forall i: nat, j: nat | Matching(grants, gateway.prefixes, flow, i, j) && grants[i].upstreamDNS != [] ::
                Uses(g, grants[i].upstreamDNS)
    ensures (forall i: nat, j: nat | Matching(grants, gateway.prefixes, flow, i, j) ::
               OwnResolver(grants, i, j) == [] && grants[i].upstreamDNS == []) ==>
              g == gateway
  {
    hide Clash, Match, PortAllowed, IsSystemResolver, SpelledAs, Candidates;
    var cs, ps := CandidatesNumbered(grants, gateway, flow);
    var w :| Winner(cs, w) && g == Chosen(gateway, w);
    SystemSpelled(w.resolver);
    var t :| 0 <= t < |cs| && cs[t] == w;
    assert ps[t] in ps;
    forall i: nat, j: nat | Matching(grants, gateway.prefixes, flow, i, j)
      ensures CandidateOf(grants[i], grants[i].resources[j], gateway) in cs
    {
      var u := NumberOf(ps, i, j);
    }
    assert ComesFrom(grants, gateway, ps[t], w);
  }

  // ----- conflicts

  /** Both resolvers are named, and they are not the same. */
  predicate Differ(x: Str, y: Str) {
    x != [] && y != [] && x != y
  }

  /** Two matching resources name different resolvers. */
  ghost predicate ResourcesConflict(grants: seq<Grant>, ranges: seq<Prefix>, flow: Flow) {
    exists i: nat, j: nat, m: nat, n: nat | Matching(grants, ranges, flow, i, j) && Matching(grants, ranges, flow, m, n) ::
      Differ(OwnResolver(grants, i, j), OwnResolver(grants, m, n))
  }

  /** No matching resource before this one names a resolver itself, nor does this one. */
  ghost predicate NoneNamedUpTo(grants: seq<Grant>, ranges: seq<Prefix>, flow: Flow, m: nat, n: nat) {
    forall i: nat, j: nat | Matching(grants, ranges, flow, i, j) && !Precedes(m, n, i, j) :: OwnResolver(grants, i, j) == []
  }

  /** Two grants name different resolvers for matching resources, met before any resource that names one itself. */
  ghost predicate GrantsConflict(grants: seq<Grant>, ranges: seq<Prefix>, flow: Flow) {
    exists i: nat, j: nat, m: nat, n: nat | Matching(grants, ranges, flow, i, j) && Matching(grants, ranges, flow, m, n) ::
      && Precedes(i, j, m, n) && NoneNamedUpTo(grants, ranges, flow, m, n)
      && Differ(grants[i].upstreamDNS, grants[m].upstreamDNS)
  }

  lemma ClashIsConflict(grants: seq<Grant>, gateway: Gateway, flow: Flow)
    requires Clash(Candidates(grants, gateway, flow))
    ensures ResourcesConflict(grants, gateway.prefixes, flow) || GrantsConflict(grants, gateway.prefixes, flow)
  {
    hide Match, PortAllowed, Candidates;
    var cs, ps := CandidatesNumbered(grants, gateway, flow);
    var s, t :| 0 <= s < t < |cs| && ClashAt(cs, s, t);
    assert ps[s] in ps && ps[t] in ps;
    var i, j, m, n := ps[s].grant, ps[s].resource, ps[t].grant, ps[t].resource;
    assert ComesFrom(grants, gateway, ps[s], cs[s]) && ComesFrom(grants, gateway, ps[t], cs[t]);
    assert Precedes(i, j, m, n);
    if cs[t].priority == 1 {
      forall x: nat, y: nat | Matching(grants, gateway.prefixes, flow, x, y) && !Precedes(m, n, x, y)
        ensures OwnResolver(grants, x, y) == []
      {
        var u := NumberOf(ps, x, y);
        assert u <= t;
        assert ComesFrom(grants, gateway, ps[u], cs[u]);
      }
      assert NoneNamedUpTo(grants, gateway.prefixes, flow, m, n);
    }
  }

  lemma ResourcesConflictClashes(grants: seq<Grant>, gateway: Gateway, flow: Flow)
    requires ResourcesConflict(grants, gateway.prefixes, flow)
    ensures Clash(Candidates(grants, gateway, flow))
  {
    hide Match, PortAllowed, Candidates;
    var cs, ps := CandidatesNumbered(grants, gateway, flow);
    var i: nat, j: nat, m: nat, n: nat :|
      && Matching(grants, gateway.prefixes, flow, i, j) && Matching(grants, gateway.prefixes, flow, m, n)
      && Differ(OwnResolver(grants, i, j), OwnResolver(grants, m, n));
    var s := NumberOf(ps, i, j);
    var t := NumberOf(ps, m, n);
    assert forall u | 0 <= u < |cs| :: ComesFrom(grants, gateway, ps[u], cs[u]);
    assert ClashAt(cs, if s < t then s else t, if s < t then t else s);
  }

  lemma GrantsConflictClashes(grants: seq<Grant>, gateway: Gateway, flow: Flow)
    requires GrantsConflict(grants, gateway.prefixes, flow)
    ensures Clash(Candidates(grants, gateway, flow))
  {
    hide Match, PortAllowed, Candidates;
    var cs, ps := CandidatesNumbered(grants, gateway, flow);
    var i: nat, j: nat, m: nat, n: nat :|
      && Matching(grants, gateway.prefixes, flow, i, j) && Matching(grants, gateway.prefixes, flow, m, n)
      && Precedes(i, j, m, n) && NoneNamedUpTo(grants, gateway.prefixes, flow, m, n)
      && Differ(grants[i].upstreamDNS, grants[m].upstreamDNS);
    var s := NumberOf(ps, i, j);
    var t := NumberOf(ps, m, n);
    assert ComesFrom(grants, gateway, ps[s], cs[s]) && ComesFrom(grants, gateway, ps[t], cs[t]);
    assert s < t;
    forall u | 0 <= u < t
      ensures cs[u].priority <= 1
    {
      assert ps[u] in ps && ComesFrom(grants, gateway, ps[u], cs[u]);
      assert Precedes(ps[u].grant, ps[u].resource, m, n);
    }
    assert ClashAt(cs, s, t);
  }

  lemma ClashIffConflict(grants: seq<Grant>, gateway: Gateway, flow: Flow)
    ensures Clash(Candidates(grants, gateway, flow)) <==>
            ResourcesConflict(grants, gateway.prefixes, flow) || GrantsConflict(grants, gateway.prefixes, flow)
  {
    hide Clash, Candidates, ResourcesConflict, GrantsConflict;
    if Clash(Candidates(grants, gateway, flow)) {
      ClashIsConflict(grants, gateway, flow);
    } else if ResourcesConflict(grants, gateway.prefixes, flow) {
      ResourcesConflictClashes(grants, gateway, flow);
    } else if GrantsConflict(grants, gateway.prefixes, flow) {
      GrantsConflictClashes(grants, gateway, flow);
    }
  }

  /** The decision, without candidates: a gateway exactly if some resource matches and no conflict is met. */
  lemma {:induction false} GatewayIffNoConflict(grants: seq<Grant>, gateway: Gateway, flow: Flow, r: Option<Gateway>)
    requires SelectsGateway(grants, gateway, flow, r)
    ensures r.Some? <==>
            && (exists i: nat, j: nat :: Matching(grants, gateway.prefixes, flow, i, j))
            && !ResourcesConflict(grants, gateway.prefixes, flow) && !GrantsConflict(grants, gateway.prefixes, flow)
  {
    hide Clash, Match, PortAllowed, ResourcesConflict, GrantsConflict;
    var cs, ps := CandidatesNumbered(grants, gateway, flow);
    ClashIffConflict(grants, gateway, flow);
    if cs != [] {
      assert ps[0] in ps;
    }
    if i: nat, j: nat :| Matching(grants, gateway.prefixes, flow, i, j) {
      var t := NumberOf(ps, i, j);
    }
  }
}
