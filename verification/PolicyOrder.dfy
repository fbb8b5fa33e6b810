/** How policy decisions depend on the order in which grants are listed. */
module PolicyOrder {
  import opened Addresses
  import opened Basics
  import opened Names
  import opened Policy

  lemma SameMembers<T>(s: seq<T>, t: seq<T>, x: T)
    requires multiset(s) == multiset(t)
    ensures x in s <==> x in t
  {
    assert x in s <==> x in multiset(s);
    assert x in t <==> x in multiset(t);
  }

  /** Ranges are chosen independently of the order of the grants. */
  lemma RangesOrderFree(gs: seq<Grant>, hs: seq<Grant>, name: Str, ranges: seq<Prefix>)
    requires multiset(gs) == multiset(hs)
    ensures AgreedRanges(gs, name, ranges) <==> AgreedRanges(hs, name, ranges)
  {
    if AgreedRanges(gs, name, ranges) {
      RangesKept(gs, hs, name, ranges);
    }
    if AgreedRanges(hs, name, ranges) {
      RangesKept(hs, gs, name, ranges);
    }
  }

  lemma RangesKept(gs: seq<Grant>, hs: seq<Grant>, name: Str, ranges: seq<Prefix>)
    requires multiset(gs) == multiset(hs) && AgreedRanges(gs, name, ranges)
    ensures AgreedRanges(hs, name, ranges)
  {
    var i :| 0 <= i < |gs| && NameCovered(gs[i], name);
    SameMembers(gs, hs, gs[i]);
    assert exists j | 0 <= j < |hs| :: hs[j] == gs[i];
    forall j | 0 <= j < |hs| && NameCovered(hs[j], name)
      ensures hs[j].ranges == ranges
    {
      SameMembers(gs, hs, hs[j]);
    }
  }

  lemma RemoveOne<T>(s: seq<T>, i: nat)
    requires i < |s|
    ensures multiset(s[..i] + s[i + 1..]) == multiset(s) - multiset{s[i]}
  {
    assert s == s[..i] + ([s[i]] + s[i + 1..]);
  }

  lemma RemoveGrant(gs: seq<Grant>, i: nat, gateway: Gateway, flow: Flow)
    requires i < |gs|
    ensures multiset(Candidates(gs, gateway, flow)) ==
            multiset(Candidates(gs[..i] + gs[i + 1..], gateway, flow)) + multiset(Candidates([gs[i]], gateway, flow))
  {
    var a, b := gs[..i], gs[i + 1..];
    assert gs == a + ([gs[i]] + b);
    CandidatesConcat(a, [gs[i]] + b, gateway, flow);
    CandidatesConcat([gs[i]], b, gateway, flow);
    CandidatesConcat(a, b, gateway, flow);
  }

  lemma {:induction false} CandidatesPermuted(gs: seq<Grant>, hs: seq<Grant>, gateway: Gateway, flow: Flow)
    requires multiset(gs) == multiset(hs)
    ensures multiset(Candidates(gs, gateway, flow)) == multiset(Candidates(hs, gateway, flow))
  {
    hide Candidates;
    if gs == [] {
      assert |multiset(hs)| == 0;
    } else {
      SameMembers(gs, hs, gs[0]);
      var i :| 0 <= i < |hs| && hs[i] == gs[0];
      var gs', hs' := gs[..0] + gs[1..], hs[..i] + hs[i + 1..];
      assert multiset(gs') == multiset(hs') by {
        RemoveOne(gs, 0);
        RemoveOne(hs, i);
      }
      CandidatesPermuted(gs', hs', gateway, flow);
      RemoveGrant(gs, 0, gateway, flow);
      RemoveGrant(hs, i, gateway, flow);
    }
  }

  /** Any two orders of the same grants that both succeed select the same gateway. */
  lemma SuccessfulOrdersAgree(
    gs: seq<Grant>, hs: seq<Grant>, gateway: Gateway, flow: Flow, r: Option<Gateway>, q: Option<Gateway>)
    requires multiset(gs) == multiset(hs)
    requires SelectsGateway(gs, gateway, flow, r) && SelectsGateway(hs, gateway, flow, q)
    requires r.Some? && q.Some?
    ensures r == q
  {
    CandidatesPermuted(gs, hs, gateway, flow);
    var cs, ds := Candidates(gs, gateway, flow), Candidates(hs, gateway, flow);
    var c :| Winner(cs, c) && r.value == Chosen(gateway, c);
    var d :| Winner(ds, d) && q.value == Chosen(gateway, d);
    SameMembers(cs, ds, c);
    SameMembers(cs, ds, d);
  }

  // ----- when the order of the grants cannot matter

  /** The candidates of one grant. */
  function Own(g: Grant, gateway: Gateway, flow: Flow): seq<Candidate> {
    Candidates([g], gateway, flow)
  }

  lemma CandidatesLast(gs: seq<Grant>, gateway: Gateway, flow: Flow)
    requires gs != []
    ensures Candidates(gs, gateway, flow) ==
            Candidates(gs[..|gs| - 1], gateway, flow) + Own(gs[|gs| - 1], gateway, flow)
  {
    assert gs == gs[..|gs| - 1] + [gs[|gs| - 1]];
    CandidatesConcat(gs[..|gs| - 1], [gs[|gs| - 1]], gateway, flow);
  }

  /** Every candidate comes from some grant, and all candidates of that grant are there. */
  lemma {:induction false} OwnerOf(gs: seq<Grant>, gateway: Gateway, flow: Flow, c: Candidate) returns (a: nat)
    requires c in Candidates(gs, gateway, flow)
    ensures a < |gs| && c in Own(gs[a], gateway, flow)
    ensures forall d | d in Own(gs[a], gateway, flow) :: d in Candidates(gs, gateway, flow)
  {
    hide Own;
    CandidatesLast(gs, gateway, flow);
    if c in Own(gs[|gs| - 1], gateway, flow) {
      a := |gs| - 1;
    } else {
      hide Candidates;
      a := OwnerOf(gs[..|gs| - 1], gateway, flow, c);
    }
  }

  /** The j-th candidate of xs clashes with c, which comes before, and nothing before outranks it. */
  ghost predicate Crosses(ps: seq<Candidate>, c: Candidate, xs: seq<Candidate>, j: nat)
    requires j < |xs|
  {
    && c.priority == xs[j].priority && c.resolver != xs[j].resolver
    && (forall d | d in ps :: d.priority <= xs[j].priority)
    && (forall t | 0 <= t < j :: xs[t].priority <= xs[j].priority)
  }

  /** A clash lies in the first part, in the second, or across. */
  lemma ClashSplits(ps: seq<Candidate>, xs: seq<Candidate>)
    requires Clash(ps + xs)
    ensures Clash(ps) || Clash(xs) || exists c, j | c in ps && 0 <= j < |xs| :: Crosses(ps, c, xs, j)
  {
    var cs := ps + xs;
    var i, j :| 0 <= i < j < |cs| && ClashAt(cs, i, j);
    if j < |ps| {
      assert forall t | 0 <= t <= j :: cs[t] == ps[t];
      assert ClashAt(ps, i, j);
    } else {
      assert forall t | 0 <= t < |xs| :: cs[|ps| + t] == xs[t];
      if i < |ps| {
        forall d | d in ps
          ensures d.priority <= xs[j - |ps|].priority
        {
          var t :| 0 <= t < |ps| && ps[t] == d;
          assert cs[t] == d;
        }
        assert Crosses(ps, ps[i], xs, j - |ps|);
      } else {
        assert ClashAt(xs, i - |ps|, j - |ps|);
      }
    }
  }

  /** A clash across stays one when the first part shrinks around its candidate. */
  lemma CrossingClashes(ps: seq<Candidate>, ys: seq<Candidate>, c: Candidate, xs: seq<Candidate>, j: nat)
    requires j < |xs| && Crosses(ps, c, xs, j) && c in ys && forall d | d in ys :: d in ps
    ensures Clash(ys + xs)
  {
    var i :| 0 <= i < |ys| && ys[i] == c;
    var cs := ys + xs;
    forall t | 0 <= t < |ys| + j
      ensures cs[t].priority <= cs[|ys| + j].priority
    {
      if t < |ys| {
        assert cs[t] in ps;
      } else {
        assert cs[t] == xs[t - |ys|];
      }
    }
    assert ClashAt(cs, i, |ys| + j);
  }

  /** The grants at a and b clash when listed in this order, or the one grant does when a is b. */
  ghost predicate PairClash(gs: seq<Grant>, gateway: Gateway, flow: Flow, a: nat, b: nat)
    requires a < |gs| && b < |gs|
  {
    if a == b then Clash(Own(gs[a], gateway, flow))
    else Clash(Own(gs[a], gateway, flow) + Own(gs[b], gateway, flow))
  }

  lemma {:induction false} ClashLocated(hs: seq<Grant>, gateway: Gateway, flow: Flow) returns (a: nat, b: nat)
    requires Clash(Candidates(hs, gateway, flow))
    ensures a <= b < |hs| && PairClash(hs, gateway, flow, a, b)
  {
    assert hs != [];
    hide Candidates, Own, Clash;
    var init, last := hs[..|hs| - 1], hs[|hs| - 1];
    var ps, xs := Candidates(init, gateway, flow), Own(last, gateway, flow);
    CandidatesLast(hs, gateway, flow);
    ClashSplits(ps, xs);
    b := |hs| - 1;
    if Clash(ps) {
      a, b := ClashLocated(init, gateway, flow);
    } else if Clash(xs) {
      a := b;
    } else {
      var c, j :| c in ps && 0 <= j < |xs| && Crosses(ps, c, xs, j);
      a := OwnerOf(init, gateway, flow, c);
      CrossingClashes(ps, Own(init[a], gateway, flow), c, xs, j);
    }
  }

  /** Two places of a permutation come from two places of the list. */
  lemma TwoPlaces<T>(s: seq<T>, t: seq<T>, a: nat, b: nat) returns (i: nat, j: nat)
    requires multiset(s) == multiset(t) && a < b < |t|
    ensures i < |s| && j < |s| && i != j && s[i] == t[a] && s[j] == t[b]
  {
    SameMembers(s, t, t[a]);
    i :| 0 <= i < |s| && s[i] == t[a];
    var s', t' := s[..i] + s[i + 1..], t[..a] + t[a + 1..];
    RemoveOne(s, i);
    RemoveOne(t, a);
    assert t'[b - 1] == t[b];
    SameMembers(s', t', t[b]);
    j :| 0 <= j < |s'| && s'[j] == t[b];
    j := if j < i then j else j + 1;
  }

  /** Any two places can be brought to the front. */
  lemma BringForward<T>(s: seq<T>, i: nat, j: nat) returns (t: seq<T>)
    requires i < |s| && j < |s| && i != j
    ensures multiset([s[i], s[j]] + t) == multiset(s)
  {
    var one := s[..j] + s[j + 1..];
    var i' := if i < j then i else i - 1;
    assert one[i'] == s[i];
    t := one[..i'] + one[i' + 1..];
    RemoveOne(s, j);
    RemoveOne(one, i');
  }

  /** A clashing grant or pair, listed first, makes the whole list clash. */
  lemma PairFirstClashes(gs: seq<Grant>, gateway: Gateway, flow: Flow, a: nat, b: nat) returns (hs: seq<Grant>)
    requires a < |gs| && b < |gs| && PairClash(gs, gateway, flow, a, b)
    ensures multiset(hs) == multiset(gs) && Clash(Candidates(hs, gateway, flow))
  {
    hide Candidates, Clash;
    if a == b {
      var rest := gs[..a] + gs[a + 1..];
      hs := [gs[a]] + rest;
      RemoveOne(gs, a);
      CandidatesConcat([gs[a]], rest, gateway, flow);
      ClashGrows(Own(gs[a], gateway, flow), Candidates(rest, gateway, flow));
    } else {
      var rest := BringForward(gs, a, b);
      hs := [gs[a], gs[b]] + rest;
      CandidatesConcat([gs[a]], [gs[b]], gateway, flow);
      assert [gs[a]] + [gs[b]] == [gs[a], gs[b]];
      CandidatesConcat([gs[a], gs[b]], rest, gateway, flow);
      ClashGrows(Own(gs[a], gateway, flow) + Own(gs[b], gateway, flow), Candidates(rest, gateway, flow));
    }
  }

  /** No grant and no two grants, in either order, clash over the resolver. */
  ghost predicate PairsAgree(gs: seq<Grant>, gateway: Gateway, flow: Flow) {
    forall a, b | 0 <= a < |gs| && 0 <= b < |gs| :: !PairClash(gs, gateway, flow, a, b)
  }

  /** Every order of the grants avoids a clash exactly when no grant and no ordered pair of grants clashes. */
  lemma {:induction false} EveryOrderSucceedsIff(gs: seq<Grant>, gateway: Gateway, flow: Flow)
    ensures (forall hs | multiset(hs) == multiset(gs) :: !Clash(Candidates(hs, gateway, flow))) <==>
            PairsAgree(gs, gateway, flow)
  {
    hide Clash, Candidates;
    if hs :| multiset(hs) == multiset(gs) && Clash(Candidates(hs, gateway, flow)) {
      ClashShowsPair(gs, hs, gateway, flow);
    }
    if a, b :| 0 <= a < |gs| && 0 <= b < |gs| && PairClash(gs, gateway, flow, a, b) {
      var hs := PairFirstClashes(gs, gateway, flow, a, b);
    }
  }

  lemma ClashShowsPair(gs: seq<Grant>, hs: seq<Grant>, gateway: Gateway, flow: Flow)
    requires multiset(hs) == multiset(gs) && Clash(Candidates(hs, gateway, flow))
    ensures !PairsAgree(gs, gateway, flow)
  {
    hide Clash, Candidates, Own;
    var a, b := ClashLocated(hs, gateway, flow);
    if a == b {
      SameMembers(gs, hs, hs[a]);
      var i :| 0 <= i < |gs| && gs[i] == hs[a];
      assert PairClash(gs, gateway, flow, i, i);
    } else {
      var i, j := TwoPlaces(gs, hs, a, b);
      assert PairClash(gs, gateway, flow, i, j);
    }
  }

  // ----- an order that fails and one that does not

  lemma SelfMatch(name: Str)
    ensures Match(name, name)
  {
    MatchIsLabelMatch(name, name);
  }

  /** A grant with one resource for the name on every port. */
  function OneResource(grantResolver: Str, resourceResolver: Str, gateway: Gateway, name: Str): Grant {
    Grant(grantResolver, [Resource(name, [], resourceResolver)], gateway.prefixes)
  }

  lemma OwnOfOne(grantResolver: Str, resourceResolver: Str, gateway: Gateway, flow: Flow)
    ensures var g := OneResource(grantResolver, resourceResolver, gateway, flow.name);
            Own(g, gateway, flow) == [CandidateOf(g, g.resources[0], gateway)]
  {
    var g := OneResource(grantResolver, resourceResolver, gateway, flow.name);
    SelfMatch(flow.name);
    assert ResourceMatches(g.resources[0], flow);
    assert GrantCandidates(g, 0, gateway, flow) == [];
    assert GrantCandidates(g, 1, gateway, flow) == [CandidateOf(g, g.resources[0], gateway)];
    CandidatesStep([g], 0, gateway, flow);
    assert [g][..1] == [g] && Candidates([g][..0], gateway, flow) == [];
  }

  lemma CandidatesOfThree(a: Grant, b: Grant, c: Grant, gateway: Gateway, flow: Flow)
    ensures Candidates([a, b, c], gateway, flow) == Own(a, gateway, flow) + Own(b, gateway, flow) + Own(c, gateway, flow)
  {
    hide Candidates;
    assert [a, b, c] == [a] + [b] + [c];
    CandidatesConcat([a] + [b], [c], gateway, flow);
    CandidatesConcat([a], [b], gateway, flow);
  }

  /**
    Two grants that name different resolvers and a third whose resource names its own: listed
    before the third they fail the flow, listed after it they do not.
   */
  lemma {:induction false} OrderDecidesFailure(gateway: Gateway, flow: Flow, x: Str, y: Str, z: Str)
    requires x != [] && y != [] && z != [] && x != y
    ensures var low := OneResource(x, [], gateway, flow.name);
            var other := OneResource(y, [], gateway, flow.name);
            var high := OneResource([], z, gateway, flow.name);
            && SelectsGateway([low, other, high], gateway, flow, None)
            && SelectsGateway([high, low, other], gateway, flow, Some(Gateway(gateway.prefixes, z, IsSystemResolver(z))))
  {
    hide Candidates, Own;
    var low, other := OneResource(x, [], gateway, flow.name), OneResource(y, [], gateway, flow.name);
    var high := OneResource([], z, gateway, flow.name);
    OwnOfOne(x, [], gateway, flow);
    OwnOfOne(y, [], gateway, flow);
    OwnOfOne([], z, gateway, flow);
    CandidatesOfThree(low, other, high, gateway, flow);
    CandidatesOfThree(high, low, other, gateway, flow);
    ThreeCandidates(Candidate(x, 1), Candidate(y, 1), Candidate(z, 2));
    assert Candidates([low, other, high], gateway, flow) == [Candidate(x, 1), Candidate(y, 1), Candidate(z, 2)];
    assert Candidates([high, low, other], gateway, flow) == [Candidate(z, 2), Candidate(x, 1), Candidate(y, 1)];
    assert Gateway(gateway.prefixes, z, IsSystemResolver(z)) == Chosen(gateway, Candidate(z, 2));
  }

  lemma ThreeCandidates(low: Candidate, other: Candidate, high: Candidate)
    requires low.priority == other.priority < high.priority && low.resolver != other.resolver
    ensures Clash([low, other, high])
    ensures !Clash([high, low, other]) && Winner([high, low, other], high)
  {
    assert ClashAt([low, other, high], 0, 1);
    var ds := [high, low, other];
    forall i, j | 0 <= i < j < |ds|
      ensures !ClashAt(ds, i, j)
    {
      assert ds[0].priority > ds[j].priority;
    }
  }
}
