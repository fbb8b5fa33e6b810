/** Validation of decoded capabilities: the range checks of `Grant.UnmarshalJSON` and the loop of `Parse`. */
module Grants {
  import opened Addresses
  import opened Basics
  import opened Names
  import opened Policy
  import opened PolicyMeaning
  import opened Ports

  /** The listed strings are network prefixes of IPv4 blocks that share no address; None is any other string. */
  ghost predicate Acceptable(values: seq<Option<Prefix>>) {
    && values != []
    && (forall i | 0 <= i < |values| :: values[i].Some? && Canonical(values[i].value))
    && (forall i, j | 0 <= i < j < |values| :: Disjoint(values[i].value, values[j].value))
  }

  method AcceptRanges(values: seq<Option<Prefix>>) returns (r: Option<seq<Prefix>>)
    ensures r.Some? <==> Acceptable(values)
    ensures r.Some? ==> |r.value| == |values| && forall i | 0 <= i < |values| :: values[i] == Some(r.value[i])
  {
    if |values| == 0 {
      return None;
    }
    var ranges: seq<Prefix> := [];
    for i := 0 to |values|
      invariant |ranges| == i && (forall j | 0 <= j < i :: values[j] == Some(ranges[j]) && Canonical(ranges[j]))
      invariant PairwiseDisjoint(ranges)
    {
      if values[i].None? || !Canonical(values[i].value) {
        return None;
      }
      var prefix := values[i].value;
      for j := 0 to i
        invariant forall m | 0 <= m < j :: Disjoint(ranges[m], prefix)
      {
        OverlapsIffNotDisjoint(prefix, ranges[j]);
        if Overlaps(prefix, ranges[j]) {
          assert !Disjoint(values[j].value, values[i].value);
          return None;
        }
      }
      ranges := ranges + [prefix];
    }
    return Some(ranges);
  }

  predicate ValidPattern(d: Str) {
    if HasPrefix(d, StarStarDot()) then ValidName(d[3..])
    else if HasPrefix(d, StarDot()) then ValidName(d[2..])
    else ValidName(d)
  }

  ghost predicate ValidResource(r: Resource) {
    ValidPattern(r.domain) && forall i | 0 <= i < |r.ports| :: ValidPort(r.ports[i])
  }

  /** A resolver that is given is one that normalisation produces. */
  ghost predicate ValidResolver(resolver: Str, normalize: Str -> Option<Str>) {
    resolver == [] || exists raw :: normalize(raw) == Some(resolver)
  }

  /** What every parsed grant satisfies. */
  ghost predicate ValidGrant(g: Grant, normalize: Str -> Option<Str>) {
    && ValidRanges(g.ranges) && g.resources != [] && ValidResolver(g.upstreamDNS, normalize)
    && (forall i | 0 <= i < |g.resources| ::
          ValidResource(g.resources[i]) && ValidResolver(g.resources[i].upstreamDNS, normalize))
  }

  /** A resolver is checked and completed only when one is given. */
  function CheckResolver(resolver: Str, normalize: Str -> Option<Str>): Option<Str> {
    if resolver == [] then Some([]) else normalize(resolver)
  }

  ghost function CheckResource(r: Resource, normalize: Str -> Option<Str>): Option<Resource> {
    var d, resolver := ToLower(TrimSuffixDot(r.domain)), CheckResolver(r.upstreamDNS, normalize);
    if ValidResource(Resource(d, r.ports, [])) && resolver.Some? then Some(Resource(d, r.ports, resolver.value)) else None
  }

  ghost function CheckResources(rs: seq<Resource>, normalize: Str -> Option<Str>): Option<seq<Resource>> {
    if rs == [] then Some([])
    else
      var init, last := CheckResources(rs[..|rs| - 1], normalize), CheckResource(rs[|rs| - 1], normalize);
      if init.Some? && last.Some? then Some(init.value + [last.value]) else None
  }

  /** A capability entry as it is decoded, its ranges still to be checked. */
  datatype RawGrant = RawGrant(upstreamDNS: Str, resources: seq<Resource>, range: seq<Option<Prefix>>)

  ghost function RangesOf(values: seq<Option<Prefix>>): seq<Prefix>
    requires Acceptable(values)
  {
    seq(|values|, i requires 0 <= i < |values| => values[i].value)
  }

  ghost function CheckGrant(g: RawGrant, normalize: Str -> Option<Str>): Option<Grant> {
    var resolver, resources := CheckResolver(g.upstreamDNS, normalize), CheckResources(g.resources, normalize);
    if Acceptable(g.range) && g.resources != [] && resolver.Some? && resources.Some?
    then Some(Grant(resolver.value, resources.value, RangesOf(g.range))) else None
  }

  /** The grants kept from the first n entries; an entry that does not decode is None. */
  ghost function Kept(entries: seq<Option<RawGrant>>, n: nat, normalize: Str -> Option<Str>): seq<Grant>
    requires n <= |entries|
  {
    if n == 0 then []
    else
      var init := Kept(entries, n - 1, normalize);
      if entries[n - 1].None? then init
      else
        var g := CheckGrant(entries[n - 1].value, normalize);
        if g.Some? then init + [g.value] else init
  }

  method Parse(entries: seq<Option<RawGrant>>, normalize: Str -> Option<Str>) returns (grants: seq<Grant>)
    ensures grants == Kept(entries, |entries|, normalize)
    ensures exists from :: MadeFrom(grants, entries, |entries|, normalize, from)
  {
    hide CheckResources, MadeFrom;
    grants := [];
    for i := 0 to |entries|
      invariant grants == Kept(entries, i, normalize)
    {
      if entries[i].None? {
        continue;
      }
      var g := entries[i].value;
      var ranges := AcceptRanges(g.range);
      if ranges.None? || |ranges.value| == 0 || |g.resources| == 0 {
        continue;
      }
      assert ranges.value == RangesOf(g.range);
      var resolver := CheckResolver(g.upstreamDNS, normalize);
      var valid, resources := ParseResources(g.resources, normalize);
      if resolver.Some? && valid {
        grants := grants + [Grant(resolver.value, resources, ranges.value)];
      }
    }
    ghost var from := KeptExactly(entries, |entries|, normalize);
  }

  /** Only valid grants survive parsing. */
  lemma {:induction false} KeptAreValid(entries: seq<Option<RawGrant>>, n: nat, normalize: Str -> Option<Str>, i: nat)
    requires n <= |entries| && i < |Kept(entries, n, normalize)|
    ensures ValidGrant(Kept(entries, n, normalize)[i], normalize)
  {
    hide CheckResources, ValidGrant;
    if i < |Kept(entries, n - 1, normalize)| {
      KeptAreValid(entries, n - 1, normalize, i);
    } else {
      CheckedGrantValid(entries[n - 1].value, normalize);
    }
  }

  lemma CheckedGrantValid(g: RawGrant, normalize: Str -> Option<Str>)
    requires CheckGrant(g, normalize).Some?
    ensures ValidGrant(CheckGrant(g, normalize).value, normalize)
  {
    CheckedResourcesValid(g.resources, normalize);
  }

  /** The ranges chosen for a name by parsed grants are ranges the allocators enumerate without repetition. */
  lemma ChosenRangesValid(entries: seq<Option<RawGrant>>, normalize: Str -> Option<Str>, name: Str, ranges: seq<Prefix>)
    requires AgreedRanges(Kept(entries, |entries|, normalize), name, ranges)
    ensures ValidRanges(ranges)
  {
    hide Kept;
    var grants := Kept(entries, |entries|, normalize);
    var i :| 0 <= i < |grants| && NameCovered(grants[i], name);
    KeptAreValid(entries, |entries|, normalize, i);
  }

  /** The resource loop of `Parse`: it normalises every resource and remembers whether all were valid. */
  method ParseResources(rs: seq<Resource>, normalize: Str -> Option<Str>) returns (valid: bool, resources: seq<Resource>)
    ensures valid <==> CheckResources(rs, normalize).Some?
    ensures valid ==> CheckResources(rs, normalize) == Some(resources)
    ensures valid <==> forall j | 0 <= j < |rs| :: ResourceAccepted(rs[j], normalize)
    ensures valid ==> |resources| == |rs| && forall j | 0 <= j < |rs| :: ResourceKept(rs[j], resources[j], normalize)
  {
    hide CheckResource, ResourceAccepted, ResourceKept;
    CheckedResources(rs, normalize);
    valid, resources := true, [];
    for i := 0 to |rs|
      invariant valid <==> CheckResources(rs[..i], normalize).Some?
      invariant valid ==> CheckResources(rs[..i], normalize) == Some(resources)
    {
      assert rs[..i + 1][..i] == rs[..i];
      var ok, resource := ParseResource(rs[i], normalize);
      valid := valid && ok;
      resources := resources + [resource];
    }
    assert rs[..|rs|] == rs;
  }

  method ParseResource(r: Resource, normalize: Str -> Option<Str>) returns (valid: bool, resource: Resource)
    ensures valid <==> CheckResource(r, normalize).Some?
    ensures valid ==> CheckResource(r, normalize) == Some(resource)
    ensures valid <==> ResourceAccepted(r, normalize)
    ensures valid ==> ResourceKept(r, resource, normalize)
  {
    hide ToLower, TrimSuffixDot, ValidName, ValidPort, ResourceAccepted, ResourceKept;
    CheckedResource(r, normalize);
    var d := ToLower(TrimSuffixDot(r.domain));
    if HasPrefix(d, StarStarDot()) {
      valid := ValidName(d[3..]);
    } else if HasPrefix(d, StarDot()) {
      valid := ValidName(d[2..]);
    } else {
      valid := ValidName(d);
    }
    var portsOk := ValidPorts(r.ports);
    var resolver := CheckResolver(r.upstreamDNS, normalize);
    valid := valid && portsOk && resolver.Some?;
    resource := Resource(d, r.ports, if resolver.Some? then resolver.value else []);
  }

  lemma {:induction false} CheckedResourcesValid(rs: seq<Resource>, normalize: Str -> Option<Str>)
    requires CheckResources(rs, normalize).Some?
    ensures |CheckResources(rs, normalize).value| == |rs|
    ensures forall i | 0 <= i < |rs| ::
              var r := CheckResources(rs, normalize).value[i];
              ValidResource(r) && ValidResolver(r.upstreamDNS, normalize)
  {
    if rs != [] {
      CheckedResourcesValid(rs[..|rs| - 1], normalize);
    }
  }

  // ----- what parsing keeps of an entry

  /** A valid pattern is a valid name, or one after `*.` or `**.`. */
  lemma ValidPatternSpelled(d: Str)
    ensures ValidPattern(d) <==>
            exists n | ValidName(n) :: d == n || d == Ascii("*.") + n || d == Ascii("**.") + n
  {
    assert StarDot() == Ascii("*.") && StarStarDot() == Ascii("**.");
    if ValidPattern(d) {
      var n := if HasPrefix(d, StarStarDot()) then d[3..] else if HasPrefix(d, StarDot()) then d[2..] else d;
      assert ValidName(n);
    }
    if n :| ValidName(n) && (d == n || d == Ascii("*.") + n || d == Ascii("**.") + n) {
      ValidNameBytes(n);
      if d == n {
        assert d[0] != STAR;
      } else if d == Ascii("*.") + n {
        assert d[1] != STAR && d[2..] == n;
      } else {
        assert d[3..] == n;
      }
    }
  }

  lemma PatternIsNormal(d: Str)
    requires ValidPattern(d)
    ensures NoUpperCase(d) && !HasSuffix(d, [DOT])
  {
    var n := if HasPrefix(d, StarStarDot()) then d[3..] else if HasPrefix(d, StarDot()) then d[2..] else d;
    ValidNoUpperCase(n);
    forall i | 0 <= i < |d|
      ensures !('A' as int <= d[i] <= 'Z' as int)
    {
      if i >= |d| - |n| {
        assert d[i] == n[i - (|d| - |n|)];
      }
    }
    assert n[|n| - 1] == d[|d| - 1];
  }

  ghost predicate ResolverAccepted(raw: Str, normalize: Str -> Option<Str>) {
    raw == [] || normalize(raw).Some?
  }

  /** An absent resolver stays absent, any other is normalised. */
  ghost predicate ResolverKept(raw: Str, kept: Str, normalize: Str -> Option<Str>) {
    if raw == [] then kept == [] else normalize(raw) == Some(kept)
  }

  /** The domain spells a valid pattern, all ports are valid, and the resolver can be used. */
  ghost predicate ResourceAccepted(r: Resource, normalize: Str -> Option<Str>) {
    && (exists d :: ValidPattern(d) && Spells(r.domain, d))
    && (forall i | 0 <= i < |r.ports| :: ValidPort(r.ports[i]))
    && ResolverAccepted(r.upstreamDNS, normalize)
  }

  /** The same ports, the pattern that the domain spells, and the normalised resolver. */
  ghost predicate ResourceKept(r: Resource, kept: Resource, normalize: Str -> Option<Str>) {
    && ValidPattern(kept.domain) && Spells(r.domain, kept.domain) && kept.ports == r.ports
    && ResolverKept(r.upstreamDNS, kept.upstreamDNS, normalize)
  }

  lemma PatternSpelled(raw: Str)
    ensures var d := ToLower(TrimSuffixDot(raw));
            && (ValidPattern(d) ==> Spells(raw, d))
            && ((exists e :: ValidPattern(e) && Spells(raw, e)) ==> ValidPattern(d))
  {
    hide ValidPattern, ToLower, TrimSuffixDot, Spells;
    var d := ToLower(TrimSuffixDot(raw));
    if ValidPattern(d) {
      PatternIsNormal(d);
      TrimmedLowerIsSpelling(raw, d);
    } else if e :| ValidPattern(e) && Spells(raw, e) {
      PatternIsNormal(e);
      TrimmedLowerIsSpelling(raw, e);
    }
  }

  lemma CheckedResource(r: Resource, normalize: Str -> Option<Str>)
    ensures CheckResource(r, normalize).Some? <==> ResourceAccepted(r, normalize)
    ensures CheckResource(r, normalize).Some? ==> ResourceKept(r, CheckResource(r, normalize).value, normalize)
  {
    hide ValidPattern, ToLower, TrimSuffixDot, Spells, ValidPort;
    PatternSpelled(r.domain);
  }

  lemma {:induction false} CheckedResources(rs: seq<Resource>, normalize: Str -> Option<Str>)
    ensures CheckResources(rs, normalize).Some? <==> forall j | 0 <= j < |rs| :: ResourceAccepted(rs[j], normalize)
    ensures CheckResources(rs, normalize).Some? ==>
              var kept := CheckResources(rs, normalize).value;
              |kept| == |rs| && forall j | 0 <= j < |rs| :: ResourceKept(rs[j], kept[j], normalize)
  {
    hide CheckResource, ResourceAccepted, ResourceKept;
    if rs != [] {
      CheckedResources(rs[..|rs| - 1], normalize);
      CheckedResource(rs[|rs| - 1], normalize);
    }
  }

  /** Entries that parsing keeps: accepted ranges, at least one resource, and nothing invalid. */
  ghost predicate EntryAccepted(entry: Option<RawGrant>, normalize: Str -> Option<Str>) {
    && entry.Some? && Acceptable(entry.value.range) && entry.value.resources != []
    && ResolverAccepted(entry.value.upstreamDNS, normalize)
    && forall j | 0 <= j < |entry.value.resources| :: ResourceAccepted(entry.value.resources[j], normalize)
  }

  /** What is kept of an entry: its ranges, and its resources one by one. */
  ghost predicate EntryKept(entry: RawGrant, g: Grant, normalize: Str -> Option<Str>) {
    && |g.ranges| == |entry.range| && (forall i | 0 <= i < |g.ranges| :: entry.range[i] == Some(g.ranges[i]))
    && ResolverKept(entry.upstreamDNS, g.upstreamDNS, normalize)
    && |g.resources| == |entry.resources|
    && forall j | 0 <= j < |g.resources| :: ResourceKept(entry.resources[j], g.resources[j], normalize)
  }

  lemma CheckedGrant(g: RawGrant, normalize: Str -> Option<Str>)
    ensures CheckGrant(g, normalize).Some? <==> EntryAccepted(Some(g), normalize)
    ensures CheckGrant(g, normalize).Some? ==> EntryKept(g, CheckGrant(g, normalize).value, normalize)
  {
    hide CheckResources, ResourceAccepted, ResourceKept;
    CheckedResources(g.resources, normalize);
  }

  /** Position m of the result was made from entry `from[m]`, and every accepted entry is there, in order. */
  ghost predicate MadeFrom(
    grants: seq<Grant>, entries: seq<Option<RawGrant>>, n: nat, normalize: Str -> Option<Str>, from: seq<nat>)
    requires n <= |entries|
  {
    && |from| == |grants|
    && (forall m | 0 <= m < |from| ::
          from[m] < n && EntryAccepted(entries[from[m]], normalize) && EntryKept(entries[from[m]].value, grants[m], normalize))
    && (forall m, k | 0 <= m < k < |from| :: from[m] < from[k])
    && (forall i | 0 <= i < n && EntryAccepted(entries[i], normalize) :: i in from)
  }

  /** Parsing keeps exactly the accepted entries, in order, and of each what `EntryKept` says. */
  lemma {:induction false} KeptExactly(entries: seq<Option<RawGrant>>, n: nat, normalize: Str -> Option<Str>)
    returns (from: seq<nat>)
    requires n <= |entries|
    ensures MadeFrom(Kept(entries, n, normalize), entries, n, normalize, from)
  {
    from := [];
    if n > 0 {
      hide CheckGrant, EntryKept, MadeFrom;
      from := KeptExactly(entries, n - 1, normalize);
      var before, last := Kept(entries, n - 1, normalize), entries[n - 1];
      if last.Some? {
        CheckedGrant(last.value, normalize);
      }
      if EntryAccepted(last, normalize) {
        MadeFromMore(before, entries, n, normalize, from, CheckGrant(last.value, normalize).value);
        from := from + [n - 1];
      } else {
        MadeFromSame(before, entries, n, normalize, from);
      }
    }
  }

  lemma MadeFromMore(
    grants: seq<Grant>, entries: seq<Option<RawGrant>>, n: nat, normalize: Str -> Option<Str>, from: seq<nat>, g: Grant)
    requires 0 < n <= |entries| && MadeFrom(grants, entries, n - 1, normalize, from)
    requires EntryAccepted(entries[n - 1], normalize) && EntryKept(entries[n - 1].value, g, normalize)
    ensures MadeFrom(grants + [g], entries, n, normalize, from + [n - 1])
  {
    hide EntryAccepted, EntryKept;
    var from' := from + [n - 1];
    forall i | 0 <= i < n && EntryAccepted(entries[i], normalize)
      ensures i in from'
    {
      if i < n - 1 {
        assert i in from;
      }
    }
  }

  lemma MadeFromSame(
    grants: seq<Grant>, entries: seq<Option<RawGrant>>, n: nat, normalize: Str -> Option<Str>, from: seq<nat>)
    requires 0 < n <= |entries| && MadeFrom(grants, entries, n - 1, normalize, from)
    requires !EntryAccepted(entries[n - 1], normalize)
    ensures MadeFrom(grants, entries, n, normalize, from)
  {
    hide EntryAccepted, EntryKept;
  }

  // ----- what parsed grants authorize

  /** A flow is authorized by parsed grants exactly if a resource of a grant with these ranges permits it. */
  lemma {:induction false} ParsedAuthorizeIff(
    entries: seq<Option<RawGrant>>, normalize: Str -> Option<Str>, ranges: seq<Prefix>, flow: Flow)
    ensures var grants := Kept(entries, |entries|, normalize);
            Authorized(grants, ranges, flow) <==>
            exists i, j | 0 <= i < |grants| && 0 <= j < |grants[i].resources| ::
              grants[i].ranges == ranges && Permitted(grants[i].resources[j], flow)
  {
    hide Kept, Permitted, ResourceMatches, ValidPort;
    var grants := Kept(entries, |entries|, normalize);
    forall i, j | 0 <= i < |grants| && 0 <= j < |grants[i].resources|
      ensures ResourceMatches(grants[i].resources[j], flow) <==> Permitted(grants[i].resources[j], flow)
    {
      ParsedMatchesIff(entries, normalize, i, j, flow);
    }
    if Authorized(grants, ranges, flow) {
      var i :| 0 <= i < |grants| && grants[i].ranges == ranges && GrantCovers(grants[i], flow);
      var j :| 0 <= j < |grants[i].resources| && ResourceMatches(grants[i].resources[j], flow);
      assert Permitted(grants[i].resources[j], flow);
    }
    if i, j :|
      && 0 <= i < |grants| && 0 <= j < |grants[i].resources|
      && grants[i].ranges == ranges && Permitted(grants[i].resources[j], flow)
    {
      assert GrantCovers(grants[i], flow);
    }
  }

  lemma ParsedMatchesIff(entries: seq<Option<RawGrant>>, normalize: Str -> Option<Str>, i: nat, j: nat, flow: Flow)
    requires i < |Kept(entries, |entries|, normalize)|
    requires j < |Kept(entries, |entries|, normalize)[i].resources|
    ensures var r := Kept(entries, |entries|, normalize)[i].resources[j];
            ResourceMatches(r, flow) <==> Permitted(r, flow)
  {
    hide Kept, Permitted, ResourceMatches, ValidPort, ValidPattern, ValidResolver;
    KeptAreValid(entries, |entries|, normalize, i);
    assert ValidResource(Kept(entries, |entries|, normalize)[i].resources[j]);
    MatchesIffPermitted(Kept(entries, |entries|, normalize)[i].resources[j], flow);
  }
}
