/**
  The composition (`internal/domain/service.go`): answering a name from the registry, and
  deciding a flow from the address it was given.
 */
module Services {
  import opened Addresses
  import opened Allocators
  import opened Basics
  import opened Names
  import opened Policy
  import opened PolicyMeaning
  import opened RangeKeys
  import opened Registry
  import opened RegistryInvariant
  import opened Tables

  /** Whether the source is itself a gateway, where the identity source can tell. */
  datatype SourceCheck = NotChecked | CheckFailed | Checked(isGateway: bool)

  datatype DnsOutcome = DnsPassthrough | DnsSynthesized | DnsUnavailable

  /** `containsPrefix`. */
  predicate Covers(prefixes: seq<Prefix>, a: MaybeAddr) {
    exists i | 0 <= i < |prefixes| :: Contains(prefixes[i], a)
  }

  /** The one gateway whose ranges cover the destination. */
  ghost predicate OnlyGateway(gateways: map<Str, Gateway>, destination: MaybeAddr, tag: Str) {
    && tag in gateways && Covers(gateways[tag].prefixes, destination)
    && (forall t | t in gateways && Covers(gateways[t].prefixes, destination) :: t == tag)
  }

  /** The request asks for this valid name, whose covering grants agree on these ranges. */
  ghost predicate AsksFor(rawName: Str, caps: Option<seq<Grant>>, name: Str, ranges: seq<Prefix>) {
    ValidName(name) && Spells(rawName, name) && caps.Some? && AgreedRanges(caps.value, name, ranges)
  }

  /** The grants let the one gateway of the destination take the flow, as r. */
  ghost predicate FlowSelected(
    gateways: map<Str, Gateway>, destination: MaybeAddr, caps: Option<seq<Grant>>, flow: Flow, r: Gateway)
  {
    caps.Some? &&
    exists tag | OnlyGateway(gateways, destination, tag) :: SelectsGateway(caps.value, gateways[tag], flow, Some(r))
  }

  /** The same for a name as a PTR lookup reports it. */
  ghost predicate FlowAllowed(
    gateways: map<Str, Gateway>, destination: MaybeAddr, name: Str, caps: Option<seq<Grant>>, proto: Str, port: nat,
    r: Gateway)
  {
    NormalName(name).Some? && FlowSelected(gateways, destination, caps, Flow(NormalName(name).value, proto, port), r)
  }

  /** A resource of a grant for the destination's one gateway matches the flow, and no resolver conflict is met. */
  ghost predicate FlowPermitted(gateways: map<Str, Gateway>, destination: MaybeAddr, caps: Option<seq<Grant>>, flow: Flow) {
    caps.Some? &&
    exists tag | OnlyGateway(gateways, destination, tag) ::
      && (exists i: nat, j: nat :: Matching(caps.value, gateways[tag].prefixes, flow, i, j))
      && !ResourcesConflict(caps.value, gateways[tag].prefixes, flow)
      && !GrantsConflict(caps.value, gateways[tag].prefixes, flow)
  }

  /** A request asks for at most one name. */
  lemma OneNormalName(rawName: Str)
    ensures forall name :: ValidName(name) && Spells(rawName, name) <==> NormalName(rawName) == Some(name)
  {
    hide ValidName, Spells, NormalName;
    forall name
      ensures ValidName(name) && Spells(rawName, name) <==> NormalName(rawName) == Some(name)
    {
      NormalNameSpelling(rawName, name);
    }
  }

  /** A flow that fails at a gateway is not selected in any way. */
  lemma OnlyResult(grants: seq<Grant>, gateway: Gateway, flow: Flow, r: Option<Gateway>)
    requires SelectsGateway(grants, gateway, flow, r)
    ensures r.None? ==> forall g :: !SelectsGateway(grants, gateway, flow, Some(g))
  {
  }

  class Service {
    const gateways: map<Str, Gateway>
    const allocator: Allocator
    const store: SqlStore
    var synthesized: nat
    var passthrough: nat
    var allowed: nat
    var denied: nat

    constructor (gateways: map<Str, Gateway>, allocator: Allocator, store: SqlStore)
      ensures this.gateways == gateways && this.allocator == allocator && this.store == store
      ensures synthesized == passthrough == allowed == denied == 0
    {
      this.gateways, this.allocator, this.store := gateways, allocator, store;
      synthesized, passthrough, allowed, denied := 0, 0, 0, 0;
    }

    /** `AllocationLifecycle.Allocate` over the store. */
    method Resolve(k: Key, prefixes: seq<Prefix>, now: int, lease: int) returns (ip: MaybeAddr)
      requires lease > 0
      modifies store, store.db, allocator
      ensures (store.View(allocator), ip) == old(store.View(allocator)).Resolve(k, prefixes, now, lease)
    {
      var found := store.LookupKey(allocator, k, now, lease);
      if found.Some? {
        return V4(found.value);
      }
      ip := store.Allocate(allocator, k, prefixes, now, lease);
    }

    method DnsAnswer(check: SourceCheck, rawName: Str, caps: Option<seq<Grant>>, now: int, lease: int)
      returns (ip: MaybeAddr, outcome: DnsOutcome)
      requires lease > 0
      requires caps.Some? ==> forall i | 0 <= i < |caps.value| :: caps.value[i].ranges != []
      modifies this`synthesized, this`passthrough, store, store.db, allocator
      ensures outcome != DnsPassthrough <==>
              && (check == NotChecked || check == Checked(false))
              && exists name, ranges :: AsksFor(rawName, caps, name, ranges)
      ensures outcome == DnsPassthrough ==> ip == Invalid && store.View(allocator) == old(store.View(allocator))
      ensures outcome == DnsSynthesized <==> ip.V4?
      ensures outcome != DnsPassthrough ==>
                forall name, ranges | AsksFor(rawName, caps, name, ranges) ::
                  (store.View(allocator), ip) ==
                  old(store.View(allocator)).Resolve(Key(RangeKey(ranges), name), ranges, now, lease)
      ensures outcome != DnsPassthrough ==>
                forall name, ranges, clock
                  | && AsksFor(rawName, caps, name, ranges) && 0 < clock <= now
                    && old(WorldOk(store.View(allocator), clock, lease)) ::
                  (if ip.V4? then Answer(Key(RangeKey(ranges), name), ip.addr) else NoAnswer) ==
                  TableAnswer(old(store.db.rows), AllocateCall(Key(RangeKey(ranges), name), ranges), now)
      ensures synthesized == old(synthesized) + (if outcome == DnsSynthesized then 1 else 0)
      ensures synthesized + passthrough == old(synthesized + passthrough) + 1
    {
      hide RangeKey, NormalName, AgreedRanges, World.Resolve, Spells, ValidName, WorldOk, TableAnswer;
      ghost var w := store.View(allocator);
      OneNormalName(rawName);
      if check.CheckFailed? || (check.Checked? && check.isGateway) {
        passthrough := passthrough + 1;
        return Invalid, DnsPassthrough;
      }
      var name := NormalName(rawName);
      if name.None? {
        passthrough := passthrough + 1;
        return Invalid, DnsPassthrough;
      }
      if caps.None? {
        passthrough := passthrough + 1;
        return Invalid, DnsPassthrough;
      }
      var ranges := RangesForName(caps.value, name.value);
      if ranges.None? {
        passthrough := passthrough + 1;
        return Invalid, DnsPassthrough;
      }
      assert AsksFor(rawName, caps, name.value, ranges.value);
      ip := Resolve(Key(RangeKey(ranges.value), name.value), ranges.value, now, lease);
      forall clock | WorldOk(w, clock, lease) && 0 < clock <= now
        ensures (if ip.V4? then Answer(Key(RangeKey(ranges.value), name.value), ip.addr) else NoAnswer) ==
                TableAnswer(w.rows, AllocateCall(Key(RangeKey(ranges.value), name.value), ranges.value), now)
      {
        ResolveCorrect(w, Key(RangeKey(ranges.value), name.value), ranges.value, clock, now, lease);
      }
      if ip == Invalid {
        passthrough := passthrough + 1;
        return Invalid, DnsUnavailable;
      }
      synthesized := synthesized + 1;
      return ip, DnsSynthesized;
    }

    /** `gatewayForDestination`; the map is walked in any order. */
    method GatewayForDestination(destination: MaybeAddr) returns (r: Option<Gateway>)
      ensures forall tag | OnlyGateway(gateways, destination, tag) :: r == Some(gateways[tag])
      ensures r.Some? ==> exists tag | OnlyGateway(gateways, destination, tag) :: r.value == gateways[tag]
    {
      r := None;
      ghost var chosen: Str := [];
      var left := gateways;
      while left != map[]
        invariant forall t | t in left :: t in gateways && left[t] == gateways[t]
        invariant r == None ==> forall t | t in gateways && t !in left :: !Covers(gateways[t].prefixes, destination)
        invariant r.Some? ==>
                    && chosen in gateways && chosen !in left && r.value == gateways[chosen]
                    && Covers(gateways[chosen].prefixes, destination)
                    && forall t | t in gateways && t !in left && Covers(gateways[t].prefixes, destination) :: t == chosen
        decreases |left|
      {
        var tag :| tag in left;
        var gateway := left[tag];
        left := left - {tag};
        if !Covers(gateway.prefixes, destination) {
          continue;
        }
        if r.Some? {
          assert tag != chosen;
          return None;
        }
        r, chosen := Some(gateway), tag;
      }
      if r.Some? {
        assert OnlyGateway(gateways, destination, chosen);
      }
    }

    method FlowDomain(destination: MaybeAddr, rawName: Str, caps: Option<seq<Grant>>, proto: Str, port: nat)
      returns (r: Option<Gateway>)
      modifies this`allowed, this`denied
      ensures r.Some? ==> FlowAllowed(gateways, destination, rawName, caps, proto, port, r.value)
      ensures r.None? ==> forall g :: !FlowAllowed(gateways, destination, rawName, caps, proto, port, g)
      ensures r.Some? <==>
              exists name | ValidName(name) && Spells(rawName, name) ::
                FlowPermitted(gateways, destination, caps, Flow(name, proto, port))
      ensures allowed == old(allowed) + (if r.Some? then 1 else 0)
      ensures allowed + denied == old(allowed + denied) + 1
    {
      hide NormalName, Spells, ValidName, SelectsGateway, Covers, ResourcesConflict, GrantsConflict, Matching;
      OneNormalName(rawName);
      var name := NormalName(rawName);
      if name.None? {
        denied := denied + 1;
        return None;
      }
      var gateway := GatewayForDestination(destination);
      if gateway.None? {
        denied := denied + 1;
        return None;
      }
      if caps.None? {
        denied := denied + 1;
        return None;
      }
      r := GatewayFor(caps.value, gateway.value, Flow(name.value, proto, port));
      GatewayIffNoConflict(caps.value, gateway.value, Flow(name.value, proto, port), r);
      OnlyResult(caps.value, gateway.value, Flow(name.value, proto, port), r);
      if r.None? {
        denied := denied + 1;
        return None;
      }
      allowed := allowed + 1;
    }

    /** `Flow`: the registry itself says which name the destination stands for, and renews its lease. */
    method FlowTo(destination: Addr, caps: Option<seq<Grant>>, proto: Str, port: nat, now: int, lease: int)
      returns (r: Option<(Key, Gateway)>)
      requires UniqueIps(store.db.rows)
      modifies this`allowed, this`denied, store, store.db, allocator
      ensures store.View(allocator) == old(store.View(allocator)).Lookup(destination, now, lease).0
      ensures var mapping := old(store.View(allocator)).Lookup(destination, now, lease).1;
              && (r.Some? ==> mapping == Some(r.value.0))
              && (r.Some? ==>
                    FlowSelected(gateways, V4(destination), caps, Flow(r.value.0.domain, proto, port), r.value.1))
              && (r.None? && mapping.Some? ==>
                    forall g :: !FlowSelected(gateways, V4(destination), caps, Flow(mapping.value.domain, proto, port), g))
              && (r.Some? <==>
                    mapping.Some? && FlowPermitted(gateways, V4(destination), caps, Flow(mapping.value.domain, proto, port)))
      ensures allowed == old(allowed) + (if r.Some? then 1 else 0)
      ensures allowed + denied == old(allowed + denied) + 1
    {
      hide SelectsGateway, Covers, ResourcesConflict, GrantsConflict, Matching, World.Lookup;
      var mapping := store.Lookup(allocator, destination, now, lease);
      if mapping.None? || caps.None? {
        denied := denied + 1;
        return None;
      }
      var gateway := GatewayForDestination(V4(destination));
      if gateway.None? {
        denied := denied + 1;
        return None;
      }
      var chosen := GatewayFor(caps.value, gateway.value, Flow(mapping.value.domain, proto, port));
      GatewayIffNoConflict(caps.value, gateway.value, Flow(mapping.value.domain, proto, port), chosen);
      OnlyResult(caps.value, gateway.value, Flow(mapping.value.domain, proto, port), chosen);
      if chosen.None? {
        denied := denied + 1;
        return None;
      }
      allowed := allowed + 1;
      return Some((mapping.value, chosen.value));
    }
  }
}
