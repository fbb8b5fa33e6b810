/**
  What every registry operation keeps, at the grain where one operation is one step.

  The key invariant (`CacheCoherent`): an unexpired cache entry is backed by a table row with
  the same address and an expiry at least as late. It makes the cache invisible: every answer
  is the one a store without a cache would read from the table (`OperationCorrect`).
 */
module RegistryInvariant {
  import opened Addresses
  import opened Allocators
  import opened Registry
  import opened Tables

  datatype Call =
    | LookupKeyCall(key: Key)
    | LookupCall(ip: Addr)
    | AllocateCall(key: Key, prefixes: seq<Prefix>)

  /** What a caller learns: this name has this address. */
  datatype Answer = NoAnswer | Answer(key: Key, ip: Addr)

  ghost function Apply(w: World, call: Call, now: int, lease: int): (World, Answer) {
    match call
    case LookupKeyCall(k) =>
      var (w', found) := w.LookupKey(k, now, lease);
      (w', if found.Some? then Answer(k, found.value) else NoAnswer)
    case LookupCall(ip) =>
      var (w', found) := w.Lookup(ip, now, lease);
      (w', if found.Some? then Answer(found.value, ip) else NoAnswer)
    case AllocateCall(k, ps) =>
      var (w', ip) := w.Allocate(k, ps, now, lease);
      (w', if ip.V4? then Answer(k, ip.addr) else NoAnswer)
  }

  /** The answer of a store without a cache that reads this table at this time. */
  ghost function TableAnswer(rows: Table, call: Call, now: int): Answer {
    match call
    case LookupKeyCall(k) =>
      var found := SelectKey(rows, k, now);
      if found.Some? then Answer(k, found.value) else NoAnswer
    case LookupCall(ip) =>
      var found := SelectIp(rows, ip, now);
      if found.Some? then Answer(found.value, ip) else NoAnswer
    case AllocateCall(k, ps) =>
      var found, free := SelectKey(rows, k, now), FirstFree(DeleteExpired(rows, now), ps);
      if found.Some? then Answer(k, found.value) else if free.V4? then Answer(k, free.addr) else NoAnswer
  }

  ghost predicate TwoWay(c: Cache) {
    Inverse(c) && c.expires.Keys == c.byIP.Keys
  }

  ghost predicate CacheCoherent(c: Cache, rows: Table, clock: int, lease: int) {
    && TwoWay(c)
    && (forall ip | ip in c.byIP ::
          && 0 < c.expires[ip] <= clock + lease
          && (c.expires[ip] > clock ==> Backed(rows, c.byIP[ip], ip, c.expires[ip])))
  }

  /** A row of a key that was renewed at some time lives at least one lease from then. */
  ghost predicate RenewalsHonoured(renewed: map<Key, int>, rows: Table, clock: int, lease: int) {
    forall k | k in renewed ::
      && 0 < renewed[k] <= clock
      && (k in rows ==> rows[k].expiry >= renewed[k] + lease)
  }

  ghost predicate WorldOk(w: World, clock: int, lease: int) {
    && UniqueIps(w.rows)
    && CacheCoherent(w.cache, w.rows, clock, lease)
    && RenewalsHonoured(w.renewed, w.rows, clock, lease)
  }

  /** All a step at `now` may do to the table: live rows keep their address, and changed rows are fresh. */
  ghost predicate Evolves(rows: Table, rows': Table, now: int, lease: int) {
    && UniqueIps(rows')
    && (forall k | k in rows && rows[k].expiry > now :: k in rows' && rows'[k].ip == rows[k].ip)
    && (forall k | k in rows' :: rows'[k].expiry == now + lease || (k in rows && rows'[k] == rows[k]))
  }

  /** Time passing and another replica's step leave a cache coherent. */
  lemma CoherenceKept(c: Cache, rows: Table, rows': Table, clock: int, now: int, lease: int)
    requires CacheCoherent(c, rows, clock, lease) && clock <= now && Evolves(rows, rows', now, lease)
    ensures CacheCoherent(c, rows', now, lease)
  {
  }

  lemma RenewalsKept(renewed: map<Key, int>, rows: Table, rows': Table, clock: int, now: int, lease: int)
    requires RenewalsHonoured(renewed, rows, clock, lease) && clock <= now && Evolves(rows, rows', now, lease)
    ensures RenewalsHonoured(renewed, rows', now, lease)
  {
  }

  lemma EvolvesByNothing(rows: Table, now: int, lease: int)
    requires UniqueIps(rows)
    ensures Evolves(rows, rows, now, lease)
  {
  }

  lemma TimePasses(w: World, clock: int, now: int, lease: int)
    requires WorldOk(w, clock, lease) && clock <= now
    ensures WorldOk(w, now, lease)
  {
    EvolvesByNothing(w.rows, now, lease);
    CoherenceKept(w.cache, w.rows, w.rows, clock, now, lease);
  }

  /** A cache hit is backed by a live row; a miss leaves the address out of the cache. */
  lemma CacheHit(c: Cache, rows: Table, ip: Addr, now: int, lease: int)
    requires CacheCoherent(c, rows, now, lease)
    ensures var (c', found) := c.LookupLive(ip, now);
            && CacheCoherent(c', rows, now, lease)
            && (found.Some? ==> c' == c && ip in c.byIP && found.value == c.byIP[ip] && Backed(rows, found.value, ip, now + 1))
            && (found.None? ==> ip !in c'.byIP)
  {
  }

  lemma CacheKeyHit(c: Cache, rows: Table, k: Key, now: int, lease: int)
    requires CacheCoherent(c, rows, now, lease)
    ensures var (c', found) := c.LookupKeyLive(k, now);
            && CacheCoherent(c', rows, now, lease)
            && (found.Some? ==> c' == c && k in c.byKey && found.value == c.byKey[k] && Backed(rows, k, found.value, now + 1))
            && (found.None? ==> k !in c'.byKey)
  {
    if k in c.byKey {
      CacheHit(c, rows, c.byKey[k], now, lease);
    }
  }

  /** The row of an answered name is live, and with the debounce counted in is far from its expiry. */
  ghost predicate Settled(rows: Table, k: Key, ip: Addr, now: int, lease: int) {
    Backed(rows, k, ip, now + 1) && rows[k].expiry > now + lease - RENEWAL_DEBOUNCE
  }

  /** Renewing the live row of a name, forced or debounced. */
  lemma RenewKeeps(w: World, k: Key, ip: Addr, now: int, lease: int, force: bool)
    requires 0 < now && 0 < lease
    requires UniqueIps(w.rows) && RenewalsHonoured(w.renewed, w.rows, now, lease) && Backed(w.rows, k, ip, now + 1)
    ensures var w' := w.Renew(k, now, lease, force);
            && Evolves(w.rows, w'.rows, now, lease)
            && RenewalsHonoured(w'.renewed, w'.rows, now, lease)
            && Settled(w'.rows, k, ip, now, lease)
            && (force ==> w'.rows[k].expiry == now + lease)
  {
    var w' := w.Renew(k, now, lease, force);
    assert Evolves(w.rows, w'.rows, now, lease);
  }

  /** Caching a mapping that the table now holds for a full lease. */
  lemma RememberKeeps(c: Cache, rows: Table, k: Key, ip: Addr, now: int, lease: int)
    requires 0 < now && 0 < lease
    requires CacheCoherent(c, rows, now, lease) && Backed(rows, k, ip, now + lease)
    ensures CacheCoherent(c.RememberUntil(k, ip, now + lease), rows, now, lease)
  {
  }

  ghost predicate StepOk(w: World, w': World, now: int, lease: int) {
    WorldOk(w', now, lease) && Evolves(w.rows, w'.rows, now, lease)
  }

  /** Answering from the cache: `Remember` changes nothing, the renewal may be debounced. */
  lemma AnswerFromCache(w: World, k: Key, ip: Addr, now: int, lease: int)
    requires 0 < now && 0 < lease && WorldOk(w, now, lease)
    requires k in w.cache.byKey && Backed(w.rows, k, ip, now + 1)
    ensures w.Remember(k, ip, now + lease) == w
    ensures var w' := w.Renew(k, now, lease, false);
            StepOk(w, w', now, lease) && Settled(w'.rows, k, ip, now, lease)
  {
    RenewKeeps(w, k, ip, now, lease, false);
    CoherenceKept(w.cache, w.rows, w.Renew(k, now, lease, false).rows, now, now, lease);
  }

  /** Answering from a live row: it is renewed at once and cached for as long. */
  lemma AnswerFromTable(w: World, k: Key, ip: Addr, now: int, lease: int)
    requires 0 < now && 0 < lease && WorldOk(w, now, lease) && Backed(w.rows, k, ip, now + 1)
    ensures var w' := w.Remember(k, ip, now + lease).Renew(k, now, lease, true);
            StepOk(w, w', now, lease) && Settled(w'.rows, k, ip, now, lease)
  {
    var renewed := w.Renew(k, now, lease, true);
    RenewKeeps(w, k, ip, now, lease, true);
    CoherenceKept(w.cache, w.rows, renewed.rows, now, now, lease);
    RememberKeeps(w.cache, renewed.rows, k, ip, now, lease);
  }

  lemma DeletedRows(rows: Table, now: int, lease: int)
    requires UniqueIps(rows)
    ensures Evolves(rows, DeleteExpired(rows, now), now, lease)
  {
  }

  /** Only an address no row holds is taken. */
  lemma FreeIsFree(rows: Table, ps: seq<Prefix>)
    ensures FirstFree(rows, ps).V4? ==> !Holds(rows, FirstFree(rows, ps).addr)
  {
    var k := FirstFit(rows, ps);
    KthUsableBeyond(ps, k);
  }

  lemma InsertedRow(rows: Table, k: Key, ip: Addr, now: int, lease: int)
    requires UniqueIps(rows) && 0 < lease && SelectKey(rows, k, now).None?
    requires !Holds(DeleteExpired(rows, now), ip)
    ensures Evolves(rows, DeleteExpired(rows, now)[k := Row(ip, now + lease)], now, lease)
  {
  }

  lemma {:induction false} AnswerByAllocating(w: World, k: Key, ps: seq<Prefix>, now: int, lease: int)
    requires 0 < now && 0 < lease && WorldOk(w, now, lease) && SelectKey(w.rows, k, now).None?
    ensures var (w', ip) := w.AllocateNew(k, ps, now, lease);
            && StepOk(w, w', now, lease)
            && ip == FirstFree(DeleteExpired(w.rows, now), ps)
            && (ip.V4? ==> Settled(w'.rows, k, ip.addr, now, lease))
  {
    var live := DeleteExpired(w.rows, now);
    var ip := FirstFree(live, ps);
    if ip == Invalid {
      DeletedRows(w.rows, now, lease);
      CoherenceKept(w.cache, w.rows, live, now, now, lease);
    } else {
      var rows := live[k := Row(ip.addr, now + lease)];
      FreeIsFree(live, ps);
      InsertedRow(w.rows, k, ip.addr, now, lease);
      CoherenceKept(w.cache, w.rows, rows, now, now, lease);
      RenewalsKept(w.renewed, w.rows, rows, now, now, lease);
      RememberKeeps(w.cache, rows, k, ip.addr, now, lease);
    }
  }

  ghost predicate Correct(w: World, call: Call, now: int, lease: int) {
    var (w', answer) := Apply(w, call, now, lease);
    && StepOk(w, w', now, lease)
    && answer == TableAnswer(w.rows, call, now)
    && (answer.Answer? ==> Settled(w'.rows, answer.key, answer.ip, now, lease))
  }

  lemma {:induction false} LookupKeyCorrect(w: World, k: Key, now: int, lease: int)
    requires 0 < now && 0 < lease && WorldOk(w, now, lease)
    ensures Correct(w, LookupKeyCall(k), now, lease)
  {
    CacheKeyHit(w.cache, w.rows, k, now, lease);
    var (cache, hit) := w.cache.LookupKeyLive(k, now);
    var w1 := World(w.rows, cache, w.renewed);
    EvolvesByNothing(w.rows, now, lease);
    if hit.Some? {
      AnswerFromCache(w1, k, hit.value, now, lease);
    } else if SelectKey(w.rows, k, now).Some? {
      AnswerFromTable(w1, k, w.rows[k].ip, now, lease);
    }
  }

  lemma {:induction false} LookupCorrect(w: World, ip: Addr, now: int, lease: int)
    requires 0 < now && 0 < lease && WorldOk(w, now, lease)
    ensures Correct(w, LookupCall(ip), now, lease)
  {
    assert TwoWay(w.cache);
    hide CacheCoherent, RenewalsHonoured, Cache.RememberUntil;
    CacheHit(w.cache, w.rows, ip, now, lease);
    var (cache, hit) := w.cache.LookupLive(ip, now);
    var w1 := World(w.rows, cache, w.renewed);
    EvolvesByNothing(w.rows, now, lease);
    if hit.Some? {
      AnswerFromCache(w1, hit.value, ip, now, lease);
    } else if SelectIp(w.rows, ip, now).Some? {
      AnswerFromTable(w1, SelectIp(w.rows, ip, now).value, ip, now, lease);
    }
  }

  lemma {:induction false} AllocateCorrect(w: World, k: Key, ps: seq<Prefix>, now: int, lease: int)
    requires 0 < now && 0 < lease && WorldOk(w, now, lease)
    ensures Correct(w, AllocateCall(k, ps), now, lease)
  {
    hide CacheCoherent, RenewalsHonoured, World.AllocateNew, FirstFree, Cache.RememberUntil;
    CacheKeyHit(w.cache, w.rows, k, now, lease);
    var (cache, hit) := w.cache.LookupKeyLive(k, now);
    var w1 := World(w.rows, cache, w.renewed);
    EvolvesByNothing(w.rows, now, lease);
    if hit.Some? {
      AnswerFromCache(w1, k, hit.value, now, lease);
    } else if SelectKey(w.rows, k, now).Some? {
      AnswerFromTable(w1, k, w.rows[k].ip, now, lease);
    } else {
      AnswerByAllocating(w1, k, ps, now, lease);
    }
  }

  /**
    Every operation keeps the invariant, changes the table only as `Evolves` allows, answers
    exactly what the table says at that time, and leaves the answered row settled.
   */
  lemma {:induction false} OperationCorrect(w: World, call: Call, clock: int, now: int, lease: int)
    requires 0 < clock <= now && 0 < lease && WorldOk(w, clock, lease)
    ensures Correct(w, call, now, lease)
  {
    TimePasses(w, clock, now, lease);
    match call
    case LookupKeyCall(k) => LookupKeyCorrect(w, k, now, lease);
    case LookupCall(ip) => LookupCorrect(w, ip, now, lease);
    case AllocateCall(k, ps) => AllocateCorrect(w, k, ps, now, lease);
  }

  /** `AllocationLifecycle.Allocate`, a lookup and then an allocation at one time, answers as one allocation does. */
  lemma {:induction false} ResolveCorrect(w: World, k: Key, ps: seq<Prefix>, clock: int, now: int, lease: int)
    requires 0 < clock <= now && 0 < lease && WorldOk(w, clock, lease)
    ensures var (w', ip) := w.Resolve(k, ps, now, lease);
            && StepOk(w, w', now, lease)
            && (if ip.V4? then Answer(k, ip.addr) else NoAnswer) == TableAnswer(w.rows, AllocateCall(k, ps), now)
            && (ip.V4? ==> Settled(w'.rows, k, ip.addr, now, lease))
  {
    hide World.Allocate;
    OperationCorrect(w, LookupKeyCall(k), clock, now, lease);
    var (w1, found) := w.LookupKey(k, now, lease);
    if found.None? {
      assert w1.rows == w.rows;
      OperationCorrect(w1, AllocateCall(k, ps), now, now, lease);
    }
  }

  /** A row that is live at `now` holds this usable address. */
  ghost predicate LiveAt(rows: Table, ps: seq<Prefix>, j: nat, now: int) {
    exists k | k in rows :: V4(rows[k].ip) == KthUsable(ps, j) && rows[k].expiry > now
  }

  lemma HeldIsLive(rows: Table, ps: seq<Prefix>, j: nat, now: int)
    ensures HeldAt(DeleteExpired(rows, now), ps, j) <==> LiveAt(rows, ps, j, now)
  {
    var live := DeleteExpired(rows, now);
    if HeldAt(live, ps, j) {
      var k :| k in live && live[k].ip == KthUsable(ps, j).addr;
      assert k in rows && rows[k] == live[k];
    }
    if LiveAt(rows, ps, j, now) {
      var k :| k in rows && V4(rows[k].ip) == KthUsable(ps, j) && rows[k].expiry > now;
      assert k in live;
    }
  }

  /**
    First fit and capacity: a name without a live row gets the first usable address, in range
    order, that no live row holds; the allocation fails exactly when live rows hold them all.
   */
  lemma AllocateTakesFirstFit(w: World, k: Key, ps: seq<Prefix>, clock: int, now: int, lease: int) returns (n: nat)
    requires 0 < clock <= now && 0 < lease && WorldOk(w, clock, lease) && SelectKey(w.rows, k, now).None?
    ensures n <= Capacity(ps) && w.Allocate(k, ps, now, lease).1 == KthUsable(ps, n)
    ensures w.Allocate(k, ps, now, lease).1 == Invalid <==> n == Capacity(ps)
    ensures forall j | 0 <= j < n :: LiveAt(w.rows, ps, j, now)
    ensures n < Capacity(ps) ==> !LiveAt(w.rows, ps, n, now)
  {
    hide World.Allocate;
    OperationCorrect(w, AllocateCall(k, ps), clock, now, lease);
    n := FirstFit(DeleteExpired(w.rows, now), ps);
    KthUsableBeyond(ps, n);
    HeldIsLive(w.rows, ps, n, now);
    forall j | 0 <= j < n
      ensures LiveAt(w.rows, ps, j, now)
    {
      HeldIsLive(w.rows, ps, j, now);
    }
  }
}
