/**
  The operations of `SQLStore`: one shared table, a replica's cache in front of it, and the
  store's debounced lease renewals.

  `World` holds what one operation touches and its functions give the effect of each whole
  operation; the classes `Database` and `SqlStore` run the code's steps, statement by
  statement, and are proved to have exactly that effect.
 */
module Registry {
  import opened Addresses
  import opened Allocators
  import opened Basics
  import opened Tables

  const SECOND: int := 1_000_000_000
  const RENEWAL_DEBOUNCE: int := 5 * 60 * SECOND

  datatype World = World(rows: Table, cache: Cache, renewed: map<Key, int>)
  {
    predicate Debounced(k: Key, now: int) {
      k in renewed && renewed[k] != ZERO_TIME && now - renewed[k] < RENEWAL_DEBOUNCE
    }

    function Renew(k: Key, now: int, lease: int, force: bool): World {
      if !force && Debounced(k, now) then this
      else World(UpdateExpiry(rows, k, now + lease), cache, renewed[k := now])
    }

    function Remember(k: Key, ip: Addr, expiry: int): World {
      World(rows, cache.RememberUntil(k, ip, expiry), renewed)
    }

    function LookupKey(k: Key, now: int, lease: int): (World, Option<Addr>) {
      var (cache, hit) := cache.LookupKeyLive(k, now);
      var w := World(rows, cache, renewed);
      if hit.Some? then (w.Renew(k, now, lease, false), hit)
      else
        var row := SelectKey(rows, k, now);
        if row.None? then (w, None)
        else (w.Remember(k, row.value, now + lease).Renew(k, now, lease, true), row)
    }

    ghost function Lookup(ip: Addr, now: int, lease: int): (World, Option<Key>) {
      var (cache, hit) := cache.LookupLive(ip, now);
      var w := World(rows, cache, renewed);
      if hit.Some? then (w.Remember(hit.value, ip, now + lease).Renew(hit.value, now, lease, false), hit)
      else
        var row := SelectIp(rows, ip, now);
        if row.None? then (w, None)
        else (w.Remember(row.value, ip, now + lease).Renew(row.value, now, lease, true), row)
    }

    function Allocate(k: Key, ps: seq<Prefix>, now: int, lease: int): (World, MaybeAddr) {
      var (cache, hit) := cache.LookupKeyLive(k, now);
      var w := World(rows, cache, renewed);
      if hit.Some? then (w.Remember(k, hit.value, now + lease).Renew(k, now, lease, false), V4(hit.value))
      else
        var row := SelectKey(rows, k, now);
        if row.Some? then (w.Remember(k, row.value, now + lease).Renew(k, now, lease, true), V4(row.value))
        else w.AllocateNew(k, ps, now, lease)
    }

    /** No live row: expired rows go, then the first free address in range order is taken. */
    function AllocateNew(k: Key, ps: seq<Prefix>, now: int, lease: int): (World, MaybeAddr) {
      var live := DeleteExpired(rows, now);
      var ip := FirstFree(live, ps);
      if ip == Invalid then (World(live, cache, renewed), Invalid)
      else
        var w := World(live[k := Row(ip.addr, now + lease)], cache, renewed[k := now]);
        (w.Remember(k, ip.addr, now + lease), ip)
    }

    /** `AllocationLifecycle.Allocate` with a store. */
    function Resolve(k: Key, ps: seq<Prefix>, now: int, lease: int): (World, MaybeAddr) {
      var (w, found) := LookupKey(k, now, lease);
      if found.Some? then (w, V4(found.value)) else w.Allocate(k, ps, now, lease)
    }
  }

  /** The database; each method is one SQL statement. */
  class Database {
    var rows: Table

    constructor ()
      ensures rows == map[]
    {
      rows := map[];
    }

    method SelectKey(k: Key, now: int) returns (ip: Option<Addr>)
      ensures ip == Tables.SelectKey(rows, k, now)
    {
      ip := if k in rows && rows[k].expiry > now then Some(rows[k].ip) else None;
    }

    method SelectIp(ip: Addr, now: int) returns (k: Option<Key>)
      requires UniqueIps(rows)
      ensures k == Tables.SelectIp(rows, ip, now)
    {
      if l :| l in rows && rows[l].ip == ip && rows[l].expiry > now {
        k := Some(l);
      } else {
        k := None;
      }
    }

    method DeleteExpired(now: int)
      modifies this
      ensures rows == Tables.DeleteExpired(old(rows), now)
    {
      rows := map k | k in rows && rows[k].expiry > now :: rows[k];
    }

    method Insert(k: Key, ip: Addr, expiry: int) returns (inserted: nat)
      modifies this
      ensures rows == Tables.Insert(old(rows), k, ip, expiry)
      ensures inserted == if k in old(rows) || Holds(old(rows), ip) then 0 else 1
    {
      if k in rows || Holds(rows, ip) {
        return 0;
      }
      rows := rows[k := Row(ip, expiry)];
      return 1;
    }

    method UpdateExpiry(k: Key, expiry: int)
      modifies this
      ensures rows == Tables.UpdateExpiry(old(rows), k, expiry)
    {
      if k in rows {
        rows := rows[k := rows[k].(expiry := expiry)];
      }
    }
  }

  class SqlStore {
    const db: Database
    var lastRenewed: map<Key, int>

    constructor (db: Database)
      ensures this.db == db && lastRenewed == map[]
    {
      this.db := db;
      lastRenewed := map[];
    }

    function View(a: Allocator): World
      reads this, db, a
    {
      World(db.rows, a.View(), lastRenewed)
    }

    method Renew(a: Allocator, k: Key, now: int, lease: int, force: bool)
      modifies this, db
      ensures View(a) == old(View(a)).Renew(k, now, lease, force)
    {
      if !force && k in lastRenewed && lastRenewed[k] != ZERO_TIME && now - lastRenewed[k] < RENEWAL_DEBOUNCE {
        return;
      }
      lastRenewed := lastRenewed[k := now];
      db.UpdateExpiry(k, now + lease);
    }

    method LookupKey(a: Allocator, k: Key, now: int, lease: int) returns (found: Option<Addr>)
      modifies this, db, a
      ensures (View(a), found) == old(View(a)).LookupKey(k, now, lease)
    {
      found := a.LookupKeyLive(k, now);
      if found.Some? {
        Renew(a, k, now, lease, false);
        return;
      }
      found := db.SelectKey(k, now);
      if found.None? {
        return;
      }
      a.RememberUntil(k, found.value, now + lease);
      Renew(a, k, now, lease, true);
    }

    method Lookup(a: Allocator, ip: Addr, now: int, lease: int) returns (found: Option<Key>)
      requires UniqueIps(db.rows)
      modifies this, db, a
      ensures (View(a), found) == old(View(a)).Lookup(ip, now, lease)
    {
      found := a.LookupLive(ip, now);
      if found.Some? {
        a.RememberUntil(found.value, ip, now + lease);
        Renew(a, found.value, now, lease, false);
        return;
      }
      found := db.SelectIp(ip, now);
      if found.None? {
        return;
      }
      a.RememberUntil(found.value, ip, now + lease);
      Renew(a, found.value, now, lease, true);
    }

    method Allocate(a: Allocator, k: Key, prefixes: seq<Prefix>, now: int, lease: int) returns (ip: MaybeAddr)
      requires lease > 0
      modifies this, db, a
      ensures (View(a), ip) == old(View(a)).Allocate(k, prefixes, now, lease)
    {
      var hit := a.LookupKeyLive(k, now);
      if hit.Some? {
        a.RememberUntil(k, hit.value, now + lease);
        Renew(a, k, now, lease, false);
        return V4(hit.value);
      }
      hit := db.SelectKey(k, now);
      if hit.Some? {
        a.RememberUntil(k, hit.value, now + lease);
        Renew(a, k, now, lease, true);
        return V4(hit.value);
      }
      ip := AllocateNew(a, k, prefixes, now, lease);
    }

    /** The second half of `SQLStore.Allocate`, from the DELETE on. */
    method AllocateNew(a: Allocator, k: Key, prefixes: seq<Prefix>, now: int, lease: int) returns (ip: MaybeAddr)
      requires lease > 0 && Tables.SelectKey(db.rows, k, now).None?
      modifies this, db, a
      ensures (View(a), ip) == old(View(a)).AllocateNew(k, prefixes, now, lease)
    {
      db.DeleteExpired(now);
      ghost var live := db.rows;
      var i := 0;
      while i < |prefixes|
        invariant 0 <= i <= |prefixes|
        invariant View(a) == World(live, old(a.View()), old(lastRenewed))
        invariant FirstFree(live, prefixes[i..]) == FirstFree(live, prefixes)
      {
        var found := TryBlock(a, k, prefixes[i], now, lease);
        if found != Invalid {
          return found;
        }
        assert prefixes[i..][1..] == prefixes[i + 1..];
        i := i + 1;
      }
      return Invalid;
    }

    /** The inner loop: one INSERT and one SELECT per address of the block. */
    method TryBlock(a: Allocator, k: Key, prefix: Prefix, now: int, lease: int) returns (found: MaybeAddr)
      requires lease > 0 && k !in db.rows
      modifies this, db, a
      ensures found == FirstFreeIn(old(db.rows), prefix, Next(V4(Base(prefix))))
      ensures found == Invalid ==> View(a) == old(View(a))
      ensures found.V4? ==>
                View(a) == World(old(db.rows)[k := Row(found.addr, now + lease)], old(a.View()), old(lastRenewed)[k := now])
                           .Remember(k, found.addr, now + lease)
    {
      var ip := Next(V4(Base(prefix)));
      while Contains(prefix, ip)
        invariant View(a) == old(View(a))
        invariant FirstFreeIn(db.rows, prefix, ip) == FirstFreeIn(old(db.rows), prefix, Next(V4(Base(prefix))))
        decreases if ip.V4? then ADDRESS_COUNT - ip.addr else 0
      {
        var inserted := db.Insert(k, ip.addr, now + lease);
        var row := db.SelectKey(k, now);
        if row.None? && inserted == 0 {
          ip := Next(ip);
          continue;
        }
        a.RememberUntil(k, row.value, now + lease);
        lastRenewed := lastRenewed[k := now];
        return V4(row.value);
      }
      return Invalid;
    }
  }
}
