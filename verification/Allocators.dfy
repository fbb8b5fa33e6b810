/**
  The per-replica allocator (`domain.Allocator`): the in-memory address cursor, and the
  expiry-bounded two-way cache in front of the shared registry.

  `Cache` is the allocator's state as a value and the functions on it say what each method
  does to that state; the class `Allocator` keeps the same maps in fields and is proved
  against those functions.
 */
module Allocators {
  import opened Addresses
  import opened Basics

  /** `domain.Mapping`. The code joins the two parts with a NUL byte to index its maps. */
  datatype Key = Key(gateway: Str, domain: Str)

  /** A saved row, `diskMapping`. */
  datatype DiskRow = DiskRow(key: Key, ip: Addr)

  /** Go's `time.Time{}`: an absent deadline. */
  const ZERO_TIME: int := 0

  /** The index at which Allocate resumes: the cursor's block, or the one after the block it has just left. */
  function StartFrom(ps: seq<Prefix>, cursor: MaybeAddr, i: nat): (r: nat)
    requires i <= |ps|
    ensures r <= |ps|
    decreases |ps| - i
  {
    if i == |ps| then 0
    else if Contains(ps[i], cursor) then i
    else if Contains(ps[i], Prev(cursor)) then i + 1
    else StartFrom(ps, cursor, i + 1)
  }

  /** The address Allocate tries in block i. */
  function Candidate(ps: seq<Prefix>, start: nat, i: nat, ip: MaybeAddr): MaybeAddr
    requires i < |ps|
  {
    if i != start || !Contains(ps[i], ip) then Next(V4(Base(ps[i]))) else ip
  }

  predicate Accepts(p: Prefix, ip: MaybeAddr) {
    Contains(p, ip) && ip != V4(Base(p))
  }

  function Scan(ps: seq<Prefix>, start: nat, i: nat, ip: MaybeAddr): MaybeAddr
    requires i <= |ps|
    decreases |ps| - i
  {
    if i == |ps| then ip
    else
      var candidate := Candidate(ps, start, i, ip);
      if Accepts(ps[i], candidate) then candidate else Scan(ps, start, i + 1, Invalid)
  }

  /** The address Allocate gives to a new name, or Invalid when it reports exhaustion. */
  function SelectAddr(ps: seq<Prefix>, cursor: MaybeAddr): MaybeAddr {
    var start := StartFrom(ps, cursor, 0);
    if start == |ps| then Invalid
    else Scan(ps, start, start, if cursor.V4? then cursor else Next(V4(Base(ps[0]))))
  }

  /** The allocator's state; each function is the effect of one method or lock section. */
  datatype Cache = Cache(
    byKey: map<Key, Addr>,
    byIP: map<Addr, Key>,
    next: map<Str, MaybeAddr>,
    expires: map<Addr, int>)
  {
    function Cursor(gateway: Str): MaybeAddr {
      if gateway in next then next[gateway] else Invalid
    }

    /** A cached address is dropped once its deadline, if it has one, is reached. */
    predicate Stale(ip: Addr, now: int) {
      ip in expires && expires[ip] != ZERO_TIME && expires[ip] <= now
    }

    function Forget(ip: Addr): Cache
      requires ip in byIP
    {
      Cache(byKey - {byIP[ip]}, byIP - {ip}, next, expires - {ip})
    }

    function LookupLive(ip: Addr, now: int): (Cache, Option<Key>) {
      if ip !in byIP then (this, None)
      else if Stale(ip, now) then (Forget(ip), None)
      else (this, Some(byIP[ip]))
    }

    function LookupKeyLive(k: Key, now: int): (Cache, Option<Addr>) {
      if k !in byKey then (this, None)
      else
        var (cache, found) := LookupLive(byKey[k], now);
        (cache, if found.Some? then Some(byKey[k]) else None)
    }

    /** The cursor only ever moves up when a mapping is remembered or loaded. */
    function Advance(gateway: Str, ip: Addr): map<Str, MaybeAddr> {
      var after := Next(V4(ip));
      if Cursor(gateway) == Invalid || Less(Cursor(gateway), after) then next[gateway := after] else next
    }

    function RememberUntil(k: Key, ip: Addr, expiry: int): Cache {
      if k in byKey || ip in byIP then this
      else Cache(byKey[k := ip], byIP[ip := k], Advance(k.gateway, ip), expires[ip := expiry])
    }

    function Allocate(k: Key, ps: seq<Prefix>): (Cache, MaybeAddr) {
      if k in byKey then (this, V4(byKey[k]))
      else
        var ip := SelectAddr(ps, Cursor(k.gateway));
        if ip == Invalid then (this, Invalid)
        else (Cache(byKey[k := ip.addr], byIP[ip.addr := k], next[k.gateway := Next(ip)], expires), ip)
    }

    function LoadRow(row: DiskRow): Cache {
      Cache(byKey[row.key := row.ip], byIP[row.ip := row.key], Advance(row.key.gateway, row.ip), expires)
    }

    function Load(rows: seq<DiskRow>): Cache {
      if rows == [] then this else Load(rows[..|rows| - 1]).LoadRow(rows[|rows| - 1])
    }
  }

  const EMPTY_CACHE := Cache(map[], map[], map[], map[])

  /** The forward and the reverse map hold the same mappings. */
  ghost predicate Inverse(c: Cache) {
    && (forall k | k in c.byKey :: c.byKey[k] in c.byIP && c.byIP[c.byKey[k]] == k)
    && (forall ip | ip in c.byIP :: c.byIP[ip] in c.byKey && c.byKey[c.byIP[ip]] == ip)
  }

  /** The rows list every entry of the map once, in some order. */
  ghost predicate Lists(rows: seq<DiskRow>, m: map<Addr, Key>) {
    && (forall i | 0 <= i < |rows| :: rows[i].ip in m && m[rows[i].ip] == rows[i].key)
    && (forall ip | ip in m :: DiskRow(m[ip], ip) in rows)
    && (forall i, j | 0 <= i < j < |rows| :: rows[i].ip != rows[j].ip)
  }

  class Allocator {
    var byKey: map<Key, Addr>
    var byIP: map<Addr, Key>
    var next: map<Str, MaybeAddr>
    var expires: map<Addr, int>

    function View(): Cache
      reads this
    {
      Cache(byKey, byIP, next, expires)
    }

    constructor ()
      ensures View() == EMPTY_CACHE
    {
      byKey, byIP, next, expires := map[], map[], map[], map[];
    }

    method LookupLive(ip: Addr, now: int) returns (found: Option<Key>)
      modifies this
      ensures (View(), found) == old(View()).LookupLive(ip, now)
    {
      if ip !in byIP || (ip in expires && expires[ip] != ZERO_TIME && now >= expires[ip]) {
        if ip in byIP {
          var m := byIP[ip];
          byIP := byIP - {ip};
          byKey := byKey - {m};
          expires := expires - {ip};
        }
        return None;
      }
      return Some(byIP[ip]);
    }

    method LookupKeyLive(k: Key, now: int) returns (found: Option<Addr>)
      modifies this
      ensures (View(), found) == old(View()).LookupKeyLive(k, now)
    {
      if k !in byKey {
        return None;
      }
      var ip := byKey[k];
      var mapping := LookupLive(ip, now);
      return if mapping.Some? then Some(ip) else None;
    }

    method RememberUntil(k: Key, ip: Addr, expiry: int)
      modifies this
      ensures View() == old(View()).RememberUntil(k, ip, expiry)
    {
      if k in byKey {
        return;
      }
      if ip in byIP {
        return;
      }
      byKey := byKey[k := ip];
      byIP := byIP[ip := k];
      expires := expires[ip := expiry];
      AdvanceCursor(k.gateway, ip);
    }

    method AdvanceCursor(gateway: Str, ip: Addr)
      modifies this`next
      ensures next == old(View()).Advance(gateway, ip)
    {
      var after := Next(V4(ip));
      if gateway !in next || next[gateway] == Invalid || Less(next[gateway], after) {
        next := next[gateway := after];
      }
    }

    method Allocate(k: Key, prefixes: seq<Prefix>) returns (ip: MaybeAddr)
      modifies this
      ensures (View(), ip) == old(View()).Allocate(k, prefixes)
    {
      if k in byKey {
        return V4(byKey[k]);
      }
      var cursor := if k.gateway in next then next[k.gateway] else Invalid;
      var start := ResumeAt(prefixes, cursor);
      if |prefixes| == 0 || start == |prefixes| {
        return Invalid;
      }
      ip := cursor;
      if ip == Invalid {
        ip := Next(V4(Base(prefixes[0])));
      }
      ghost var selected := SelectAddr(prefixes, cursor);
      var i := start;
      while i < |prefixes|
        invariant start <= i <= |prefixes|
        invariant Scan(prefixes, start, i, ip) == selected
      {
        var prefix := prefixes[i];
        if i != start || !Contains(prefix, ip) {
          ip := Next(V4(Base(prefix)));
        }
        if Contains(prefix, ip) && ip != V4(Base(prefix)) {
          break;
        }
        ip := Invalid;
        i := i + 1;
      }
      if ip == Invalid {
        return Invalid;
      }
      byKey := byKey[k := ip.addr];
      byIP := byIP[ip.addr := k];
      next := next[k.gateway := Next(ip)];
    }

    static method ResumeAt(prefixes: seq<Prefix>, cursor: MaybeAddr) returns (start: nat)
      ensures start == StartFrom(prefixes, cursor, 0)
    {
      start := 0;
      if cursor != Invalid {
        var i := 0;
        while i < |prefixes|
          invariant 0 <= i <= |prefixes|
          invariant StartFrom(prefixes, cursor, i) == StartFrom(prefixes, cursor, 0)
        {
          if Contains(prefixes[i], cursor) {
            return i;
          }
          if Prev(cursor) != Invalid && Contains(prefixes[i], Prev(cursor)) {
            return i + 1;
          }
          i := i + 1;
        }
      } else {
        StartOfInvalid(prefixes, 0);
      }
    }

    /** Rows in whatever order the map yields them. */
    method Save() returns (rows: seq<DiskRow>)
      ensures Lists(rows, byIP)
    {
      rows := [];
      var left := byIP;
      while left != map[]
        invariant forall ip | ip in left :: ip in byIP && left[ip] == byIP[ip]
        invariant forall ip | ip in byIP && ip !in left :: DiskRow(byIP[ip], ip) in rows
        invariant forall i | 0 <= i < |rows| :: rows[i].ip in byIP && byIP[rows[i].ip] == rows[i].key && rows[i].ip !in left
        invariant forall i, j | 0 <= i < j < |rows| :: rows[i].ip != rows[j].ip
        decreases |left|
      {
        var ip :| ip in left;
        rows := rows + [DiskRow(left[ip], ip)];
        left := left - {ip};
      }
    }

    method Load(rows: seq<DiskRow>)
      modifies this
      ensures View() == old(View()).Load(rows)
    {
      for i := 0 to |rows|
        invariant View() == old(View()).Load(rows[..i])
      {
        assert rows[..i + 1][..i] == rows[..i];
        var row := rows[i];
        byKey := byKey[row.key := row.ip];
        byIP := byIP[row.ip := row.key];
        AdvanceCursor(row.key.gateway, row.ip);
      }
      assert rows[..|rows|] == rows;
    }
  }

  lemma {:induction false} StartOfInvalid(ps: seq<Prefix>, i: nat)
    requires i <= |ps|
    ensures StartFrom(ps, Invalid, i) == 0
    decreases |ps| - i
  {
    if i < |ps| {
      StartOfInvalid(ps, i + 1);
    }
  }
}
