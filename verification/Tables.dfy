/**
  The allocation table `domain_gateway_allocations` and the SQL statements run on it.
  Times are integers in nanoseconds.
 */
module Tables {
  import opened Addresses
  import opened Allocators
  import opened Basics

  datatype Row = Row(ip: Addr, expiry: int)

  /** Keyed by the table's primary key. */
  type Table = map<Key, Row>

  /** The UNIQUE constraint on the ip column. */
  ghost predicate UniqueIps(rows: Table) {
    forall k, l | k in rows && l in rows && rows[k].ip == rows[l].ip :: k == l
  }

  predicate HasAddress(rows: Table, k: Key, ip: Addr) {
    k in rows && rows[k].ip == ip
  }

  /** The row behind a cache entry: it lives at least as long. */
  predicate Backed(rows: Table, k: Key, ip: Addr, expiry: int) {
    HasAddress(rows, k, ip) && rows[k].expiry >= expiry
  }

  predicate Holds(rows: Table, ip: Addr) {
    exists k | k in rows :: rows[k].ip == ip
  }

  function SelectKey(rows: Table, k: Key, now: int): Option<Addr> {
    if k in rows && rows[k].expiry > now then Some(rows[k].ip) else None
  }

  ghost function SelectIp(rows: Table, ip: Addr, now: int): Option<Key> {
    if k :| k in rows && rows[k].ip == ip && rows[k].expiry > now then Some(k) else None
  }

  function DeleteExpired(rows: Table, now: int): Table {
    map k | k in rows && rows[k].expiry > now :: rows[k]
  }

  /** INSERT ... ON CONFLICT DO NOTHING. */
  function Insert(rows: Table, k: Key, ip: Addr, expiry: int): Table {
    if k in rows || Holds(rows, ip) then rows else rows[k := Row(ip, expiry)]
  }

  function UpdateExpiry(rows: Table, k: Key, expiry: int): Table {
    if k in rows then rows[k := rows[k].(expiry := expiry)] else rows
  }

  /** The first address of one block, from `ip` up, that no row holds. */
  function FirstFreeIn(rows: Table, p: Prefix, ip: MaybeAddr): MaybeAddr
    decreases if ip.V4? then ADDRESS_COUNT - ip.addr else 0
  {
    if !Contains(p, ip) then Invalid
    else if !Holds(rows, ip.addr) then ip
    else FirstFreeIn(rows, p, Next(ip))
  }

  /** The first usable address of the blocks, in list order, that no row holds. */
  function FirstFree(rows: Table, ps: seq<Prefix>): MaybeAddr {
    if ps == [] then Invalid
    else
      var here := FirstFreeIn(rows, ps[0], Next(V4(Base(ps[0]))));
      if here.V4? then here else FirstFree(rows, ps[1..])
  }

  ghost predicate HeldAt(rows: Table, ps: seq<Prefix>, k: nat) {
    var ip := KthUsable(ps, k);
    ip.V4? && Holds(rows, ip.addr)
  }

  ghost predicate OffsetHeld(rows: Table, p: Prefix, o: nat) {
    var a := Base(p) + 1 + o;
    a < ADDRESS_COUNT && Holds(rows, a)
  }

  /** Within one block the search stops at the first offset that no row holds. */
  lemma {:induction false} FirstFreeOffset(rows: Table, p: Prefix, o: nat) returns (f: nat)
    requires o < Size(p) && End(p) <= ADDRESS_COUNT
    ensures o <= f < Size(p)
    ensures forall j: nat | o <= j < f :: OffsetHeld(rows, p, j)
    ensures FirstFreeIn(rows, p, Next(V4(Base(p) + o))) ==
            if f < Size(p) - 1 then V4(Base(p) + 1 + f) else Invalid
    ensures f < Size(p) - 1 ==> !OffsetHeld(rows, p, f)
    decreases Size(p) - o
  {
    if o == Size(p) - 1 || !OffsetHeld(rows, p, o) {
      f := o;
    } else {
      f := FirstFreeOffset(rows, p, o + 1);
    }
  }

  /**
    First fit: FirstFree is the usable address with the least number that no row holds, and
    Invalid exactly when every usable address of the blocks is held.
   */
  lemma {:induction false} FirstFit(rows: Table, ps: seq<Prefix>) returns (k: nat)
    ensures k <= Capacity(ps) && FirstFree(rows, ps) == KthUsable(ps, k)
    ensures forall j | 0 <= j < k :: HeldAt(rows, ps, j)
    ensures k < Capacity(ps) ==> KthUsable(ps, k).V4? && !HeldAt(rows, ps, k)
  {
    if ps == [] {
      k := 0;
    } else {
      EndInRange(ps[0]);
      var f := FirstFreeOffset(rows, ps[0], 0);
      if f < Size(ps[0]) - 1 {
        k := f;
      } else {
        k := FirstFit(rows, ps[1..]);
        k := f + k;
      }
      forall j | 0 <= j < k
        ensures HeldAt(rows, ps, j)
      {
        if j < f {
          assert OffsetHeld(rows, ps[0], j);
        } else {
          assert HeldAt(rows, ps[1..], j - f);
        }
      }
    }
  }
}
