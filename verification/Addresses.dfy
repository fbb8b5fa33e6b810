/**
  IPv4 addresses and CIDR blocks as the allocator, the registry and the policy use them
  (Go's `netip.Addr` and `netip.Prefix` restricted to IPv4), and the order in which the
  usable addresses of a list of blocks are handed out.
 */
module Addresses {

  const ADDRESS_COUNT: nat := 0x1_0000_0000

  type Addr = a: nat | a < 0x1_0000_0000

  /** `netip.Addr`: `Invalid` is the zero value. */
  datatype MaybeAddr = Invalid | V4(addr: Addr)

  function Next(a: MaybeAddr): MaybeAddr {
    if a.V4? && a.addr + 1 < ADDRESS_COUNT then V4(a.addr + 1) else Invalid
  }

  function Prev(a: MaybeAddr): MaybeAddr {
    if a.V4? && a.addr > 0 then V4(a.addr - 1) else Invalid
  }

  /** `netip.Addr.Less`: the zero value sorts before every address. */
  predicate Less(a: MaybeAddr, b: MaybeAddr) {
    b.V4? && (a.V4? ==> a.addr < b.addr)
  }

  function Pow2(n: nat): (r: nat)
    ensures r >= 1
  {
    if n == 0 then 1 else 2 * Pow2(n - 1)
  }

  datatype Block = Block(addr: Addr, bits: nat)

  type Prefix = p: Block | p.bits <= 32 witness Block(0, 0)

  function Size(p: Prefix): (r: nat)
    ensures r >= 1
  {
    Pow2(32 - p.bits)
  }

  /** The address with its low n bits cleared. */
  function ClearLow(a: nat, n: nat): (r: nat)
    ensures r <= a < r + Pow2(n)
  {
    if n == 0 then a else 2 * ClearLow(a / 2, n - 1)
  }

  /** The address shifted right by n bits. */
  function ShiftRight(a: nat, n: nat): nat {
    if n == 0 then a else ShiftRight(a / 2, n - 1)
  }

  /** `prefix.Masked().Addr()`: the network address. */
  function Base(p: Prefix): (r: Addr)
    ensures r <= p.addr < r + Size(p)
  {
    ClearLow(p.addr, 32 - p.bits)
  }

  /** One past the last address of the block. */
  function End(p: Prefix): nat {
    Base(p) + Size(p)
  }

  predicate Contains(p: Prefix, a: MaybeAddr) {
    a.V4? && Base(p) <= a.addr < End(p)
  }

  /** `prefix == prefix.Masked()`. */
  predicate Canonical(p: Prefix) {
    p.addr == Base(p)
  }

  /** `netip.Prefix.Overlaps`: compare both network addresses at the shorter length. */
  predicate Overlaps(p: Prefix, q: Prefix) {
    if p.bits < q.bits then
      Base(p) == ClearLow(q.addr, 32 - p.bits)
    else
      ClearLow(p.addr, 32 - q.bits) == Base(q)
  }

  predicate Disjoint(p: Prefix, q: Prefix) {
    End(p) <= Base(q) || End(q) <= Base(p)
  }

  ghost predicate PairwiseDisjoint(ps: seq<Prefix>) {
    forall i, j | 0 <= i < j < |ps| :: Disjoint(ps[i], ps[j])
  }

  /** The range lists that policy accepts: not empty, network prefixes, no shared address. */
  ghost predicate ValidRanges(ps: seq<Prefix>) {
    ps != [] && (forall i | 0 <= i < |ps| :: Canonical(ps[i])) && PairwiseDisjoint(ps)
  }

  lemma {:induction false} AlignedFits(a: nat, n: nat, m: nat)
    requires n <= m && a < Pow2(m)
    ensures ClearLow(a, n) + Pow2(n) <= Pow2(m)
  {
    if n > 0 {
      AlignedFits(a / 2, n - 1, m - 1);
    }
  }

  /** Blocks of one size are equal or apart. */
  lemma {:induction false} AlignedApart(a: nat, b: nat, n: nat)
    ensures ClearLow(a, n) < ClearLow(b, n) ==> ClearLow(a, n) + Pow2(n) <= ClearLow(b, n)
    ensures ClearLow(a, n) == ClearLow(b, n) <==> ShiftRight(a, n) == ShiftRight(b, n)
  {
    if n > 0 {
      AlignedApart(a / 2, b / 2, n - 1);
    }
  }

  /** Widening a block keeps all of its addresses. */
  lemma {:induction false} AlignedNested(a: nat, n: nat, m: nat)
    requires n <= m
    ensures ClearLow(a, m) <= ClearLow(a, n)
    ensures ClearLow(a, n) + Pow2(n) <= ClearLow(a, m) + Pow2(m)
  {
    if n > 0 {
      AlignedNested(a / 2, n - 1, m - 1);
    }
  }

  lemma Pow2Of32()
    ensures Pow2(32) == ADDRESS_COUNT
  {
    assert Pow2(8) == 0x100;
    assert Pow2(16) == 0x1_0000;
    assert Pow2(24) == 0x100_0000;
  }

  /** No block runs past the top of the address space. */
  lemma EndInRange(p: Prefix)
    ensures End(p) <= ADDRESS_COUNT
  {
    Pow2Of32();
    AlignedFits(p.addr, 32 - p.bits, 32);
  }

  /** Contains is the library's test: the leading bits agree. */
  lemma ContainsComparesLeadingBits(p: Prefix, a: Addr)
    ensures Contains(p, V4(a)) <==> ShiftRight(a, 32 - p.bits) == ShiftRight(p.addr, 32 - p.bits)
  {
    AlignedApart(a, p.addr, 32 - p.bits);
    AlignedApart(p.addr, a, 32 - p.bits);
  }

  /** With p the wider block, the bit test of Overlaps is false exactly of disjoint blocks. */
  lemma OverlapsOfWider(p: Prefix, q: Prefix)
    requires p.bits <= q.bits
    ensures Base(p) == ClearLow(q.addr, 32 - p.bits) <==> !Disjoint(p, q)
  {
    hide ClearLow, Pow2, ShiftRight;
    AlignedNested(q.addr, 32 - q.bits, 32 - p.bits);
    AlignedApart(p.addr, q.addr, 32 - p.bits);
    AlignedApart(q.addr, p.addr, 32 - p.bits);
  }

  lemma OverlapsIffNotDisjoint(p: Prefix, q: Prefix)
    ensures Overlaps(p, q) <==> !Disjoint(p, q)
  {
    if p.bits < q.bits {
      OverlapsOfWider(p, q);
    } else {
      OverlapsOfWider(q, p);
    }
  }

  /** The bit test of Overlaps decides whether the blocks share an address. */
  lemma OverlapsIffShared(p: Prefix, q: Prefix)
    ensures Overlaps(p, q) <==> exists a: Addr :: Contains(p, V4(a)) && Contains(q, V4(a))
  {
    OverlapsIffNotDisjoint(p, q);
    var a := if Base(p) < Base(q) then Base(q) else Base(p);
    assert !Disjoint(p, q) ==> Contains(p, V4(a)) && Contains(q, V4(a));
  }

  /** Everything in a block but its network address can be handed out. */
  function Capacity(ps: seq<Prefix>): nat {
    if ps == [] then 0 else Size(ps[0]) - 1 + Capacity(ps[1..])
  }

  /** The k-th usable address of the blocks, taken block by block in list order. */
  function KthUsable(ps: seq<Prefix>, k: nat): (r: MaybeAddr)
  {
    if ps == [] then
      Invalid
    else if k < Size(ps[0]) - 1 then
      EndInRange(ps[0]);
      V4(Base(ps[0]) + 1 + k)
    else
      KthUsable(ps[1..], k - (Size(ps[0]) - 1))
  }

  ghost predicate IsUsable(ps: seq<Prefix>, a: Addr) {
    exists i | 0 <= i < |ps| :: Base(ps[i]) < a < End(ps[i])
  }

  /** Addresses handed out before block r. */
  function Before(ps: seq<Prefix>, r: nat): nat
    requires r <= |ps|
  {
    Capacity(ps[..r])
  }

  lemma {:induction false} CapacitySplit(ps: seq<Prefix>, qs: seq<Prefix>)
    ensures Capacity(ps + qs) == Capacity(ps) + Capacity(qs)
  {
    if ps == [] {
      assert ps + qs == qs;
    } else {
      assert (ps + qs)[1..] == ps[1..] + qs;
      CapacitySplit(ps[1..], qs);
    }
  }

  lemma {:induction false} BeforeStep(ps: seq<Prefix>, r: nat)
    requires r < |ps|
    ensures Before(ps, r + 1) == Before(ps, r) + Size(ps[r]) - 1
    ensures Before(ps, r + 1) <= Capacity(ps)
  {
    assert ps[..r + 1] == ps[..r] + [ps[r]];
    CapacitySplit(ps[..r], [ps[r]]);
    assert Capacity([ps[r]]) == Size(ps[r]) - 1;
    assert ps == ps[..r + 1] + ps[r + 1..];
    CapacitySplit(ps[..r + 1], ps[r + 1..]);
  }

  lemma {:induction false} BeforeMonotone(ps: seq<Prefix>, i: nat, j: nat)
    requires i <= j <= |ps|
    ensures Before(ps, i) <= Before(ps, j)
  {
    if i < j {
      BeforeMonotone(ps, i, j - 1);
      BeforeStep(ps, j - 1);
    }
  }

  lemma {:induction false} KthUsableSkip(ps: seq<Prefix>, qs: seq<Prefix>, k: nat)
    ensures KthUsable(ps + qs, Capacity(ps) + k) == KthUsable(qs, k)
  {
    if ps == [] {
      assert ps + qs == qs;
    } else {
      assert (ps + qs)[1..] == ps[1..] + qs;
      KthUsableSkip(ps[1..], qs, k);
    }
  }

  /** Position o of block r is number Before(ps, r) + o overall. */
  lemma KthUsableAt(ps: seq<Prefix>, r: nat, o: nat)
    requires r < |ps| && o < Size(ps[r]) - 1
    ensures Base(ps[r]) + 1 + o < ADDRESS_COUNT
    ensures KthUsable(ps, Before(ps, r) + o) == V4(Base(ps[r]) + 1 + o)
    ensures Before(ps, r) + o < Capacity(ps)
  {
    EndInRange(ps[r]);
    assert ps == ps[..r] + ps[r..];
    KthUsableSkip(ps[..r], ps[r..], o);
    BeforeStep(ps, r);
  }

  /** Every number below the capacity is a position of some block. */
  lemma {:induction false} Locate(ps: seq<Prefix>, k: nat) returns (r: nat, o: nat)
    requires k < Capacity(ps)
    ensures r < |ps| && o < Size(ps[r]) - 1
    ensures k == Before(ps, r) + o
  {
    if k < Size(ps[0]) - 1 {
      r, o := 0, k;
    } else {
      var rest := k - (Size(ps[0]) - 1);
      r, o := Locate(ps[1..], rest);
      r := r + 1;
      assert ps[..r] == [ps[0]] + ps[1..][..r - 1];
      CapacitySplit([ps[0]], ps[1..][..r - 1]);
    }
  }

  /** The block a usable address belongs to. */
  lemma KthUsableBlock(ps: seq<Prefix>, k: nat) returns (r: nat)
    requires k < Capacity(ps)
    ensures r < |ps| && Contains(ps[r], KthUsable(ps, k)) && Base(ps[r]) < KthUsable(ps, k).addr
  {
    var o: nat;
    r, o := Locate(ps, k);
    KthUsableAt(ps, r, o);
  }

  lemma {:induction false} KthUsableBeyond(ps: seq<Prefix>, k: nat)
    ensures KthUsable(ps, k).V4? <==> k < Capacity(ps)
  {
    if ps != [] && k >= Size(ps[0]) - 1 {
      KthUsableBeyond(ps[1..], k - (Size(ps[0]) - 1));
    }
  }

  /** The enumeration covers exactly the usable addresses. */
  lemma KthUsableComplete(ps: seq<Prefix>, a: Addr)
    ensures IsUsable(ps, a) <==> exists k: nat :: k < Capacity(ps) && KthUsable(ps, k) == V4(a)
  {
    if IsUsable(ps, a) {
      var r :| 0 <= r < |ps| && Base(ps[r]) < a < End(ps[r]);
      KthUsableAt(ps, r, a - Base(ps[r]) - 1);
    }
    if exists k: nat :: k < Capacity(ps) && KthUsable(ps, k) == V4(a) {
      var k: nat :| k < Capacity(ps) && KthUsable(ps, k) == V4(a);
      var r, o := Locate(ps, k);
      KthUsableAt(ps, r, o);
      assert Base(ps[r]) < a < End(ps[r]);
    }
  }

  /** On disjoint blocks the enumeration never repeats an address. */
  lemma KthUsableInjective(ps: seq<Prefix>, j: nat, k: nat)
    requires PairwiseDisjoint(ps)
    requires j < Capacity(ps) && k < Capacity(ps) && KthUsable(ps, j) == KthUsable(ps, k)
    ensures j == k
  {
    var r, o := Locate(ps, j);
    var r', o' := Locate(ps, k);
    KthUsableAt(ps, r, o);
    KthUsableAt(ps, r', o');
  }
}
