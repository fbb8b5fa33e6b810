/**
  What the in-memory cursor of `Allocator.Allocate` hands out.

  Intended: the k-th new name of a gateway gets the k-th usable address of its blocks, in
  list order, until they run out. `EnumerationExact` proves that the code does this on
  disjoint blocks if and only if the blocks are `Smooth`, a condition on the block list alone.
 */
module Enumeration {
  import opened Addresses
  import opened Allocators

  /** The cursor after k addresses were handed out. */
  function CursorAfter(ps: seq<Prefix>, k: nat): MaybeAddr {
    if k == 0 then Invalid else Next(KthUsable(ps, k - 1))
  }

  /**
    The cursor survives leaving block r: the block does not end at 255.255.255.255, no earlier
    block of the list starts right after it, and the next block of the list does not either
    (unless that one has nothing to hand out).
   */
  ghost predicate SmoothAt(ps: seq<Prefix>, r: nat)
    requires r < |ps|
  {
    && End(ps[r]) != ADDRESS_COUNT
    && (forall q | 0 <= q < r :: Base(ps[q]) != End(ps[r]))
    && (r + 1 < |ps| && Size(ps[r + 1]) > 1 ==> Base(ps[r + 1]) != End(ps[r]))
  }

  ghost predicate Smooth(ps: seq<Prefix>) {
    forall r | 0 <= r < |ps| && Size(ps[r]) > 1 :: SmoothAt(ps, r)
  }

  /** The first usable address of the blocks from index i on. */
  function FirstFrom(ps: seq<Prefix>, i: nat): MaybeAddr
    requires i <= |ps|
    decreases |ps| - i
  {
    if i == |ps| then Invalid
    else if Size(ps[i]) > 1 then Next(V4(Base(ps[i])))
    else FirstFrom(ps, i + 1)
  }

  lemma {:induction false} FirstFromIsKth(ps: seq<Prefix>, i: nat)
    requires i <= |ps|
    ensures FirstFrom(ps, i) == KthUsable(ps, Before(ps, i))
    decreases |ps| - i
  {
    if i == |ps| {
      assert ps[..i] == ps;
      KthUsableBeyond(ps, Capacity(ps));
    } else if Size(ps[i]) > 1 {
      EndInRange(ps[i]);
      KthUsableAt(ps, i, 0);
    } else {
      BeforeStep(ps, i);
      FirstFromIsKth(ps, i + 1);
    }
  }

  /** FirstFrom lies in a block at or after i, and not after a block that has something. */
  lemma {:induction false} FirstFromLocated(ps: seq<Prefix>, i: nat, r: nat)
    requires i <= r < |ps| && Size(ps[r]) > 1
    ensures exists j | i <= j <= r :: Accepts(ps[j], FirstFrom(ps, i))
    decreases r - i
  {
    EndInRange(ps[i]);
    if Size(ps[i]) > 1 {
      assert Accepts(ps[i], FirstFrom(ps, i));
    } else {
      FirstFromLocated(ps, i + 1, r);
    }
  }

  lemma {:induction false} FirstFromNotBefore(ps: seq<Prefix>, i: nat)
    requires i <= |ps|
    ensures FirstFrom(ps, i).V4? ==> exists j | i <= j < |ps| :: Contains(ps[j], FirstFrom(ps, i))
    decreases |ps| - i
  {
    if i < |ps| {
      EndInRange(ps[i]);
      if Size(ps[i]) > 1 {
        assert Contains(ps[i], FirstFrom(ps, i));
      } else {
        FirstFromNotBefore(ps, i + 1);
      }
    }
  }

  /** What is found in blocks i..r is not what comes after block r. */
  lemma FirstFromMoves(ps: seq<Prefix>, i: nat, r: nat)
    requires PairwiseDisjoint(ps)
    requires i <= r < |ps| && Size(ps[r]) > 1
    ensures FirstFrom(ps, i) != FirstFrom(ps, r + 1)
  {
    FirstFromLocated(ps, i, r);
    FirstFromNotBefore(ps, r + 1);
  }

  lemma {:induction false} ScanPastStart(ps: seq<Prefix>, start: nat, i: nat)
    requires start < i <= |ps|
    ensures Scan(ps, start, i, Invalid) == FirstFrom(ps, i)
    decreases |ps| - i
  {
    if i < |ps| {
      EndInRange(ps[i]);
      if Size(ps[i]) == 1 {
        ScanPastStart(ps, start, i + 1);
      }
    }
  }

  lemma ScanFresh(ps: seq<Prefix>, start: nat, ip: MaybeAddr)
    requires start < |ps| && (!Contains(ps[start], ip) || ip == Next(V4(Base(ps[start]))))
    ensures Scan(ps, start, start, ip) == FirstFrom(ps, start)
  {
    EndInRange(ps[start]);
    if Size(ps[start]) == 1 {
      ScanPastStart(ps, start, start + 1);
    }
  }

  lemma {:induction false} StartSkips(ps: seq<Prefix>, cursor: MaybeAddr, i: nat, r: nat)
    requires i <= r <= |ps|
    requires forall t | i <= t < r :: !Contains(ps[t], cursor) && !Contains(ps[t], Prev(cursor))
    ensures StartFrom(ps, cursor, i) == StartFrom(ps, cursor, r)
    decreases r - i
  {
    if i < r {
      StartSkips(ps, cursor, i + 1, r);
    }
  }

  lemma SelectFromNothing(ps: seq<Prefix>)
    ensures SelectAddr(ps, Invalid) == FirstFrom(ps, 0)
  {
    StartOfInvalid(ps, 0);
    if ps != [] {
      ScanFresh(ps, 0, Next(V4(Base(ps[0]))));
    }
  }

  /** Within a block the cursor is the next address. */
  lemma SelectInside(ps: seq<Prefix>, r: nat, x: Addr)
    requires PairwiseDisjoint(ps)
    requires r < |ps| && Base(ps[r]) + 1 < x < End(ps[r])
    ensures SelectAddr(ps, V4(x)) == V4(x)
  {
    forall t | 0 <= t < r
      ensures !Contains(ps[t], V4(x)) && !Contains(ps[t], Prev(V4(x)))
    {
      assert Disjoint(ps[t], ps[r]);
    }
    StartSkips(ps, V4(x), 0, r);
  }

  /** An address that follows a block is in another disjoint block only as its network address. */
  lemma OnlyAsBase(p: Prefix, q: Prefix, x: Addr)
    requires Disjoint(p, q) && x == End(p)
    ensures !Contains(q, Prev(V4(x)))
    ensures Contains(q, V4(x)) <==> Base(q) == x
  {
  }

  lemma SelectBehind(ps: seq<Prefix>, r: nat, q: nat)
    requires PairwiseDisjoint(ps)
    requires q < r < |ps| && Base(ps[q]) == End(ps[r])
    ensures SelectAddr(ps, V4(Base(ps[q]))) == FirstFrom(ps, q + 1)
  {
    hide FirstFrom, Pow2, ClearLow;
    var x := Base(ps[q]);
    forall t | 0 <= t < q
      ensures !Contains(ps[t], V4(x)) && !Contains(ps[t], Prev(V4(x)))
    {
      assert Disjoint(ps[t], ps[r]) && Disjoint(ps[t], ps[q]);
      OnlyAsBase(ps[r], ps[t], x);
    }
    StartSkips(ps, V4(x), 0, q);
    ScanPastStart(ps, q, q + 1);
  }

  /**
    An earlier block q starts right after block r: the cursor goes back to the first address
    after block q, which has a lower number.
   */
  lemma SelectAtEarlier(ps: seq<Prefix>, r: nat, q: nat)
    requires PairwiseDisjoint(ps)
    requires q < r < |ps| && Base(ps[q]) == End(ps[r]) && Size(ps[r]) > 1
    ensures SelectAddr(ps, V4(Base(ps[q]))) == FirstFrom(ps, q + 1) == KthUsable(ps, Before(ps, q + 1))
    ensures Before(ps, q + 1) < Before(ps, r + 1) <= Capacity(ps)
    ensures SelectAddr(ps, V4(Base(ps[q]))) != FirstFrom(ps, r + 1)
  {
    hide SelectAddr, FirstFrom, KthUsable, Capacity, Pow2, ClearLow;
    SelectBehind(ps, r, q);
    FirstFromMoves(ps, q + 1, r);
    FirstFromIsKth(ps, q + 1);
    BeforeMonotone(ps, q + 1, r);
    BeforeStep(ps, r);
  }

  lemma StartAtNext(ps: seq<Prefix>, r: nat, x: Addr)
    requires PairwiseDisjoint(ps)
    requires r < |ps| && x == End(ps[r])
    requires forall q | 0 <= q < r :: Base(ps[q]) != x
    ensures StartFrom(ps, V4(x), 0) == r + 1
  {
    forall t | 0 <= t < r
      ensures !Contains(ps[t], V4(x)) && !Contains(ps[t], Prev(V4(x)))
    {
      assert Disjoint(ps[t], ps[r]);
      OnlyAsBase(ps[r], ps[t], x);
    }
    StartSkips(ps, V4(x), 0, r);
  }

  /** The next block of the list starts right after block r: its addresses are skipped. */
  lemma SelectAtAdjacent(ps: seq<Prefix>, r: nat)
    requires PairwiseDisjoint(ps)
    requires r + 1 < |ps| && Base(ps[r + 1]) == End(ps[r])
    requires forall q | 0 <= q < r :: Base(ps[q]) != End(ps[r])
    ensures SelectAddr(ps, V4(Base(ps[r + 1]))) == FirstFrom(ps, r + 2)
    ensures SelectAddr(ps, V4(Base(ps[r + 1]))) == FirstFrom(ps, r + 1) <==> Size(ps[r + 1]) == 1
  {
    StartAtNext(ps, r, Base(ps[r + 1]));
    ScanPastStart(ps, r + 1, r + 2);
    if Size(ps[r + 1]) > 1 {
      FirstFromMoves(ps, r + 1, r + 1);
    }
  }

  /** Nothing relevant starts right after block r: the next block is entered properly. */
  lemma SelectAtGap(ps: seq<Prefix>, r: nat, x: Addr)
    requires PairwiseDisjoint(ps)
    requires r < |ps| && x == End(ps[r])
    requires forall q | 0 <= q < r :: Base(ps[q]) != x
    requires r + 1 < |ps| ==> Base(ps[r + 1]) != x
    ensures SelectAddr(ps, V4(x)) == FirstFrom(ps, r + 1)
  {
    StartAtNext(ps, r, x);
    if r + 1 < |ps| {
      assert Disjoint(ps[r], ps[r + 1]);
      OnlyAsBase(ps[r], ps[r + 1], x);
      ScanFresh(ps, r + 1, V4(x));
    }
  }

  /** Block r ends at 255.255.255.255: the cursor is lost and starts over with the first address. */
  lemma SelectAtTop(ps: seq<Prefix>, r: nat)
    requires PairwiseDisjoint(ps)
    requires r < |ps| && Size(ps[r]) > 1
    ensures SelectAddr(ps, Invalid) == KthUsable(ps, 0) != FirstFrom(ps, r + 1)
  {
    SelectFirst(ps);
    SelectFromNothing(ps);
    FirstFromMoves(ps, 0, r);
  }

  /** What is selected once block r is used up is what comes next exactly when r is smooth. */
  lemma LeavingExactIffSmooth(ps: seq<Prefix>, r: nat, cursor: MaybeAddr)
    requires PairwiseDisjoint(ps)
    requires r < |ps| && 1 < Size(ps[r])
    requires if End(ps[r]) == ADDRESS_COUNT then cursor == Invalid else cursor.V4? && cursor.addr == End(ps[r])
    ensures SelectAddr(ps, cursor) == FirstFrom(ps, r + 1) <==> SmoothAt(ps, r)
  {
    if End(ps[r]) == ADDRESS_COUNT {
      SelectAtTop(ps, r);
    } else if q :| 0 <= q < r && Base(ps[q]) == End(ps[r]) {
      SelectAtEarlier(ps, r, q);
    } else if r + 1 < |ps| && Base(ps[r + 1]) == End(ps[r]) {
      SelectAtAdjacent(ps, r);
    } else {
      SelectAtGap(ps, r, End(ps[r]));
    }
  }

  /** Number k of the enumeration, when number k - 1 was the last of block r. */
  lemma SelectAtBoundary(ps: seq<Prefix>, r: nat)
    requires PairwiseDisjoint(ps)
    requires r < |ps| && Size(ps[r]) > 1
    ensures Before(ps, r + 1) <= Capacity(ps)
    ensures SelectAddr(ps, CursorAfter(ps, Before(ps, r + 1))) == KthUsable(ps, Before(ps, r + 1))
      <==> SmoothAt(ps, r)
  {
    hide SelectAddr, SmoothAt, FirstFrom, ClearLow, Pow2;
    EndInRange(ps[r]);
    BeforeStep(ps, r);
    assert CursorAfter(ps, Before(ps, r + 1)) == Next(V4(End(ps[r]) - 1)) by {
      KthUsableAt(ps, r, Size(ps[r]) - 2);
    }
    LeavingExactIffSmooth(ps, r, Next(V4(End(ps[r]) - 1)));
    FirstFromIsKth(ps, r + 1);
  }

  lemma SelectWithin(ps: seq<Prefix>, r: nat, o: nat)
    requires PairwiseDisjoint(ps)
    requires r < |ps| && o + 1 < Size(ps[r]) - 1
    ensures SelectAddr(ps, CursorAfter(ps, Before(ps, r) + o + 1)) == KthUsable(ps, Before(ps, r) + o + 1)
  {
    KthUsableAt(ps, r, o);
    KthUsableAt(ps, r, o + 1);
    SelectInside(ps, r, Base(ps[r]) + 2 + o);
  }

  lemma SelectFirst(ps: seq<Prefix>)
    ensures SelectAddr(ps, CursorAfter(ps, 0)) == KthUsable(ps, 0)
  {
    SelectFromNothing(ps);
    FirstFromIsKth(ps, 0);
    assert ps[..0] == [];
  }

  lemma {:induction false} SelectExact(ps: seq<Prefix>, k: nat)
    requires PairwiseDisjoint(ps) && Smooth(ps)
    requires k <= Capacity(ps)
    ensures SelectAddr(ps, CursorAfter(ps, k)) == KthUsable(ps, k)
  {
    hide SelectAddr;
    if k == 0 {
      SelectFirst(ps);
    } else {
      var r, o := Locate(ps, k - 1);
      if o + 1 < Size(ps[r]) - 1 {
        SelectWithin(ps, r, o);
      } else {
        assert k == Before(ps, r + 1) by { BeforeStep(ps, r); }
        assert SmoothAt(ps, r);
        SelectAtBoundary(ps, r);
      }
    }
  }

  /**
    The cursor enumerates the usable addresses exactly, and reports exhaustion exactly when
    they are used up, if and only if the block list is smooth.
   */
  lemma {:induction false} EnumerationExact(ps: seq<Prefix>)
    requires PairwiseDisjoint(ps)
    ensures Smooth(ps) <==>
            forall k: nat | k <= Capacity(ps) :: SelectAddr(ps, CursorAfter(ps, k)) == KthUsable(ps, k)
  {
    if Smooth(ps) {
      forall k: nat | k <= Capacity(ps)
        ensures SelectAddr(ps, CursorAfter(ps, k)) == KthUsable(ps, k)
      {
        SelectExact(ps, k);
      }
    } else {
      var r :| 0 <= r < |ps| && Size(ps[r]) > 1 && !SmoothAt(ps, r);
      SelectAtBoundary(ps, r);
    }
  }

  // ----- what any list of blocks hands out

  /** The cursor after k new names; a failed request leaves it where it is. */
  function CursorAt(ps: seq<Prefix>, k: nat): MaybeAddr
    decreases k, 0
  {
    if k == 0 then Invalid
    else
      var ip := Handed(ps, k - 1);
      if ip == Invalid then CursorAt(ps, k - 1) else Next(ip)
  }

  /** The address the k-th new name is given, or Invalid when exhaustion is reported. */
  function Handed(ps: seq<Prefix>, k: nat): MaybeAddr
    decreases k, 1
  {
    SelectAddr(ps, CursorAt(ps, k))
  }

  lemma CursorStep(ps: seq<Prefix>, k: nat)
    ensures CursorAt(ps, k + 1) == if Handed(ps, k) == Invalid then CursorAt(ps, k) else Next(Handed(ps, k))
  {
  }

  /** Exhaustion is final. */
  lemma {:induction false} HandedEnds(ps: seq<Prefix>, j: nat, k: nat)
    requires j <= k && Handed(ps, j) == Invalid
    ensures Handed(ps, k) == Invalid
    decreases k
  {
    if j < k {
      HandedEnds(ps, j, k - 1);
    }
  }

  lemma {:induction false} ScanAccepts(ps: seq<Prefix>, start: nat, i: nat, ip: MaybeAddr)
    requires i <= |ps| && (i == |ps| ==> ip == Invalid)
    ensures var r := Scan(ps, start, i, ip); r.V4? ==> IsUsable(ps, r.addr)
    decreases |ps| - i
  {
    if i < |ps| {
      var candidate := Candidate(ps, start, i, ip);
      if Accepts(ps[i], candidate) {
        assert Base(ps[i]) < candidate.addr < End(ps[i]);
      } else {
        ScanAccepts(ps, start, i + 1, Invalid);
      }
    }
  }

  /** Only usable addresses are handed out. */
  lemma HandedUsable(ps: seq<Prefix>, k: nat)
    ensures Handed(ps, k).V4? ==> IsUsable(ps, Handed(ps, k).addr)
  {
    var cursor := CursorAt(ps, k);
    var start := StartFrom(ps, cursor, 0);
    if start < |ps| {
      ScanAccepts(ps, start, start, if cursor.V4? then cursor else Next(V4(Base(ps[0]))));
    }
  }

  function Given(ps: seq<Prefix>, asked: nat): nat {
    if asked < Capacity(ps) then asked else Capacity(ps)
  }

  /** On smooth disjoint blocks that is the k-th usable address. */
  lemma {:induction false} HandedExact(ps: seq<Prefix>, k: nat)
    requires PairwiseDisjoint(ps) && Smooth(ps)
    ensures CursorAt(ps, k) == CursorAfter(ps, Given(ps, k)) && Handed(ps, k) == KthUsable(ps, k)
  {
    hide SelectAddr, KthUsable, Capacity, Smooth;
    if k > 0 {
      HandedExact(ps, k - 1);
      KthUsableBeyond(ps, k - 1);
    }
    SelectExact(ps, Given(ps, k));
    KthUsableBeyond(ps, k);
    KthUsableBeyond(ps, Given(ps, k));
  }

  /** 10.254.0.0/30 followed by 10.254.0.4/30: exhaustion is reported with three addresses left. */
  lemma AdjacentBlocksAreSkipped()
    ensures var ps := [Block(0x0AFE0000, 30), Block(0x0AFE0004, 30)];
            && PairwiseDisjoint(ps)
            && Capacity(ps) == 6
            && KthUsable(ps, 3) == V4(0x0AFE0005)
            && SelectAddr(ps, CursorAfter(ps, 3)) == Invalid
  {
    var p: Prefix, q: Prefix := Block(0x0AFE0000, 30), Block(0x0AFE0004, 30);
    var ps := [p, q];
    assert Size(p) == Size(q) == 4 by { assert Pow2(2) == 4; }
    assert Base(p) == p.addr by { assert ClearLow(p.addr / 4, 0) == p.addr / 4; }
    assert Base(q) == q.addr by { assert ClearLow(q.addr / 4, 0) == q.addr / 4; }
    assert ps[1..] == [q];
    KthUsableAt(ps, 0, 2);
    assert ps[..0] == [];
    SelectAtAdjacent(ps, 0);
    StartAtNext(ps, 0, Base(q));
    ScanPastStart(ps, 1, 2);
  }

  /** 255.255.255.252/30: the fourth name gets the address of the first. */
  lemma TopOfAddressSpaceWraps()
    ensures var ps := [Block(0xFFFF_FFFC, 30)];
            && Capacity(ps) == 3
            && KthUsable(ps, 3) == Invalid
            && SelectAddr(ps, CursorAfter(ps, 3)) == KthUsable(ps, 0)
  {
    var p: Prefix := Block(0xFFFF_FFFC, 30);
    var ps := [p];
    assert Size(p) == 4 by { assert Pow2(2) == 4; }
    assert Base(p) == p.addr by { assert ClearLow(p.addr / 4, 0) == p.addr / 4; }
    assert ps[..0] == [];
    KthUsableAt(ps, 0, 2);
    SelectFromNothing(ps);
    FirstFromIsKth(ps, 0);
  }
}
