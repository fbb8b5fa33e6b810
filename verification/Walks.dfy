/**
  The walk of the cursor through any list of disjoint blocks, smooth or not: which blocks it
  enters, and that it hands out an address twice if and only if it enters a block that wraps.
 */
module Walks {
  import opened Addresses
  import opened Allocators
  import opened Enumeration

  /** The first block from index i on that has something to hand out. */
  function Enter(ps: seq<Prefix>, i: nat): (r: nat)
    requires i <= |ps|
    ensures i <= r <= |ps|
    ensures forall t | i <= t < r :: Size(ps[t]) == 1
    ensures r < |ps| ==> Size(ps[r]) > 1
    decreases |ps| - i
  {
    if i == |ps| || Size(ps[i]) > 1 then i else Enter(ps, i + 1)
  }

  /** The list's next block starts right after block i. */
  predicate FollowedDirectly(ps: seq<Prefix>, i: nat) {
    i + 1 < |ps| && Base(ps[i + 1]) == End(ps[i])
  }

  /** Where the walk goes on to from block i: a block that follows directly is skipped. */
  function Onward(ps: seq<Prefix>, i: nat): (r: nat)
    requires i < |ps|
    ensures i < r <= |ps| && (r < |ps| ==> Size(ps[r]) > 1)
  {
    if FollowedDirectly(ps, i) then Enter(ps, i + 2) else Enter(ps, i + 1)
  }

  /** The blocks the walk enters as long as it only goes on. */
  ghost predicate Entered(ps: seq<Prefix>, i: nat): (r: bool)
    ensures r ==> i < |ps| && Size(ps[i]) > 1 && Enter(ps, 0) <= i
  {
    i < |ps| && (i == Enter(ps, 0) || exists j | 0 <= j < i :: Entered(ps, j) && Onward(ps, j) == i)
  }

  /** Leaving block r takes the walk back: it ends at 255.255.255.255, or an earlier block starts right after it. */
  ghost predicate Wraps(ps: seq<Prefix>, r: nat)
    requires r < |ps|
  {
    End(ps[r]) == ADDRESS_COUNT || exists q | 0 <= q < r :: Base(ps[q]) == End(ps[r])
  }

  ghost predicate NeverWraps(ps: seq<Prefix>) {
    forall r | 0 <= r < |ps| && Entered(ps, r) :: !Wraps(ps, r)
  }

  // ----- entered blocks

  lemma FirstEntered(ps: seq<Prefix>)
    requires Enter(ps, 0) < |ps|
    ensures Entered(ps, Enter(ps, 0))
  {
  }

  /** Any other entered block has an entered one from which the walk goes on to it. */
  lemma Predecessor(ps: seq<Prefix>, i: nat) returns (j: nat)
    requires Entered(ps, i) && i != Enter(ps, 0)
    ensures j < i && Entered(ps, j) && Onward(ps, j) == i
  {
    j :| 0 <= j < i && Entered(ps, j) && Onward(ps, j) == i;
  }

  lemma EnteredOnward(ps: seq<Prefix>, i: nat)
    requires Entered(ps, i) && Onward(ps, i) < |ps|
    ensures Entered(ps, Onward(ps, i))
  {
  }

  /** No block is entered between an entered one and where the walk goes on to. */
  lemma {:induction false} NothingBetween(ps: seq<Prefix>, p: nat, h: nat)
    requires Entered(ps, p) && Entered(ps, h) && p < h
    ensures Onward(ps, p) <= h
    decreases p + h
  {
    hide Entered, Onward, Enter, Size;
    var j := Predecessor(ps, h);
    if p < j {
      NothingBetween(ps, p, j);
    } else if j < p {
      NothingBetween(ps, j, p);
    }
  }

  /** A block with addresses that the walk passes over follows an entered block directly. */
  lemma {:induction false} PassedOver(ps: seq<Prefix>, s: nat, r: nat)
    requires s < r && Entered(ps, r) && Size(ps[s]) > 1 && !Entered(ps, s)
    ensures 0 < s && Entered(ps, s - 1) && FollowedDirectly(ps, s - 1)
    decreases r
  {
    hide Entered, Enter, Pow2, ClearLow;
    var j := Predecessor(ps, r);
    if s < j {
      PassedOver(ps, s, j);
    }
  }

  lemma {:induction false} FirstFromEnter(ps: seq<Prefix>, i: nat)
    requires i <= |ps|
    ensures FirstFrom(ps, i) == FirstFrom(ps, Enter(ps, i))
    decreases |ps| - i
  {
    if i < |ps| && Size(ps[i]) == 1 {
      FirstFromEnter(ps, i + 1);
    }
  }

  // ----- from block to block

  /** The addresses of a block follow each other. */
  lemma {:induction false} InBlock(ps: seq<Prefix>, i: nat, k: nat, o: nat)
    requires PairwiseDisjoint(ps) && i < |ps| && o < Size(ps[i]) - 1
    requires Handed(ps, k) == FirstFrom(ps, i)
    ensures Base(ps[i]) + 1 + o < ADDRESS_COUNT
    ensures Handed(ps, k + o) == V4(Base(ps[i]) + 1 + o)
    decreases o
  {
    hide SelectAddr;
    EndInRange(ps[i]);
    if o > 0 {
      InBlock(ps, i, k, o - 1);
      SelectInside(ps, i, Base(ps[i]) + 1 + o);
    }
  }

  /** What is handed out once a block is used up. */
  lemma {:induction false} Leaves(ps: seq<Prefix>, i: nat, k: nat)
    requires PairwiseDisjoint(ps) && i < |ps| && Size(ps[i]) > 1
    requires Handed(ps, k) == FirstFrom(ps, i)
    ensures var next := Handed(ps, k + Size(ps[i]) - 1);
            && (End(ps[i]) == ADDRESS_COUNT ==> next == FirstFrom(ps, 0))
            && (forall q | 0 <= q < i && Base(ps[q]) == End(ps[i]) :: next == FirstFrom(ps, q + 1))
            && (!Wraps(ps, i) ==> next == FirstFrom(ps, Onward(ps, i)))
  {
    hide SelectAddr, FirstFrom, Pow2, ClearLow, Enter;
    EndInRange(ps[i]);
    InBlock(ps, i, k, Size(ps[i]) - 2);
    var cursor := CursorAt(ps, k + Size(ps[i]) - 1);
    assert cursor == Next(V4(End(ps[i]) - 1));
    if End(ps[i]) == ADDRESS_COUNT {
      SelectFromNothing(ps);
    } else if q :| 0 <= q < i && Base(ps[q]) == End(ps[i]) {
      forall q | 0 <= q < i && Base(ps[q]) == End(ps[i])
        ensures SelectAddr(ps, cursor) == FirstFrom(ps, q + 1)
      {
        SelectAtEarlier(ps, i, q);
      }
    } else if FollowedDirectly(ps, i) {
      SelectAtAdjacent(ps, i);
      FirstFromEnter(ps, i + 2);
    } else {
      SelectAtGap(ps, i, End(ps[i]));
      FirstFromEnter(ps, i + 1);
    }
  }

  // ----- no entered block wraps: nothing is handed out twice

  /** The k-th new name gets address number o of entered block i. */
  ghost predicate At(ps: seq<Prefix>, k: nat, i: nat, o: nat) {
    && Entered(ps, i) && o < Size(ps[i]) - 1 && o <= k
    && Handed(ps, k - o) == FirstFrom(ps, i)
  }

  lemma AtAddress(ps: seq<Prefix>, k: nat, i: nat, o: nat)
    requires PairwiseDisjoint(ps) && At(ps, k, i, o)
    ensures Base(ps[i]) + 1 + o < ADDRESS_COUNT && Handed(ps, k) == V4(Base(ps[i]) + 1 + o)
  {
    hide Entered, Handed, FirstFrom, Pow2, ClearLow;
    InBlock(ps, i, k - o, o);
  }

  lemma {:induction false} AtFirst(ps: seq<Prefix>)
    requires Handed(ps, 0).V4?
    ensures At(ps, 0, Enter(ps, 0), 0)
  {
    hide SelectAddr;
    SelectFromNothing(ps);
    FirstFromEnter(ps, 0);
  }

  lemma {:induction false} AtNext(ps: seq<Prefix>, k: nat, i: nat, o: nat) returns (i': nat, o': nat)
    requires PairwiseDisjoint(ps) && NeverWraps(ps) && At(ps, k, i, o) && Handed(ps, k + 1).V4?
    ensures At(ps, k + 1, i', o') && (i < i' || (i == i' && o < o'))
  {
    hide Handed, Wraps;
    if o + 1 < Size(ps[i]) - 1 {
      i', o' := i, o + 1;
    } else {
      Leaves(ps, i, k - o);
      i', o' := Onward(ps, i), 0;
      EnteredOnward(ps, i);
    }
  }

  lemma HandedBefore(ps: seq<Prefix>, j: nat, k: nat)
    requires j <= k && Handed(ps, k).V4?
    ensures Handed(ps, j).V4?
  {
    if Handed(ps, j) == Invalid {
      HandedEnds(ps, j, k);
    }
  }

  /** Every address handed out lies in an entered block. */
  lemma {:induction false} HandedInEntered(ps: seq<Prefix>, k: nat) returns (i: nat, o: nat)
    requires PairwiseDisjoint(ps) && NeverWraps(ps) && Handed(ps, k).V4?
    ensures At(ps, k, i, o)
  {
    hide Handed, At, NeverWraps;
    if k == 0 {
      AtFirst(ps);
      i, o := Enter(ps, 0), 0;
    } else {
      HandedBefore(ps, k - 1, k);
      i, o := HandedInEntered(ps, k - 1);
      i, o := AtNext(ps, k - 1, i, o);
    }
  }

  lemma {:induction false} WalkAdvances(ps: seq<Prefix>, j: nat, k: nat) returns (i: nat, o: nat, i': nat, o': nat)
    requires PairwiseDisjoint(ps) && NeverWraps(ps) && j < k && Handed(ps, k).V4?
    ensures At(ps, j, i, o) && At(ps, k, i', o') && (i < i' || (i == i' && o < o'))
    decreases k
  {
    hide Handed, At, NeverWraps;
    HandedBefore(ps, k - 1, k);
    if j == k - 1 {
      i, o := HandedInEntered(ps, j);
      i', o' := AtNext(ps, j, i, o);
    } else {
      i, o, i', o' := WalkAdvances(ps, j, k - 1);
      i', o' := AtNext(ps, k - 1, i', o');
    }
  }

  lemma {:induction false} HandedDistinct(ps: seq<Prefix>, j: nat, k: nat)
    requires PairwiseDisjoint(ps) && NeverWraps(ps) && j < k && Handed(ps, k).V4?
    ensures Handed(ps, j) != Handed(ps, k)
  {
    hide Handed, NeverWraps;
    var i, o, i', o' := WalkAdvances(ps, j, k);
    AtAddress(ps, j, i, o);
    AtAddress(ps, k, i', o');
    if i < i' {
      assert Disjoint(ps[i], ps[i']);
    }
  }

  // ----- an entered block wraps: some address is handed out twice

  /** By time k the walk has reached every entered block up to r. */
  ghost predicate AllReached(ps: seq<Prefix>, r: nat, k: nat) {
    forall h | 0 <= h <= r && Entered(ps, h) :: Reached(ps, h, k)
  }

  ghost predicate Reached(ps: seq<Prefix>, h: nat, k: nat)
  {
    h < |ps| && exists j: nat :: j <= k && Handed(ps, j) == FirstFrom(ps, h)
  }

  lemma ReachedFirst(ps: seq<Prefix>)
    requires Enter(ps, 0) < |ps|
    ensures Handed(ps, 0) == FirstFrom(ps, Enter(ps, 0)) && AllReached(ps, Enter(ps, 0), 0)
  {
    hide SelectAddr, Entered;
    SelectFromNothing(ps);
    FirstFromEnter(ps, 0);
    assert Handed(ps, 0) == FirstFrom(ps, Enter(ps, 0));
  }

  lemma ReachedNext(ps: seq<Prefix>, p: nat, r: nat, before: nat, k: nat)
    requires Entered(ps, p) && Entered(ps, r) && Onward(ps, p) == r && AllReached(ps, p, before)
    requires before <= k && Handed(ps, k) == FirstFrom(ps, r)
    ensures AllReached(ps, r, k)
  {
    hide Handed, FirstFrom, Entered, Onward;
    forall h | 0 <= h <= r && Entered(ps, h)
      ensures Reached(ps, h, k)
    {
      if p < h {
        NothingBetween(ps, p, h);
      } else {
        assert Reached(ps, h, before);
      }
    }
  }

  /** Every entered block up to the first that wraps is reached, in order. */
  lemma {:induction false} EnteredReached(ps: seq<Prefix>, r: nat) returns (k: nat)
    requires PairwiseDisjoint(ps) && Entered(ps, r) && forall e | 0 <= e < r && Entered(ps, e) :: !Wraps(ps, e)
    ensures Handed(ps, k) == FirstFrom(ps, r) && AllReached(ps, r, k)
    decreases r
  {
    hide Handed, FirstFrom, Wraps, Entered, Onward, AllReached, Size;
    if r == Enter(ps, 0) {
      k := 0;
      ReachedFirst(ps);
    } else {
      var p := Predecessor(ps, r);
      var before := EnteredReached(ps, p);
      Leaves(ps, p, before);
      k := before + Size(ps[p]) - 1;
      ReachedNext(ps, p, r, before, k);
    }
  }

  /** Thrown back behind block q by block x, the walk comes to an entered block again. */
  lemma {:induction false} Rejoins(ps: seq<Prefix>, r: nat, x: nat, q: nat, k: nat) returns (h: nat, k': nat)
    requires PairwiseDisjoint(ps) && Entered(ps, r) && q < x <= r && Size(ps[x]) > 1
    requires Base(ps[q]) == End(ps[x]) && Handed(ps, k) == FirstFrom(ps, q + 1)
    ensures Entered(ps, h) && h <= r && k <= k' && Handed(ps, k') == FirstFrom(ps, h)
    decreases q, |ps| + 1
  {
    hide Handed, FirstFrom, Entered, Pow2, ClearLow, Enter;
    var s := Enter(ps, q + 1);
    FirstFromEnter(ps, q + 1);
    if Entered(ps, s) {
      h, k' := s, k;
    } else {
      PassedOver(ps, s, r);
      assert s == q + 1;
      h, k' := FollowsChain(ps, r, x, q, s, k);
    }
  }

  /** Blocks q to i follow each other directly, up to a block i that the walk passed over. */
  ghost predicate Chain(ps: seq<Prefix>, q: nat, i: nat) {
    && q < i < |ps| && Entered(ps, i - 1) && Size(ps[i]) > 1 && FollowedDirectly(ps, i - 1)
    && forall t | q <= t < i :: Base(ps[t]) < Base(ps[i])
  }

  /** Going on from there the walk comes to an entered block, or to the block after next of the chain. */
  lemma ChainGoesOn(ps: seq<Prefix>, q: nat, i: nat, x: nat)
    requires Chain(ps, q, i) && i <= x < |ps| && Size(ps[x]) > 1 && Base(ps[q]) == End(ps[x])
    ensures i < x && Onward(ps, i) <= x
    ensures Entered(ps, Onward(ps, i)) || (Onward(ps, i) == i + 2 && Chain(ps, q, i + 2))
  {
    hide Entered, Pow2, ClearLow;
    EnteredOnward(ps, i - 1);
    if FollowedDirectly(ps, i) && Size(ps[i + 1]) > 1 {
      EnteredOnward(ps, i + 1);
    }
  }

  /**
    Directly following blocks are entered by turns. A walk on the other ones comes to an entered
    block where the chain from q on ends, which it does before x, or is thrown back behind q.
   */
  lemma {:induction false} FollowsChain(ps: seq<Prefix>, r: nat, x: nat, q: nat, i: nat, k: nat) returns (h: nat, k': nat)
    requires PairwiseDisjoint(ps) && Entered(ps, r) && i <= x <= r && Chain(ps, q, i)
    requires Size(ps[x]) > 1 && Base(ps[q]) == End(ps[x]) && Handed(ps, k) == FirstFrom(ps, i)
    ensures Entered(ps, h) && h <= r && k <= k' && Handed(ps, k') == FirstFrom(ps, h)
    decreases q, |ps| - i
  {
    hide Handed, FirstFrom, Entered, Pow2, ClearLow, Enter, Onward;
    Leaves(ps, i, k);
    ChainGoesOn(ps, q, i, x);
    k' := k + Size(ps[i]) - 1;
    if End(ps[i]) == ADDRESS_COUNT {
      h := Enter(ps, 0);
      FirstEntered(ps);
      FirstFromEnter(ps, 0);
    } else if q' :| 0 <= q' < i && Base(ps[q']) == End(ps[i]) {
      assert q' < q;
      h, k' := Rejoins(ps, r, i, q', k');
    } else {
      h := Onward(ps, i);
      if !Entered(ps, h) {
        h, k' := FollowsChain(ps, r, x, q, i + 2, k');
      }
    }
  }

  /** The first entered block that wraps. */
  lemma {:induction false} FirstWrap(ps: seq<Prefix>, n: nat) returns (r: nat)
    requires n < |ps| && Entered(ps, n) && Wraps(ps, n)
    ensures r <= n && Entered(ps, r) && Wraps(ps, r) && forall e | 0 <= e < r && Entered(ps, e) :: !Wraps(ps, e)
  {
    if e :| 0 <= e < n && Entered(ps, e) && Wraps(ps, e) {
      r := FirstWrap(ps, e);
    } else {
      r := n;
    }
  }

  lemma FirstVisit(ps: seq<Prefix>, r: nat, k: nat, h: nat) returns (j: nat)
    requires AllReached(ps, r, k) && h <= r && Entered(ps, h)
    ensures j <= k && Handed(ps, j) == FirstFrom(ps, h) && FirstFrom(ps, h).V4?
  {
    hide Handed, Entered;
    EndInRange(ps[h]);
    assert Reached(ps, h, k);
    j :| j <= k && Handed(ps, j) == FirstFrom(ps, h);
  }

  lemma {:induction false} WrapHandsOutTwice(ps: seq<Prefix>) returns (j: nat, k: nat)
    requires PairwiseDisjoint(ps) && !NeverWraps(ps)
    ensures j < k && Handed(ps, j) == Handed(ps, k) && Handed(ps, k).V4?
  {
    hide Handed, Entered, AllReached, FirstFrom, Pow2, ClearLow, Enter;
    var n :| 0 <= n < |ps| && Entered(ps, n) && Wraps(ps, n);
    var r := FirstWrap(ps, n);
    var reached := EnteredReached(ps, r);
    Leaves(ps, r, reached);
    var h := Enter(ps, 0);
    k := reached + Size(ps[r]) - 1;
    if End(ps[r]) == ADDRESS_COUNT {
      FirstEntered(ps);
      FirstFromEnter(ps, 0);
    } else {
      var q :| 0 <= q < r && Base(ps[q]) == End(ps[r]);
      h, k := Rejoins(ps, r, r, q, k);
    }
    j := FirstVisit(ps, r, reached, h);
  }
}
