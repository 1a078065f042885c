/** How balance_nonroot deals the cells of neighbouring pages out to new pages
    (btree.c:5139-5185): a greedy pass from the left, then a pass from the right
    that evens the pages out. */
module Packing {
  import opened CellFormat

  /** The sibling pages taken at most, and the room for new ones. */
  const NB: nat := 3
  const MAX_NEW: nat := NB + 2

  /** What the cells [a, b) take on a page, two bytes of cell pointer included. */
  function Sum(sz: seq<nat>, a: nat, b: nat): (s: nat)
    requires a <= b <= |sz|
  {
    if a == b then 0 else Sum(sz, a, b - 1) + sz[b - 1] + 2
  }

  /** cnt[p] is the first cell to the right of page p; unless the leaves hold all
      data, that cell is a divider and belongs to no page. */
  function Start(cnt: seq<nat>, p: nat, leafData: bool): nat
    requires p <= |cnt|
  {
    if p == 0 then 0 else cnt[p - 1] + (if leafData then 0 else 1)
  }

  /** Page p gets a run of the cells. */
  predicate RunAt(cnt: seq<nat>, n: nat, leafData: bool, p: nat)
    requires p < |cnt|
  {
    Start(cnt, p, leafData) <= cnt[p] <= n
  }

  /** The pages get runs that follow one another up to the last cell. */
  predicate Cuts(cnt: seq<nat>, n: nat, leafData: bool) {
    cnt != [] && cnt[|cnt| - 1] == n && forall p: nat | p < |cnt| :: RunAt(cnt, n, leafData, p)
  }

  function PageSum(sz: seq<nat>, cnt: seq<nat>, leafData: bool, p: nat): nat
    requires p < |cnt| && RunAt(cnt, |sz|, leafData, p)
  {
    Sum(sz, Start(cnt, p, leafData), cnt[p])
  }

  /** Every page fits into the space u. */
  ghost predicate Packed(sz: seq<nat>, cnt: seq<nat>, u: nat, leafData: bool) {
    && Cuts(cnt, |sz|, leafData)
    && forall p: nat | p < |cnt| :: RunAt(cnt, |sz|, leafData, p) && PageSum(sz, cnt, leafData, p) <= u
  }

  /** Page p, not the last, has no room for the cell that follows. */
  predicate FullAt(sz: seq<nat>, cnt: seq<nat>, u: nat, leafData: bool, p: nat)
    requires p < |cnt|
  {
    RunAt(cnt, |sz|, leafData, p) && cnt[p] < |sz| && PageSum(sz, cnt, leafData, p) + sz[cnt[p]] + 2 > u
  }

  /** Each of the first m pages fits and is full. */
  ghost predicate Filled(sz: seq<nat>, cnt: seq<nat>, u: nat, leafData: bool, m: nat) {
    m <= |cnt| && forall p: nat | p < m :: FullAt(sz, cnt, u, leafData, p) && PageSum(sz, cnt, leafData, p) <= u
  }

  ghost predicate Greedy(sz: seq<nat>, cnt: seq<nat>, u: nat, leafData: bool) {
    Packed(sz, cnt, u, leafData) && Filled(sz, cnt, u, leafData, |cnt| - 1)
  }

  /** The size limits the file format puts on cells: a cell fits on a page, and
      where cells are dividers two of them do. */
  predicate Limited(sz: seq<nat>, u: nat, leafData: bool) {
    forall j | 0 <= j < |sz| :: if leafData then sz[j] + 2 <= u else 2 * (sz[j] + 2) <= u
  }

  // ---------------------------------------------------------------------
  // Sums
  // ---------------------------------------------------------------------

  lemma {:induction false} SumSplit(sz: seq<nat>, a: nat, m: nat, b: nat)
    requires a <= m <= b <= |sz|
    ensures Sum(sz, a, b) == Sum(sz, a, m) + Sum(sz, m, b)
  {
    if m < b { SumSplit(sz, a, m, b - 1); }
  }

  lemma SumFirst(sz: seq<nat>, a: nat, b: nat)
    requires a < b <= |sz|
    ensures Sum(sz, a, b) == sz[a] + 2 + Sum(sz, a + 1, b)
  {
    SumSplit(sz, a, a + 1, b);
    assert Sum(sz, a, a + 1) == Sum(sz, a, a) + sz[a] + 2;
  }

  // ---------------------------------------------------------------------
  // Greedy packing is minimal
  // ---------------------------------------------------------------------

  /** Greedy packing gets at least as far on every page as any other packing. */
  lemma {:induction false} StaysAhead(sz: seq<nat>, u: nat, leafData: bool, cnt: seq<nat>, m: nat, other: seq<nat>, p: nat)
    requires Filled(sz, cnt, u, leafData, m) && Packed(sz, other, u, leafData)
    requires p < m && p < |other|
    ensures other[p] <= cnt[p]
  {
    if p > 0 { StaysAhead(sz, u, leafData, cnt, m, other, p - 1); }
    assert FullAt(sz, cnt, u, leafData, p) && RunAt(other, |sz|, leafData, p);
    if other[p] > cnt[p] {
      var a, b := Start(other, p, leafData), Start(cnt, p, leafData);
      SumSplit(sz, a, b, other[p]);
      SumSplit(sz, b, cnt[p], other[p]);
      SumFirst(sz, cnt[p], other[p]);
      assert false;
    }
  }

  /** While a cell is left over, any packing has a further page. */
  lemma RoomForMore(sz: seq<nat>, u: nat, leafData: bool, cnt: seq<nat>, m: nat, other: seq<nat>)
    requires Filled(sz, cnt, u, leafData, m) && Packed(sz, other, u, leafData)
    ensures m < |other|
  {
    if m >= |other| {
      assert FullAt(sz, cnt, u, leafData, |other| - 1);
      StaysAhead(sz, u, leafData, cnt, m, other, |other| - 1);
    }
  }

  /** No contiguous packing of the cells uses fewer pages than the greedy one. */
  lemma GreedyMinimal(sz: seq<nat>, u: nat, leafData: bool, cnt: seq<nat>, other: seq<nat>)
    requires Greedy(sz, cnt, u, leafData) && Packed(sz, other, u, leafData)
    ensures |cnt| <= |other|
  {
    RoomForMore(sz, u, leafData, cnt, |cnt| - 1, other);
  }

  // ---------------------------------------------------------------------
  // The pass from the left
  // ---------------------------------------------------------------------

  /** szNew counts two bytes too many for every page but the last. */
  ghost predicate Sized(sz: seq<nat>, cnt: seq<nat>, leafData: bool, szNew: seq<nat>, m: nat) {
    && m <= |cnt| && m <= |szNew|
    && forall p: nat | p < m :: RunAt(cnt, |sz|, leafData, p) && szNew[p] == PageSum(sz, cnt, leafData, p) + 2
  }

  /** One more full page. */
  lemma FillPage(sz: seq<nat>, u: nat, leafData: bool, cnt: seq<nat>, szNew: seq<nat>, i: nat)
    requires Filled(sz, cnt, u, leafData, |cnt|) && Sized(sz, cnt, leafData, szNew, |cnt|) && |szNew| == |cnt|
    requires Start(cnt, |cnt|, leafData) <= i < |sz|
    requires var s := Sum(sz, Start(cnt, |cnt|, leafData), i); s <= u < s + sz[i] + 2
    ensures var next, s := cnt + [i], Sum(sz, Start(cnt, |cnt|, leafData), i);
      Filled(sz, next, u, leafData, |next|) && Sized(sz, next, leafData, szNew + [s + 2], |next|)
  {
    var next, s := cnt + [i], Sum(sz, Start(cnt, |cnt|, leafData), i);
    forall p: nat | p < |next|
      ensures FullAt(sz, next, u, leafData, p) && PageSum(sz, next, leafData, p) <= u
      ensures RunAt(next, |sz|, leafData, p) && (szNew + [s + 2])[p] == PageSum(sz, next, leafData, p) + 2
    {
      if p < |cnt| { assert FullAt(sz, cnt, u, leafData, p) && RunAt(cnt, |sz|, leafData, p); }
    }
  }

  /** The last page takes the rest. */
  lemma LastPage(sz: seq<nat>, u: nat, leafData: bool, cnt: seq<nat>, szNew: seq<nat>)
    requires Filled(sz, cnt, u, leafData, |cnt|) && Sized(sz, cnt, leafData, szNew, |cnt|) && |szNew| == |cnt|
    requires Start(cnt, |cnt|, leafData) <= |sz| && Sum(sz, Start(cnt, |cnt|, leafData), |sz|) <= u
    ensures var next, s := cnt + [|sz|], Sum(sz, Start(cnt, |cnt|, leafData), |sz|);
      && Greedy(sz, next, u, leafData) && Sized(sz, next, leafData, szNew + [s], |cnt|)
      && PageSum(sz, next, leafData, |cnt|) == s
  {
    var next, s := cnt + [|sz|], Sum(sz, Start(cnt, |cnt|, leafData), |sz|);
    forall p: nat | p < |next|
      ensures RunAt(next, |sz|, leafData, p) && PageSum(sz, next, leafData, p) <= u
      ensures p < |cnt| ==> FullAt(sz, next, u, leafData, p) && (szNew + [s])[p] == PageSum(sz, next, leafData, p) + 2
    {
      if p < |cnt| { assert FullAt(sz, cnt, u, leafData, p) && RunAt(cnt, |sz|, leafData, p); }
    }
  }

  /** The first loop.  The arrays have room for MAX_NEW pages; other is any
      packing that needs no more. */
  method PackLeft(szCell: seq<nat>, u: nat, leafData: bool, szNew: array<nat>, cntNew: array<nat>, ghost other: seq<nat>)
    returns (k: nat)
    requires Limited(szCell, u, leafData) && szNew != cntNew && szNew.Length == cntNew.Length == MAX_NEW
    requires Packed(szCell, other, u, leafData) && |other| <= MAX_NEW
    modifies szNew, cntNew
    ensures 1 <= k <= |other| && Greedy(szCell, cntNew[..k], u, leafData)
    ensures Sized(szCell, cntNew[..k], leafData, szNew[..k], k - 1)
    ensures szNew[k - 1] == PageSum(szCell, cntNew[..k], leafData, k - 1)
  {
    k := 0;
    var i, subtotal := 0, 0;
    ghost var cnt: seq<nat>, sizes: seq<nat> := [], [];
    RoomForMore(szCell, u, leafData, cnt, 0, other);
    while i < |szCell|
      invariant k < |other| && cntNew[..k] == cnt && szNew[..k] == sizes
      invariant Filled(szCell, cnt, u, leafData, k) && Sized(szCell, cnt, leafData, sizes, k)
      invariant Start(cnt, k, leafData) <= i <= |szCell|
      invariant subtotal == Sum(szCell, Start(cnt, k, leafData), i) <= u
      decreases |szCell| - i, subtotal
    {
      subtotal := subtotal + szCell[i] + 2;
      if subtotal > u {
        FillPage(szCell, u, leafData, cnt, sizes, i);
        szNew[k] := subtotal - szCell[i];
        cntNew[k] := i;
        cnt, sizes := cnt + [i], sizes + [subtotal - szCell[i]];
        subtotal := 0;
        k := k + 1;
        RoomForMore(szCell, u, leafData, cnt, k, other);
        if !leafData { i := i + 1; }
      } else {
        i := i + 1;
      }
    }
    LastPage(szCell, u, leafData, cnt, sizes);
    szNew[k] := subtotal;
    cntNew[k] := |szCell|;
    k := k + 1;
    assert cntNew[..k] == cnt + [|szCell|] && szNew[..k] == sizes + [subtotal];
  }

  // ---------------------------------------------------------------------
  // The pass from the right
  // ---------------------------------------------------------------------

  predicate NonEmpty(cnt: seq<nat>, leafData: bool, p: nat)
    requires p < |cnt|
  {
    Start(cnt, p, leafData) < cnt[p]
  }

  /** The cuts after page i - 1 has given up its last cell. */
  function Shifted(cnt: seq<nat>, i: nat): (r: seq<nat>)
    requires 0 < i < |cnt| && cnt[i - 1] > 0
    ensures |r| == |cnt|
  {
    cnt[i - 1 := cnt[i - 1] - 1]
  }

  /** The cell that page i gets: the divider, or the one page i - 1 gives up. */
  function Given(cnt: seq<nat>, i: nat, leafData: bool): nat
    requires 0 < i < |cnt| && cnt[i - 1] > 0
  {
    cnt[i - 1] - (if leafData then 1 else 0)
  }

  /** Page p has the same cells under both cuts. */
  ghost predicate SamePage(sz: seq<nat>, cnt: seq<nat>, next: seq<nat>, leafData: bool, p: nat)
    requires p < |cnt| == |next|
  {
    && RunAt(cnt, |sz|, leafData, p) && RunAt(next, |sz|, leafData, p) && next[p] == cnt[p]
    && Start(next, p, leafData) == Start(cnt, p, leafData)
  }

  lemma ShiftKeeps(sz: seq<nat>, cnt: seq<nat>, u: nat, leafData: bool, i: nat, p: nat)
    requires Packed(sz, cnt, u, leafData) && 0 < i < |cnt| && NonEmpty(cnt, leafData, i - 1) && p < |cnt|
    requires p != i && p != i - 1
    ensures SamePage(sz, cnt, Shifted(cnt, i), leafData, p)
  {
    assert RunAt(cnt, |sz|, leafData, p);
  }

  /** Page i gets one cell and page i - 1 loses one. */
  lemma ShiftMoves(sz: seq<nat>, cnt: seq<nat>, u: nat, leafData: bool, i: nat)
    requires Packed(sz, cnt, u, leafData) && 0 < i < |cnt| && NonEmpty(cnt, leafData, i - 1)
    ensures var next, d := Shifted(cnt, i), Given(cnt, i, leafData);
      && d < |sz| && cnt[i - 1] <= |sz|
      && RunAt(next, |sz|, leafData, i) && RunAt(next, |sz|, leafData, i - 1)
      && RunAt(cnt, |sz|, leafData, i) && RunAt(cnt, |sz|, leafData, i - 1)
      && NonEmpty(next, leafData, i)
      && PageSum(sz, next, leafData, i) == PageSum(sz, cnt, leafData, i) + sz[d] + 2
      && PageSum(sz, next, leafData, i - 1) + sz[cnt[i - 1] - 1] + 2 == PageSum(sz, cnt, leafData, i - 1)
  {
    var next := Shifted(cnt, i);
    assert RunAt(cnt, |sz|, leafData, i) && RunAt(cnt, |sz|, leafData, i - 1);
    SumFirst(sz, Start(next, i, leafData), cnt[i]);
  }

  /** Page p's entry of szNew: two too many unless p is the last. */
  ghost predicate SizeAt(sz: seq<nat>, cnt: seq<nat>, leafData: bool, p: nat, size: int)
    requires p < |cnt|
  {
    RunAt(cnt, |sz|, leafData, p) && size == PageSum(sz, cnt, leafData, p) + (if p + 1 < |cnt| then 2 else 0)
  }

  /** What holds while pages i - 1 and i are evened out: pages further left are
      as the first loop left them, pages further right are done. */
  ghost predicate Evening(sz: seq<nat>, cnt: seq<nat>, u: nat, leafData: bool, i: nat, szNew: seq<nat>, szLeft: int, szRight: int) {
    && Packed(sz, cnt, u, leafData) && |szNew| == |cnt| && 0 < i < |cnt|
    && Filled(sz, cnt, u, leafData, i - 1)
    && NonEmpty(cnt, leafData, i - 1) && (forall p: nat | i < p < |cnt| :: NonEmpty(cnt, leafData, p))
    && (i + 1 < |cnt| ==> NonEmpty(cnt, leafData, i))
    && (forall p: nat | p < |cnt| && p != i && p != i - 1 :: SizeAt(sz, cnt, leafData, p, szNew[p]))
    && SizeAt(sz, cnt, leafData, i - 1, szLeft) && SizeAt(sz, cnt, leafData, i, szRight)
    && (szRight == 0 ==> i + 1 == |cnt| && FullAt(sz, cnt, u, leafData, i - 1))
  }

  /** The guard of the inner loop. */
  predicate Moves(sz: seq<nat>, cnt: seq<nat>, leafData: bool, i: nat, szLeft: int, szRight: int)
    requires 0 < i < |cnt| && 0 < cnt[i - 1] <= |sz| && Given(cnt, i, leafData) < |sz|
  {
    szRight == 0 || szRight + sz[Given(cnt, i, leafData)] + 2 <= szLeft - (sz[cnt[i - 1] - 1] + 2)
  }

  /** A move leaves both pages within bounds and the left one with a cell. */
  lemma MoveFits(sz: seq<nat>, cnt: seq<nat>, u: nat, leafData: bool, i: nat, szNew: seq<nat>, szLeft: int, szRight: int)
    requires Evening(sz, cnt, u, leafData, i, szNew, szLeft, szRight) && Limited(sz, u, leafData)
    requires 0 < cnt[i - 1] <= |sz| && Given(cnt, i, leafData) < |sz| && Moves(sz, cnt, leafData, i, szLeft, szRight)
    ensures var next := Shifted(cnt, i);
      && RunAt(next, |sz|, leafData, i) && PageSum(sz, next, leafData, i) <= u
      && RunAt(next, |sz|, leafData, i - 1) && PageSum(sz, next, leafData, i - 1) <= u && NonEmpty(next, leafData, i - 1)
      && NonEmpty(next, leafData, i) && PageSum(sz, next, leafData, i) > 0
      && SizeAt(sz, next, leafData, i, szRight + sz[Given(cnt, i, leafData)] + 2)
      && SizeAt(sz, next, leafData, i - 1, szLeft - (sz[cnt[i - 1] - 1] + 2))
  {
    var next, d, r := Shifted(cnt, i), Given(cnt, i, leafData), cnt[i - 1] - 1;
    ShiftMoves(sz, cnt, u, leafData, i);
    assert PageSum(sz, cnt, leafData, i - 1) <= u;
    assert PageSum(sz, next, leafData, i - 1) > 0 by {
      if szRight == 0 {
        assert !leafData;
        assert 2 * (sz[d] + 2) <= u && 2 * (sz[r] + 2) <= u;
      }
    }
  }

  lemma MoveKeeps(sz: seq<nat>, cnt: seq<nat>, u: nat, leafData: bool, i: nat, szNew: seq<nat>, szLeft: int, szRight: int)
    requires Evening(sz, cnt, u, leafData, i, szNew, szLeft, szRight) && Limited(sz, u, leafData)
    requires 0 < cnt[i - 1] <= |sz| && Given(cnt, i, leafData) < |sz| && Moves(sz, cnt, leafData, i, szLeft, szRight)
    ensures Evening(sz, Shifted(cnt, i), u, leafData, i, szNew,
                    szLeft - (sz[cnt[i - 1] - 1] + 2), szRight + sz[Given(cnt, i, leafData)] + 2)
  {
    var next := Shifted(cnt, i);
    MoveFits(sz, cnt, u, leafData, i, szNew, szLeft, szRight);
    forall p: nat | p < |cnt|
      ensures RunAt(next, |sz|, leafData, p) && PageSum(sz, next, leafData, p) <= u
      ensures p < i - 1 ==> FullAt(sz, next, u, leafData, p)
      ensures i < p ==> NonEmpty(next, leafData, p)
      ensures p != i && p != i - 1 ==> SizeAt(sz, next, leafData, p, szNew[p])
    {
      if p != i && p != i - 1 {
        ShiftKeeps(sz, cnt, u, leafData, i, p);
        assert PageSum(sz, cnt, leafData, p) <= u;
        if p < i - 1 { assert FullAt(sz, cnt, u, leafData, p); }
        if i < p { assert NonEmpty(cnt, leafData, p); }
        assert SizeAt(sz, cnt, leafData, p, szNew[p]);
      }
    }
  }

  /** What holds before pages i - 1 and i are evened out. */
  ghost predicate Halfway(sz: seq<nat>, cnt: seq<nat>, u: nat, leafData: bool, i: nat, szNew: seq<nat>) {
    && Packed(sz, cnt, u, leafData) && |szNew| == |cnt| && i < |cnt|
    && Filled(sz, cnt, u, leafData, i) && (forall p: nat | i < p < |cnt| :: NonEmpty(cnt, leafData, p))
    && (i + 1 < |cnt| ==> NonEmpty(cnt, leafData, i))
    && (forall p: nat | p < |cnt| :: SizeAt(sz, cnt, leafData, p, szNew[p]))
  }

  lemma BeginPair(sz: seq<nat>, cnt: seq<nat>, u: nat, leafData: bool, i: nat, szNew: seq<nat>)
    requires Halfway(sz, cnt, u, leafData, i, szNew) && 0 < i && Limited(sz, u, leafData)
    ensures Evening(sz, cnt, u, leafData, i, szNew, szNew[i - 1], szNew[i])
  {
    assert FullAt(sz, cnt, u, leafData, i - 1);
    assert SizeAt(sz, cnt, leafData, i, szNew[i]) && SizeAt(sz, cnt, leafData, i - 1, szNew[i - 1]);
    assert Limited(sz, u, leafData) ==> sz[cnt[i - 1]] + 2 <= u;
  }

  function PairSet(s: seq<nat>, i: nat, left: nat, right: nat): (r: seq<nat>)
    requires 0 < i < |s|
  {
    s[i := right][i - 1 := left]
  }

  lemma EndPair(sz: seq<nat>, cnt: seq<nat>, u: nat, leafData: bool, i: nat, szNew: seq<nat>, szLeft: nat, szRight: nat)
    requires Evening(sz, cnt, u, leafData, i, szNew, szLeft, szRight) && szRight > 0
    ensures Halfway(sz, cnt, u, leafData, i - 1, PairSet(szNew, i, szLeft, szRight))
  {
    assert NonEmpty(cnt, leafData, i);
  }

  /** Would the inner loop move a cell from a left page [a, c) to a right page
      that ends at b? */
  predicate MovesAt(sz: seq<nat>, a: nat, c: nat, b: nat, leafData: bool, last: bool) {
    var one := if leafData then 0 else 1;
    && a < c && c + one <= b <= |sz| && c - 1 + one < |sz|
    && var right: int := Sum(sz, c + one, b) + (if last then 0 else 2);
       right == 0 || right + sz[c - 1 + one] + 2 <= Sum(sz, a, c) + 2 - (sz[c - 1] + 2)
  }

  /** The cut before page i came down from where the first loop put it, past
      every cut at which a cell moves, to the first at which none does. */
  ghost predicate EvenedAt(sz: seq<nat>, first: seq<nat>, cnt: seq<nat>, leafData: bool, i: nat)
    requires |first| == |cnt| && 0 < i < |cnt|
  {
    var a, b, last := Start(first, i - 1, leafData), cnt[i], i + 1 == |cnt|;
    && a < cnt[i - 1] <= first[i - 1] && !MovesAt(sz, a, cnt[i - 1], b, leafData, last)
    && forall c: nat | cnt[i - 1] < c <= first[i - 1] :: MovesAt(sz, a, c, b, leafData, last)
  }

  lemma MovesIs(sz: seq<nat>, cnt: seq<nat>, u: nat, leafData: bool, i: nat, szNew: seq<nat>, szLeft: int, szRight: int)
    requires Evening(sz, cnt, u, leafData, i, szNew, szLeft, szRight)
    ensures 0 < cnt[i - 1] <= |sz| && Given(cnt, i, leafData) < |sz|
    ensures Moves(sz, cnt, leafData, i, szLeft, szRight)
            <==> MovesAt(sz, Start(cnt, i - 1, leafData), cnt[i - 1], cnt[i], leafData, i + 1 == |cnt|)
  {
    ShiftMoves(sz, cnt, u, leafData, i);
  }

  /** Pages left of i are as the first loop left them, and pages right of i have
      come to rest. */
  ghost predicate Progress(sz: seq<nat>, first: seq<nat>, cnt: seq<nat>, leafData: bool, i: nat) {
    && |first| == |cnt| && i < |cnt| && (forall p: nat | p < i :: cnt[p] == first[p])
    && forall p: nat | i < p < |cnt| :: EvenedAt(sz, first, cnt, leafData, p)
  }

  /** From where the first loop put it the cut before page i has come down past
      cuts at which a cell moves. */
  ghost predicate CameDown(sz: seq<nat>, first: seq<nat>, cnt: seq<nat>, leafData: bool, i: nat)
    requires |first| == |cnt| && 0 < i < |cnt|
  {
    var a, b, last := Start(first, i - 1, leafData), cnt[i], i + 1 == |cnt|;
    && a == Start(cnt, i - 1, leafData) && cnt[i - 1] <= first[i - 1]
    && forall c: nat | cnt[i - 1] < c <= first[i - 1] :: MovesAt(sz, a, c, b, leafData, last)
  }

  /** The invariant of the inner loop; was is where it began. */
  ghost predicate Inner(sz: seq<nat>, first: seq<nat>, was: seq<nat>, cnt: seq<nat>, u: nat, leafData: bool, i: nat,
                        szNew: seq<nat>, szLeft: int, szRight: int) {
    && Evening(sz, cnt, u, leafData, i, szNew, szLeft, szRight)
    && |was| == |first| == |cnt| && cnt == was[i - 1 := cnt[i - 1]]
    && CameDown(sz, first, cnt, leafData, i)
    && 0 < cnt[i - 1] <= |sz| && Given(cnt, i, leafData) < |sz|
  }

  lemma InnerBegin(sz: seq<nat>, first: seq<nat>, cnt: seq<nat>, u: nat, leafData: bool, i: nat, szNew: seq<nat>)
    requires Halfway(sz, cnt, u, leafData, i, szNew) && 0 < i && Limited(sz, u, leafData)
    requires Progress(sz, first, cnt, leafData, i)
    ensures Inner(sz, first, cnt, cnt, u, leafData, i, szNew, szNew[i - 1], szNew[i])
  {
    BeginPair(sz, cnt, u, leafData, i, szNew);
    MovesIs(sz, cnt, u, leafData, i, szNew, szNew[i - 1], szNew[i]);
  }

  lemma InnerStep(sz: seq<nat>, first: seq<nat>, was: seq<nat>, cnt: seq<nat>, u: nat, leafData: bool, i: nat,
                  szNew: seq<nat>, szLeft: int, szRight: int)
    requires Inner(sz, first, was, cnt, u, leafData, i, szNew, szLeft, szRight) && Limited(sz, u, leafData)
    requires Moves(sz, cnt, leafData, i, szLeft, szRight)
    ensures Inner(sz, first, was, Shifted(cnt, i), u, leafData, i, szNew,
                  szLeft - (sz[cnt[i - 1] - 1] + 2), szRight + sz[Given(cnt, i, leafData)] + 2)
  {
    MovesIs(sz, cnt, u, leafData, i, szNew, szLeft, szRight);
    MoveKeeps(sz, cnt, u, leafData, i, szNew, szLeft, szRight);
    MovesIs(sz, Shifted(cnt, i), u, leafData, i, szNew,
            szLeft - (sz[cnt[i - 1] - 1] + 2), szRight + sz[Given(cnt, i, leafData)] + 2);
  }

  lemma InnerEnd(sz: seq<nat>, first: seq<nat>, was: seq<nat>, cnt: seq<nat>, u: nat, leafData: bool, i: nat,
                 szNew: seq<nat>, szLeft: int, szRight: int)
    requires Inner(sz, first, was, cnt, u, leafData, i, szNew, szLeft, szRight)
    requires !Moves(sz, cnt, leafData, i, szLeft, szRight) && Progress(sz, first, was, leafData, i)
    ensures szLeft >= 0 && szRight > 0
    ensures Halfway(sz, cnt, u, leafData, i - 1, PairSet(szNew, i, szLeft, szRight))
    ensures Progress(sz, first, cnt, leafData, i - 1)
  {
    MovesIs(sz, cnt, u, leafData, i, szNew, szLeft, szRight);
    EndPair(sz, cnt, u, leafData, i, szNew, szLeft, szRight);
    forall p: nat | i - 1 < p < |cnt| ensures EvenedAt(sz, first, cnt, leafData, p) {
      if p > i { assert EvenedAt(sz, first, was, leafData, p); }
    }
  }

  /** The inner loop: move cells from page i - 1 to page i as long as that evens
      them out. */
  method MoveCells(szCell: seq<nat>, u: nat, leafData: bool, cntNew: array<nat>, k: nat, i: nat, left: nat, right: nat,
                   ghost first: seq<nat>, ghost szNew: seq<nat>)
    returns (szLeft: int, szRight: int)
    requires Limited(szCell, u, leafData) && 0 < i < k <= cntNew.Length
    requires Inner(szCell, first, cntNew[..k], cntNew[..k], u, leafData, i, szNew, left, right)
    modifies cntNew
    ensures Inner(szCell, first, old(cntNew[..k]), cntNew[..k], u, leafData, i, szNew, szLeft, szRight)
    ensures !Moves(szCell, cntNew[..k], leafData, i, szLeft, szRight)
  {
    szLeft, szRight := left, right;
    var one := if leafData then 1 else 0;
    var r := cntNew[i - 1] - 1;
    var d := r + 1 - one;
    while szRight == 0 || szRight + szCell[d] + 2 <= szLeft - (szCell[r] + 2)
      invariant Inner(szCell, first, old(cntNew[..k]), cntNew[..k], u, leafData, i, szNew, szLeft, szRight)
      invariant r == cntNew[i - 1] - 1 && d == r + 1 - one
      decreases r
    {
      InnerStep(szCell, first, old(cntNew[..k]), cntNew[..k], u, leafData, i, szNew, szLeft, szRight);
      szRight := szRight + szCell[d] + 2;
      szLeft := szLeft - (szCell[r] + 2);
      ghost var next := Shifted(cntNew[..k], i);
      cntNew[i - 1] := cntNew[i - 1] - 1;
      assert cntNew[..k] == next;
      r := cntNew[i - 1] - 1;
      d := r + 1 - one;
    }
  }

  /** The second loop for one pair of pages. */
  method EvenPair(szCell: seq<nat>, u: nat, leafData: bool, szNew: array<nat>, cntNew: array<nat>, k: nat, i: nat, ghost first: seq<nat>)
    requires Limited(szCell, u, leafData) && szNew != cntNew && szNew.Length == cntNew.Length == MAX_NEW
    requires 0 < i < k <= MAX_NEW && Halfway(szCell, cntNew[..k], u, leafData, i, szNew[..k])
    requires Progress(szCell, first, cntNew[..k], leafData, i)
    modifies szNew, cntNew
    ensures Halfway(szCell, cntNew[..k], u, leafData, i - 1, szNew[..k])
    ensures Progress(szCell, first, cntNew[..k], leafData, i - 1)
  {
    ghost var was, sizes := cntNew[..k], szNew[..k];
    InnerBegin(szCell, first, was, u, leafData, i, sizes);
    var szLeft, szRight := MoveCells(szCell, u, leafData, cntNew, k, i, szNew[i - 1], szNew[i], first, sizes);
    InnerEnd(szCell, first, was, cntNew[..k], u, leafData, i, sizes, szLeft, szRight);
    szNew[i] := szRight;
    szNew[i - 1] := szLeft;
    assert szNew[..k] == PairSet(sizes, i, szLeft, szRight);
  }

  /** Both loops.  The packing uses no more pages than any other, every page fits
      and, unless there is no cell at all, holds a cell; first is the packing of
      the first loop, and every cut after it stands where evening out stops. */
  method Pack(szCell: seq<nat>, u: nat, leafData: bool, szNew: array<nat>, cntNew: array<nat>, ghost other: seq<nat>)
    returns (k: nat, ghost first: seq<nat>)
    requires Limited(szCell, u, leafData) && szNew != cntNew && szNew.Length == cntNew.Length == MAX_NEW
    requires Packed(szCell, other, u, leafData) && |other| <= MAX_NEW
    modifies szNew, cntNew
    ensures 1 <= k <= |other| && Packed(szCell, cntNew[..k], u, leafData)
    ensures forall p: nat | p < k && szCell != [] :: NonEmpty(cntNew[..k], leafData, p)
    ensures forall p: nat | p < k :: SizeAt(szCell, cntNew[..k], leafData, p, szNew[p])
    ensures |first| == k && Greedy(szCell, first, u, leafData)
    ensures forall i: nat | 0 < i < k :: EvenedAt(szCell, first, cntNew[..k], leafData, i)
  {
    k := PackLeft(szCell, u, leafData, szNew, cntNew, other);
    first := cntNew[..k];
    GreedyHalfway(szCell, first, u, leafData, szNew[..k]);
    var i := k - 1;
    while i > 0
      invariant i < k && Halfway(szCell, cntNew[..k], u, leafData, i, szNew[..k])
      invariant Progress(szCell, first, cntNew[..k], leafData, i)
    {
      EvenPair(szCell, u, leafData, szNew, cntNew, k, i, first);
      i := i - 1;
    }
    Finished(szCell, cntNew[..k], u, leafData, szNew[..k]);
  }

  /** What both loops make of the packing of the first one. */
  ghost predicate EvenedFrom(sz: seq<nat>, first: seq<nat>, cnt: seq<nat>, u: nat, leafData: bool) {
    && |first| == |cnt| && Greedy(sz, first, u, leafData)
    && forall i: nat | 0 < i < |cnt| :: EvenedAt(sz, first, cnt, leafData, i)
  }

  /** The cuts that both loops make. */
  ghost predicate EvenedOut(sz: seq<nat>, cnt: seq<nat>, u: nat, leafData: bool) {
    exists first: seq<nat> :: EvenedFrom(sz, first, cnt, u, leafData)
  }

  /** They need no more pages than any other packing. */
  lemma EvenedMinimal(sz: seq<nat>, u: nat, leafData: bool, cnt: seq<nat>, other: seq<nat>)
    requires EvenedOut(sz, cnt, u, leafData) && Packed(sz, other, u, leafData)
    ensures |cnt| <= |other|
  {
    var first: seq<nat> :| EvenedFrom(sz, first, cnt, u, leafData);
    GreedyMinimal(sz, u, leafData, first, other);
  }

  lemma Finished(sz: seq<nat>, cnt: seq<nat>, u: nat, leafData: bool, szNew: seq<nat>)
    requires Halfway(sz, cnt, u, leafData, 0, szNew)
    ensures Packed(sz, cnt, u, leafData)
    ensures forall p: nat | p < |cnt| && sz != [] :: NonEmpty(cnt, leafData, p)
    ensures forall p: nat | p < |cnt| :: SizeAt(sz, cnt, leafData, p, szNew[p])
  {
  }

  lemma GreedyHalfway(sz: seq<nat>, cnt: seq<nat>, u: nat, leafData: bool, szNew: seq<nat>)
    requires Greedy(sz, cnt, u, leafData) && |szNew| == |cnt| && Sized(sz, cnt, leafData, szNew, |cnt| - 1)
    requires szNew[|cnt| - 1] == PageSum(sz, cnt, leafData, |cnt| - 1)
    ensures Halfway(sz, cnt, u, leafData, |cnt| - 1, szNew)
  {
    forall p: nat | p < |cnt| ensures SizeAt(sz, cnt, leafData, p, szNew[p]) {
      assert RunAt(cnt, |sz|, leafData, p);
    }
  }

  // ---------------------------------------------------------------------
  // Why MAX_NEW pages are enough
  // ---------------------------------------------------------------------

  /** The old pages of the cells: every page fits but page q, which does once its
      overflow cell x is taken away. */
  ghost predicate OneOverflow(sz: seq<nat>, held: seq<nat>, u: nat, leafData: bool, q: nat, x: nat) {
    && Cuts(held, |sz|, leafData) && q < |held| && RunAt(held, |sz|, leafData, q)
    && (forall p: nat | p < |held| && p != q :: RunAt(held, |sz|, leafData, p) && PageSum(sz, held, leafData, p) <= u)
    && Start(held, q, leafData) <= x < held[q] && sz[x] + 2 <= u
    && PageSum(sz, held, leafData, q) - (sz[x] + 2) <= u
  }

  /** Split page q at the overflow cell: it becomes a divider, or a page of its
      own where the leaves hold all data. */
  function SplitAt(held: seq<nat>, q: nat, x: nat, leafData: bool): (r: seq<nat>)
    requires q < |held|
    ensures |r| == |held| + (if leafData then 2 else 1)
  {
    held[..q] + (if leafData then [x, x + 1] else [x]) + held[q..]
  }

  lemma SplitPacked(sz: seq<nat>, held: seq<nat>, u: nat, leafData: bool, q: nat, x: nat)
    requires OneOverflow(sz, held, u, leafData, q, x)
    ensures Packed(sz, SplitAt(held, q, x, leafData), u, leafData)
  {
    var r, a, b := SplitAt(held, q, x, leafData), Start(held, q, leafData), held[q];
    var w := if leafData then 2 else 1;
    SumSplit(sz, a, x, b);
    SumFirst(sz, x, b);
    assert r[|r| - 1] == |sz|;
    forall p: nat | p < |r| ensures RunAt(r, |sz|, leafData, p) && PageSum(sz, r, leafData, p) <= u {
      if p < q {
        assert RunAt(held, |sz|, leafData, p) && PageSum(sz, held, leafData, p) <= u;
      } else if p > q + w {
        assert RunAt(held, |sz|, leafData, p - w) && PageSum(sz, held, leafData, p - w) <= u;
      } else if leafData && p == q + 1 {
        SumFirst(sz, x, x + 1);
      }
    }
  }

  /** Up to NB siblings of which one cell overflows: both loops stay within the
      arrays of MAX_NEW entries. */
  method PackSiblings(szCell: seq<nat>, u: nat, leafData: bool, szNew: array<nat>, cntNew: array<nat>,
                      ghost siblings: seq<nat>, ghost q: nat, ghost x: nat)
    returns (k: nat)
    requires Limited(szCell, u, leafData) && szNew != cntNew && szNew.Length == cntNew.Length == MAX_NEW
    requires |siblings| <= NB && (Packed(szCell, siblings, u, leafData) || OneOverflow(szCell, siblings, u, leafData, q, x))
    modifies szNew, cntNew
    ensures 1 <= k <= MAX_NEW && Packed(szCell, cntNew[..k], u, leafData)
    ensures Packed(szCell, siblings, u, leafData) ==> k <= |siblings|
    ensures forall p: nat | p < k && szCell != [] :: NonEmpty(cntNew[..k], leafData, p)
    ensures forall p: nat | p < k :: SizeAt(szCell, cntNew[..k], leafData, p, szNew[p])
  {
    ghost var other := siblings;
    if !Packed(szCell, siblings, u, leafData) {
      SplitPacked(szCell, siblings, u, leafData, q, x);
      other := SplitAt(siblings, q, x, leafData);
    }
    ghost var first;
    k, first := Pack(szCell, u, leafData, szNew, cntNew, other);
  }

  // ---------------------------------------------------------------------
  // The file format keeps cells within the limits
  // ---------------------------------------------------------------------

  /** The space for cells on a sibling page. */
  function UsableSpace(usableSize: nat, leaf: bool): int {
    usableSize - 12 + (if leaf then 4 else 0)
  }

  /** A cell of an index B-tree, whose local payload is at most 64/255 of a page:
      two of them fit on any page, so they can be dividers. */
  lemma IndexCellsLimited(k: PageKind, cell: seq<Byte>)
    requires k.Valid() && !k.hasData && k.maxLocal == (k.usableSize - 12) * 64 / 255 - 23
    ensures 2 * (CellSize(k, cell) + 2) <= UsableSpace(k.usableSize, k.leaf)
  {
    var n, key := ParseCell(k, cell).nPayload, KeyField(k, cell);
    assert LocalSize(k, n) <= k.maxLocal;
    assert CellSize(k, cell) <= k.maxLocal + 17;
    assert 255 * ((k.usableSize - 12) * 64 / 255) <= (k.usableSize - 12) * 64;
  }

  /** A cell of a table leaf always fits on a page. */
  lemma TableCellsLimited(k: PageKind, cell: seq<Byte>)
    requires k.Valid() && k.leaf && k.maxLocal == k.usableSize - 35
    ensures CellSize(k, cell) + 2 <= UsableSpace(k.usableSize, true)
  {
    var n := ParseCell(k, cell).nPayload;
    assert LocalSize(k, n) <= k.maxLocal;
  }
}
