/** Why balance_nonroot finds room for all cells on its new pages: each sibling
    fitted on its page but for one cell (btree.c:4860-5012, 5139-5185). */
module BalanceRoom {
  import opened Balance
  import opened Packing
  import opened Rebalance
  import opened BalanceNonroot

  /** Sibling j. */
  function Sib(pages: Store, p: Node, first: nat, j: nat): Node {
    PageOf(pages, Child(p, first + j))
  }

  /** The siblings are of one kind. */
  ghost predicate OneKind(pages: Store, p: Node, first: nat, n: nat, leafData: bool) {
    && 0 < n && first + n <= |p.cells| + 1
    && forall j: nat | j < n :: (Sib(pages, p, first, j).leaf && Sib(pages, p, first, j).leafData) == leafData
  }

  /** Where the cells of sibling j end among the gathered ones. */
  function EndOf(pages: Store, p: Node, first: nat, j: nat): nat
    requires first + j <= |p.cells|
  {
    |GatherTo(pages, p, first, j)| + |Cells(Sib(pages, p, first, j))|
  }

  function Ends(pages: Store, p: Node, first: nat, n: nat): (r: seq<nat>)
    requires 0 < n && first + n <= |p.cells| + 1
    ensures |r| == n && forall j: nat | j < n :: r[j] == EndOf(pages, p, first, j)
  {
    seq(n, j requires 0 <= j < n => EndOf(pages, p, first, j))
  }

  lemma {:induction false} GatherPrefix(pages: Store, p: Node, first: nat, i: nat, m: nat)
    requires i <= m && first + m <= |p.cells|
    ensures GatherTo(pages, p, first, i) <= GatherTo(pages, p, first, m)
    decreases m
  {
    if i < m { GatherPrefix(pages, p, first, i, m - 1); }
  }

  /** The cells gathered before sibling j, and its own, come first. */
  lemma PrefixAt(pages: Store, p: Node, first: nat, n: nat, j: nat)
    requires j < n && first + n <= |p.cells| + 1
    ensures GatherTo(pages, p, first, j) + Cells(Sib(pages, p, first, j)) <= GatherCells(pages, p, first, n)
  {
    if j < n - 1 {
      var div := p.cells[first + j];
      assert GatherTo(pages, p, first, j + 1) == GatherTo(pages, p, first, j) + Gathered(PageOf(pages, div.child), div);
      assert GatherTo(pages, p, first, j) + Cells(Sib(pages, p, first, j)) <= GatherTo(pages, p, first, j + 1);
      GatherPrefix(pages, p, first, j + 1, n - 1);
    }
  }

  lemma RunInside(pre: seq<Cell>, cs: seq<Cell>, all: seq<Cell>, a: nat, b: nat)
    requires pre + cs <= all && a == |pre| && b == a + |cs|
    ensures b <= |all| && all[a..b] == cs
  {
    assert all[..|pre| + |cs|] == pre + cs;
    assert all[|pre|..|pre| + |cs|] == (pre + cs)[|pre|..];
  }

  lemma StepLen(pages: Store, p: Node, first: nat, i: nat)
    requires first + i < |p.cells|
    ensures var s := Sib(pages, p, first, i);
      |GatherTo(pages, p, first, i + 1)| == EndOf(pages, p, first, i) + if s.leaf && s.leafData then 0 else 1
  {
    var s := Sib(pages, p, first, i);
    assert |Gathered(s, p.cells[first + i])| == |Cells(s)| + if s.leaf && s.leafData then 0 else 1;
  }

  lemma StartAt(pages: Store, p: Node, first: nat, n: nat, leafData: bool, j: nat)
    requires OneKind(pages, p, first, n, leafData) && j < n
    ensures Start(Ends(pages, p, first, n), j, leafData) == |GatherTo(pages, p, first, j)|
  {
    if j > 0 {
      var i: nat := j - 1;
      assert (Sib(pages, p, first, i).leaf && Sib(pages, p, first, i).leafData) == leafData;
      StepLen(pages, p, first, i);
    }
  }

  /** The cells of sibling j are gathered in one run. */
  lemma RunOf(pages: Store, p: Node, first: nat, n: nat, leafData: bool, j: nat)
    requires OneKind(pages, p, first, n, leafData) && j < n
    ensures var all, ends := GatherCells(pages, p, first, n), Ends(pages, p, first, n);
      && Start(ends, j, leafData) == |GatherTo(pages, p, first, j)| <= ends[j] <= |all|
      && all[Start(ends, j, leafData)..ends[j]] == Cells(Sib(pages, p, first, j))
  {
    var ends := Ends(pages, p, first, n);
    PrefixAt(pages, p, first, n, j);
    StartAt(pages, p, first, n, leafData, j);
    RunInside(GatherTo(pages, p, first, j), Cells(Sib(pages, p, first, j)), GatherCells(pages, p, first, n),
              Start(ends, j, leafData), ends[j]);
  }

  /** What the cells of sibling j take. */
  function Takes(pages: Store, p: Node, first: nat, j: nat, sizeOf: Cell -> nat): nat {
    var cs := Cells(Sib(pages, p, first, j));
    Sum(Sizes(cs, sizeOf), 0, |cs|)
  }

  lemma SumAt(pages: Store, p: Node, first: nat, n: nat, leafData: bool, j: nat, sizeOf: Cell -> nat)
    requires OneKind(pages, p, first, n, leafData) && j < n
    ensures var sz, ends := Sizes(GatherCells(pages, p, first, n), sizeOf), Ends(pages, p, first, n);
      RunAt(ends, |sz|, leafData, j) && PageSum(sz, ends, leafData, j) == Takes(pages, p, first, j, sizeOf)
  {
    var all, ends := GatherCells(pages, p, first, n), Ends(pages, p, first, n);
    RunOf(pages, p, first, n, leafData, j);
    SumOfRun(all, sizeOf, Start(ends, j, leafData), ends[j]);
  }

  /** Every sibling fits, but for cell x of sibling q. */
  ghost predicate AllButOne(pages: Store, p: Node, first: nat, n: nat, sizeOf: Cell -> nat, u: nat, q: nat, x: nat)
    requires q < n
  {
    var cs := Cells(Sib(pages, p, first, q));
    && (forall j: nat | j < n && j != q :: Takes(pages, p, first, j, sizeOf) <= u)
    && x < |cs| && sizeOf(cs[x]) + 2 <= u && Takes(pages, p, first, q, sizeOf) - (sizeOf(cs[x]) + 2) <= u
  }

  /** What balance_nonroot relies on: at most one cell of up to NB siblings has
      overflowed, and all cells are within the limits of the format. */
  ghost predicate Overfull(pages: Store, p: Node, first: nat, n: nat, leafData: bool, sizeOf: Cell -> nat, u: nat) {
    && OneKind(pages, p, first, n, leafData) && n <= NB && Limited(Sizes(GatherCells(pages, p, first, n), sizeOf), u, leafData)
    && ((forall j: nat | j < n :: Takes(pages, p, first, j, sizeOf) <= u)
        || exists q: nat, x: nat :: q < n && AllButOne(pages, p, first, n, sizeOf, u, q, x))
  }

  lemma AllRuns(pages: Store, p: Node, first: nat, n: nat, leafData: bool, sizeOf: Cell -> nat)
    requires OneKind(pages, p, first, n, leafData)
    ensures Cuts(Ends(pages, p, first, n), |Sizes(GatherCells(pages, p, first, n), sizeOf)|, leafData)
  {
    var sz, ends := Sizes(GatherCells(pages, p, first, n), sizeOf), Ends(pages, p, first, n);
    forall j: nat | j < n ensures RunAt(ends, |sz|, leafData, j) { SumAt(pages, p, first, n, leafData, j, sizeOf); }
  }

  lemma InRun(cs: seq<Cell>, all: seq<Cell>, sizeOf: Cell -> nat, a: nat, b: nat, x: nat)
    requires a <= b <= |all| && all[a..b] == cs && x < |cs|
    ensures a + x < b && Sizes(all, sizeOf)[a + x] == sizeOf(cs[x])
  {
    assert cs[x] == all[a + x];
  }

  /** Where the cell that overflowed is among the gathered ones. */
  lemma CellGathered(pages: Store, p: Node, first: nat, n: nat, leafData: bool, sizeOf: Cell -> nat, q: nat, x: nat)
    requires OneKind(pages, p, first, n, leafData) && q < n && x < |Cells(Sib(pages, p, first, q))|
    ensures var sz, ends, at := Sizes(GatherCells(pages, p, first, n), sizeOf), Ends(pages, p, first, n), |GatherTo(pages, p, first, q)| + x;
      Start(ends, q, leafData) <= at < ends[q] <= |sz| && sz[at] == sizeOf(Cells(Sib(pages, p, first, q))[x])
  {
    var ends := Ends(pages, p, first, n);
    RunOf(pages, p, first, n, leafData, q);
    InRun(Cells(Sib(pages, p, first, q)), GatherCells(pages, p, first, n), sizeOf, Start(ends, q, leafData), ends[q], x);
  }

  lemma OverflowAt(pages: Store, p: Node, first: nat, n: nat, leafData: bool, sizeOf: Cell -> nat, u: nat, q: nat, x: nat)
    requires OneKind(pages, p, first, n, leafData) && q < n && AllButOne(pages, p, first, n, sizeOf, u, q, x)
    ensures OneOverflow(Sizes(GatherCells(pages, p, first, n), sizeOf), Ends(pages, p, first, n), u, leafData, q,
                        |GatherTo(pages, p, first, q)| + x)
  {
    var sz, ends := Sizes(GatherCells(pages, p, first, n), sizeOf), Ends(pages, p, first, n);
    AllRuns(pages, p, first, n, leafData, sizeOf);
    forall j: nat | j < n && j != q ensures RunAt(ends, |sz|, leafData, j) && PageSum(sz, ends, leafData, j) <= u {
      SumAt(pages, p, first, n, leafData, j, sizeOf);
    }
    SumAt(pages, p, first, n, leafData, q, sizeOf);
    CellGathered(pages, p, first, n, leafData, sizeOf, q, x);
  }

  lemma RoomFits(pages: Store, p: Node, first: nat, n: nat, leafData: bool, sizeOf: Cell -> nat, u: nat)
    requires OneKind(pages, p, first, n, leafData) && forall j: nat | j < n :: Takes(pages, p, first, j, sizeOf) <= u
    ensures Packed(Sizes(GatherCells(pages, p, first, n), sizeOf), Ends(pages, p, first, n), u, leafData)
  {
    var sz, ends := Sizes(GatherCells(pages, p, first, n), sizeOf), Ends(pages, p, first, n);
    AllRuns(pages, p, first, n, leafData, sizeOf);
    forall j: nat | j < n ensures RunAt(ends, |sz|, leafData, j) && PageSum(sz, ends, leafData, j) <= u {
      SumAt(pages, p, first, n, leafData, j, sizeOf);
    }
  }

  lemma RoomSplit(pages: Store, p: Node, first: nat, n: nat, leafData: bool, sizeOf: Cell -> nat, u: nat, q: nat, x: nat) returns (other: seq<nat>)
    requires OneKind(pages, p, first, n, leafData) && q < n && AllButOne(pages, p, first, n, sizeOf, u, q, x)
    ensures Packed(Sizes(GatherCells(pages, p, first, n), sizeOf), other, u, leafData) && |other| <= n + 2
  {
    var sz, ends, at := Sizes(GatherCells(pages, p, first, n), sizeOf), Ends(pages, p, first, n), |GatherTo(pages, p, first, q)| + x;
    OverflowAt(pages, p, first, n, leafData, sizeOf, u, q, x);
    SplitPacked(sz, ends, u, leafData, q, at);
    other := SplitAt(ends, q, at, leafData);
  }

  /** Then MAX_NEW pages are enough for all cells. */
  lemma RoomEnough(pages: Store, p: Node, first: nat, n: nat, leafData: bool, sizeOf: Cell -> nat, u: nat) returns (other: seq<nat>)
    requires Overfull(pages, p, first, n, leafData, sizeOf, u)
    ensures CanPack(GatherCells(pages, p, first, n), sizeOf, u, leafData, other)
  {
    if forall j: nat | j < n :: Takes(pages, p, first, j, sizeOf) <= u {
      other := Ends(pages, p, first, n);
      RoomFits(pages, p, first, n, leafData, sizeOf, u);
    } else {
      var q: nat, x: nat :| q < n && AllButOne(pages, p, first, n, sizeOf, u, q, x);
      other := RoomSplit(pages, p, first, n, leafData, sizeOf, u, q, x);
    }
  }
}
