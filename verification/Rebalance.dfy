/** balance_nonroot on the contents of pages (btree.c:4860-5425): gathering the
    cells of siblings and dividers, and scattering them again, keeps the in-order
    sequence of everything below the parent. */
module Rebalance {
  import opened Balance
  import opened Packing
  import opened Walks

  /** A page with every overflow cell at a place it can have. */
  type Node = p: Page | Placed(p.cells, p.aOvfl) witness Page(true, false, [], [], 0)

  function Cells(p: Node): seq<Cell> {
    Logical(p.cells, p.aOvfl)
  }

  /** What is met at the divider between two leaves, or between two inner pages.
      In a table a divider is no entry but a separator; between leaves it is made
      anew from the entries when the leaves are balanced, so it is left out. */
  function Divider(c: Cell, leaf: bool, table: bool): Walk {
    if !table then Step(Entry(c.key, c.body), End) else if leaf then End else Step(Sep(c.key), End)
  }

  function CellItems(c: Cell, leaf: bool, table: bool): Walk {
    if leaf then Step(Entry(c.key, c.body), End) else Step(Sub(c.child), Divider(c, false, table))
  }

  /** What is met at the cells [a, b) of a page. */
  function ItemsOf(cs: seq<Cell>, a: nat, b: nat, leaf: bool, table: bool): Walk
    requires a <= b <= |cs|
  {
    if a == b then End else Then(ItemsOf(cs, a, b - 1, leaf, table), CellItems(cs[b - 1], leaf, table))
  }

  function Items(cs: seq<Cell>, leaf: bool, table: bool): Walk {
    ItemsOf(cs, 0, |cs|, leaf, table)
  }

  function RightItem(leaf: bool, right: Pgno): Walk {
    if leaf then End else Step(Sub(right), End)
  }

  function PageItems(p: Node): Walk {
    Then(Items(Cells(p), p.leaf, p.leafData), RightItem(p.leaf, p.right))
  }

  type Store = map<Pgno, Node>

  function ItemsAt(pages: Store, g: Pgno): Walk {
    if g in pages then PageItems(pages[g]) else End
  }

  /** What is met below the cells [a, b) of a parent, dividers included. */
  function Under(pages: Store, cs: seq<Cell>, a: nat, b: nat, leaf: bool, table: bool): Walk
    requires a <= b <= |cs|
  {
    if a == b then End
    else Then(Then(Under(pages, cs, a, b - 1, leaf, table), ItemsAt(pages, cs[b - 1].child)), Divider(cs[b - 1], leaf, table))
  }

  /** What is met below a page with these cells and this right child. */
  function AllUnder(pages: Store, cs: seq<Cell>, right: Pgno, leaf: bool, table: bool): Walk {
    Then(Under(pages, cs, 0, |cs|, leaf, table), ItemsAt(pages, right))
  }

  /** The children are leaves, or inner pages. */
  function Below(pages: Store, p: Node, leaf: bool): Walk {
    AllUnder(pages, Cells(p), p.right, leaf, p.leafData)
  }

  lemma {:induction false} ItemsSplit(cs: seq<Cell>, a: nat, m: nat, b: nat, leaf: bool, table: bool)
    requires a <= m <= b <= |cs|
    ensures ItemsOf(cs, a, b, leaf, table) == Then(ItemsOf(cs, a, m, leaf, table), ItemsOf(cs, m, b, leaf, table))
  {
    if m < b {
      ItemsSplit(cs, a, m, b - 1, leaf, table);
      ThenThen(ItemsOf(cs, a, m, leaf, table), ItemsOf(cs, m, b - 1, leaf, table), CellItems(cs[b - 1], leaf, table));
    } else {
      ThenEnd(ItemsOf(cs, a, m, leaf, table));
    }
  }

  lemma SlicesShrink(cs: seq<Cell>, a: nat, b: nat, ds: seq<Cell>, c: nat, d: nat)
    requires a < b <= |cs| && c <= d <= |ds| && cs[a..b] == ds[c..d]
    ensures c < d && cs[b - 1] == ds[d - 1] && cs[a..b - 1] == ds[c..d - 1]
  {
    var x, y := cs[a..b], ds[c..d];
    assert |x| == |y|;
    assert cs[b - 1] == x[|x| - 1] && ds[d - 1] == y[|y| - 1];
    assert cs[a..b - 1] == x[..|x| - 1];
    assert ds[c..d - 1] == y[..|y| - 1];
  }

  /** Equal runs of cells, wherever they are. */
  lemma {:induction false} ItemsSame(cs: seq<Cell>, a: nat, b: nat, ds: seq<Cell>, c: nat, d: nat, leaf: bool, table: bool)
    requires a <= b <= |cs| && c <= d <= |ds| && cs[a..b] == ds[c..d]
    ensures ItemsOf(cs, a, b, leaf, table) == ItemsOf(ds, c, d, leaf, table)
  {
    assert |cs[a..b]| == |ds[c..d]|;
    if a < b {
      SlicesShrink(cs, a, b, ds, c, d);
      ItemsSame(cs, a, b - 1, ds, c, d - 1, leaf, table);
    }
  }

  lemma ItemsConcat(x: seq<Cell>, y: seq<Cell>, leaf: bool, table: bool)
    ensures Items(x + y, leaf, table) == Then(Items(x, leaf, table), Items(y, leaf, table))
  {
    var n := |x|;
    ItemsSplit(x + y, 0, n, |x + y|, leaf, table);
    assert (x + y)[0..n] == x[0..n] && (x + y)[n..|x + y|] == y[0..|y|];
    ItemsSame(x + y, 0, n, x, 0, n, leaf, table);
    ItemsSame(x + y, n, |x + y|, y, 0, |y|, leaf, table);
  }

  lemma ItemsOne(cs: seq<Cell>, c: Cell, leaf: bool, table: bool)
    ensures Items(cs + [c], leaf, table) == Then(Items(cs, leaf, table), CellItems(c, leaf, table))
  {
    ItemsConcat(cs, [c], leaf, table);
    assert ItemsOf([c], 0, 0, leaf, table) == End;
  }

  /** The page a child pointer leads to holds the same in both stores. */
  predicate SameAt(pages: Store, next: Store, g: Pgno) {
    ItemsAt(pages, g) == ItemsAt(next, g)
  }

  lemma {:induction false} UnderSplit(pages: Store, cs: seq<Cell>, a: nat, m: nat, b: nat, leaf: bool, table: bool)
    requires a <= m <= b <= |cs|
    ensures Under(pages, cs, a, b, leaf, table) == Then(Under(pages, cs, a, m, leaf, table), Under(pages, cs, m, b, leaf, table))
  {
    if m < b {
      var x, y := Under(pages, cs, a, m, leaf, table), Under(pages, cs, m, b - 1, leaf, table);
      var i, d := ItemsAt(pages, cs[b - 1].child), Divider(cs[b - 1], leaf, table);
      UnderSplit(pages, cs, a, m, b - 1, leaf, table);
      ThenThen(x, y, i);
      ThenThen(x, Then(y, i), d);
    } else {
      ThenEnd(Under(pages, cs, a, m, leaf, table));
    }
  }

  /** Equal runs of cells over stores that agree on their children. */
  lemma {:induction false} UnderSame(pages: Store, cs: seq<Cell>, a: nat, b: nat, next: Store, ds: seq<Cell>, c: nat, d: nat, leaf: bool, table: bool)
    requires a <= b <= |cs| && c <= d <= |ds| && cs[a..b] == ds[c..d]
    requires forall i | a <= i < b :: SameAt(pages, next, cs[i].child)
    ensures Under(pages, cs, a, b, leaf, table) == Under(next, ds, c, d, leaf, table)
  {
    assert |cs[a..b]| == |ds[c..d]|;
    if a < b {
      SlicesShrink(cs, a, b, ds, c, d);
      assert SameAt(pages, next, cs[b - 1].child);
      UnderSame(pages, cs, a, b - 1, next, ds, c, d - 1, leaf, table);
    }
  }

  // ---------------------------------------------------------------------
  // Which siblings to take
  // ---------------------------------------------------------------------

  /** The child left of cell k, or right of all cells. */
  function Child(p: Node, k: nat): Pgno {
    if k < |p.cells| then p.cells[k].child else p.right
  }

  /** The first of the siblings taken to balance child idx, NN of them to each
      side where there are that many. */
  function FirstSibling(nCell: nat, idx: nat): nat {
    var n: int := idx - 1;
    var m := if n + NB > nCell then nCell - NB + 1 else n;
    if m < 0 then 0 else m
  }

  function SiblingCount(nCell: nat): nat {
    if nCell + 1 < NB then nCell + 1 else NB
  }

  /** The siblings are consecutive children; child idx is among them, with a
      neighbour on each side where it has one; and there are NB of them or all. */
  lemma SiblingsAroundIdx(nCell: nat, idx: nat)
    requires idx <= nCell
    ensures var f, n := FirstSibling(nCell, idx), SiblingCount(nCell);
      && f <= idx < f + n <= nCell + 1
      && (n == NB || (f == 0 && n == nCell + 1))
      && (0 < idx ==> f < idx) && (idx < nCell ==> idx + 1 < f + n)
  {
  }

  // ---------------------------------------------------------------------
  // Gathering
  // ---------------------------------------------------------------------

  /** The divider after a sibling as a cell among the siblings' own: on leaves
      without its child pointer, elsewhere with the sibling's right child. */
  function Lowered(div: Cell, sibling: Node): Cell {
    div.(child := if sibling.leaf then 0 else sibling.right)
  }

  /** The cells of one sibling and the divider after it. */
  function Gathered(sibling: Node, div: Cell): seq<Cell> {
    Cells(sibling) + if sibling.leaf && sibling.leafData then [] else [Lowered(div, sibling)]
  }

  lemma GatheredItems(sibling: Node, div: Cell)
    ensures Items(Gathered(sibling, div), sibling.leaf, sibling.leafData)
         == Then(PageItems(sibling), Divider(div, sibling.leaf, sibling.leafData))
  {
    var leaf, table := sibling.leaf, sibling.leafData;
    var items := Items(Cells(sibling), leaf, table);
    if leaf && table {
      assert Gathered(sibling, div) == Cells(sibling);
      ThenEnd(items);
    } else {
      var low := Lowered(div, sibling);
      ItemsOne(Cells(sibling), low, leaf, table);
      assert CellItems(low, leaf, table) == Then(RightItem(leaf, sibling.right), Divider(div, leaf, table));
      ThenThen(items, RightItem(leaf, sibling.right), Divider(div, leaf, table));
    }
  }

  /** All siblings are of one kind, and none is the parent. */
  predicate AlikeAt(pages: Store, g: Pgno, parent: Pgno, leaf: bool, table: bool) {
    g in pages && g != parent && pages[g].leaf == leaf && pages[g].leafData == table
  }

  /** The cells of a page in order, found one by one. */
  method LoadCells(p: Node) returns (cs: seq<Cell>)
    ensures cs == Cells(p)
  {
    cs := [];
    var j: nat := 0;
    while j < |p.cells| + |p.aOvfl|
      invariant j <= |Cells(p)| && cs == Cells(p)[..j]
    {
      var s := FindOverflowCell(p.cells, p.aOvfl, j);
      FindsLogical(p.cells, p.aOvfl, j);
      cs := cs + [CellAt(p.cells, p.aOvfl, s)];
      j := j + 1;
    }
  }

  /** Where the siblings and dividers of a parent are, before balancing. */
  ghost predicate Siblings(pages: Store, parent: Pgno, first: nat, n: nat, leaf: bool, table: bool) {
    && parent in pages && pages[parent].aOvfl == [] && !pages[parent].leaf && pages[parent].leafData == table
    && 0 < n && first + n <= |pages[parent].cells| + 1
    && forall k: nat | first <= k < first + n :: AlikeAt(pages, Child(pages[parent], k), parent, leaf, table)
  }

  /** A page without one of its cells. */
  function Dropped(p: Node, i: nat): (q: Node)
    requires i < |p.cells| && p.aOvfl == []
  {
    p.(cells := p.cells[..i] + p.cells[i + 1..])
  }

  /** The gathered cells hold what was below the siblings and between them. */
  ghost predicate GatheredAll(pages: Store, p: Node, first: nat, n: nat, leaf: bool, table: bool, apCell: seq<Cell>, lastRight: Pgno)
    requires 0 < n && first + n <= |p.cells| + 1
  {
    Then(Items(apCell, leaf, table), RightItem(leaf, lastRight))
    == Then(Under(pages, p.cells, first, first + n - 1, leaf, table), ItemsAt(pages, Child(p, first + n - 1)))
  }

  function PageOf(pages: Store, g: Pgno): Node {
    if g in pages then pages[g] else Page(true, false, [], [], 0)
  }

  /** The cells of i siblings from first on, each with the divider after it. */
  function GatherTo(pages: Store, p: Node, first: nat, i: nat): seq<Cell>
    requires first + i <= |p.cells|
  {
    if i == 0 then []
    else
      var div := p.cells[first + i - 1];
      GatherTo(pages, p, first, i - 1) + Gathered(PageOf(pages, div.child), div)
  }

  /** The cells of n siblings and the dividers between them. */
  function GatherCells(pages: Store, p: Node, first: nat, n: nat): seq<Cell>
    requires 0 < n && first + n <= |p.cells| + 1
  {
    GatherTo(pages, p, first, n - 1) + Cells(PageOf(pages, Child(p, first + n - 1)))
  }

  /** The cells gathered so far hold what was below the cells [a, b) of a parent. */
  ghost predicate Agree(pages: Store, cs: seq<Cell>, a: nat, b: nat, leaf: bool, table: bool, apCell: seq<Cell>)
    requires a <= b <= |cs|
  {
    Items(apCell, leaf, table) == Under(pages, cs, a, b, leaf, table)
  }

  lemma GatherOne(pages: Store, cs: seq<Cell>, a: nat, b: nat, table: bool, apCell: seq<Cell>, sibling: Node)
    requires a <= b < |cs| && cs[b].child in pages && sibling == pages[cs[b].child] && sibling.leafData == table
    requires Agree(pages, cs, a, b, sibling.leaf, table, apCell)
    ensures Agree(pages, cs, a, b + 1, sibling.leaf, table, apCell + Gathered(sibling, cs[b]))
  {
    ItemsConcat(apCell, Gathered(sibling, cs[b]), sibling.leaf, table);
    GatheredItems(sibling, cs[b]);
    ThenThen(Under(pages, cs, a, b, sibling.leaf, table), PageItems(sibling), Divider(cs[b], sibling.leaf, table));
  }

  lemma GatherLast(pages: Store, p: Node, first: nat, n: nat, table: bool, apCell: seq<Cell>, sibling: Node)
    requires 0 < n && first + n <= |p.cells| + 1
    requires var g := Child(p, first + n - 1); g in pages && sibling == pages[g] && sibling.leafData == table
    requires Agree(pages, p.cells, first, first + n - 1, sibling.leaf, table, apCell)
    ensures GatheredAll(pages, p, first, n, sibling.leaf, table, apCell + Cells(sibling), sibling.right)
  {
    ItemsConcat(apCell, Cells(sibling), sibling.leaf, table);
    ThenThen(Items(apCell, sibling.leaf, table), Items(Cells(sibling), sibling.leaf, table), RightItem(sibling.leaf, sibling.right));
  }

  /** The parent after i dividers have been dropped at first. */
  function WithoutDividers(p: Node, first: nat, i: nat): (q: Node)
    requires p.aOvfl == [] && first + i <= |p.cells|
    ensures q.aOvfl == [] && |q.cells| == |p.cells| - i
  {
    if i == 0 then p else Dropped(WithoutDividers(p, first, i - 1), first)
  }

  lemma {:induction false} WithoutDividersIs(p: Node, first: nat, i: nat)
    requires p.aOvfl == [] && first + i <= |p.cells|
    ensures WithoutDividers(p, first, i) == p.(cells := p.cells[..first] + p.cells[first + i..])
  {
    if i > 0 {
      WithoutDividersIs(p, first, i - 1);
      var q := p.cells[..first] + p.cells[first + (i - 1)..];
      assert q[..first] == p.cells[..first];
      assert q[first + 1..] == p.cells[first + i..];
    } else {
      assert p.cells == p.cells[..first] + p.cells[first..];
    }
  }

  /** Where gathering is after i siblings. */
  ghost predicate Gathering(pages: Store, parent: Pgno, first: nat, n: nat, leaf: bool, table: bool, i: nat, apCell: seq<Cell>) {
    && Siblings(pages, parent, first, n, leaf, table) && i < n
    && Agree(pages, pages[parent].cells, first, first + i, leaf, table, apCell)
    && AlikeAt(pages, Child(pages[parent], first + i), parent, leaf, table)
  }

  lemma GatherStep(pages: Store, parent: Pgno, first: nat, n: nat, leaf: bool, table: bool, i: nat, apCell: seq<Cell>)
    requires Gathering(pages, parent, first, n, leaf, table, i, apCell) && i + 1 < n
    ensures var top := pages[parent]; var div := top.cells[first + i];
      && Gathering(pages, parent, first, n, leaf, table, i + 1, apCell + Gathered(pages[div.child], div))
      && GatherTo(pages, top, first, i + 1) == GatherTo(pages, top, first, i) + Gathered(pages[div.child], div)
      && WithoutDividers(top, first, i + 1) == Dropped(WithoutDividers(top, first, i), first)
  {
    var top := pages[parent];
    var div := top.cells[first + i];
    GatherOne(pages, top.cells, first, first + i, table, apCell, pages[div.child]);
    assert AlikeAt(pages, Child(top, first + (i + 1)), parent, leaf, table);
  }

  method GatherSibling(sibling: Node, div: Cell) returns (cs: seq<Cell>)
    ensures cs == Gathered(sibling, div)
  {
    cs := LoadCells(sibling);
    if !(sibling.leaf && sibling.leafData) { cs := cs + [Lowered(div, sibling)]; }
  }

  /** Gather the cells of all siblings but the last, and the dividers after them. */
  method GatherFirst(pages: Store, parent: Pgno, first: nat, n: nat, ghost leaf: bool, ghost table: bool)
    returns (apCell: seq<Cell>, now: Node)
    requires Siblings(pages, parent, first, n, leaf, table)
    ensures Gathering(pages, parent, first, n, leaf, table, n - 1, apCell)
    ensures now == WithoutDividers(pages[parent], first, n - 1) && apCell == GatherTo(pages, pages[parent], first, n - 1)
  {
    var top := pages[parent];
    var i: nat := 0;
    apCell, now := [], top;
    assert AlikeAt(pages, Child(top, first + 0), parent, leaf, table);
    while i < n - 1
      invariant Gathering(pages, parent, first, n, leaf, table, i, apCell) && apCell == GatherTo(pages, top, first, i)
      invariant now == WithoutDividers(top, first, i)
    {
      var div := top.cells[first + i];
      GatherStep(pages, parent, first, n, leaf, table, i, apCell);
      var cs := GatherSibling(pages[div.child], div);
      apCell := apCell + cs;
      now := Dropped(now, first);
      i := i + 1;
    }
  }

  /** Gather the cells of n siblings and their dividers from a copy of the
      pages, and take the dividers out of the parent. */
  method Gather(pages: Store, parent: Pgno, first: nat, n: nat, ghost leaf: bool, ghost table: bool)
    returns (apCell: seq<Cell>, lastRight: Pgno, now: Node)
    requires Siblings(pages, parent, first, n, leaf, table)
    ensures now == WithoutDividers(pages[parent], first, n - 1)
    ensures apCell == GatherCells(pages, pages[parent], first, n)
    ensures lastRight == PageOf(pages, Child(pages[parent], first + n - 1)).right
    ensures GatheredAll(pages, pages[parent], first, n, leaf, table, apCell, lastRight)
  {
    apCell, now := GatherFirst(pages, parent, first, n, leaf, table);
    var sibling := pages[Child(pages[parent], first + n - 1)];
    GatherLast(pages, pages[parent], first, n, table, apCell, sibling);
    var cs := LoadCells(sibling);
    apCell, lastRight := apCell + cs, sibling.right;
  }

  // ---------------------------------------------------------------------
  // Scattering
  // ---------------------------------------------------------------------

  /** insertCell: on the page if there is room and nothing has overflowed yet,
      otherwise as an overflow cell.  Either way the cell gets its place. */
  method InsertCell(p: Node, i: nat, c: Cell) returns (q: Node)
    requires i <= |Cells(p)|
    ensures Cells(q) == PutIn(Cells(p), i, c)
    ensures q.leaf == p.leaf && q.leafData == p.leafData && q.right == p.right
  {
    var fits: bool := *;
    if p.aOvfl != [] || !fits {
      PlaceMore(p, Ovfl(c, i));
      q := p.(aOvfl := p.aOvfl + [Ovfl(c, i)]);
    } else {
      q := p.(cells := PutIn(p.cells, i, c));
    }
  }

  lemma PlaceMore(p: Node, o: Ovfl)
    requires o.idx <= |Cells(p)|
    ensures Placed(p.cells, p.aOvfl + [o])
    ensures Logical(p.cells, p.aOvfl + [o]) == PutIn(Cells(p), o.idx, o.cell)
  {
    assert (p.aOvfl + [o])[..|p.aOvfl|] == p.aOvfl;
  }

  /** Set child i of a page, wherever its cell is. */
  method PutChild(p: Node, i: nat, child: Pgno) returns (q: Node)
    requires i <= |Cells(p)|
    ensures q.leaf == p.leaf && q.leafData == p.leafData && |Cells(q)| == |Cells(p)|
    ensures Cells(q) == if i < |Cells(p)| then Cells(p)[i := Cells(p)[i].(child := child)] else Cells(p)
    ensures q.right == if i < |Cells(p)| then p.right else child
  {
    if i == |p.cells| + |p.aOvfl| {
      q := p.(right := child);
    } else {
      var s := FindOverflowCell(p.cells, p.aOvfl, i);
      SetChildLogical(p, i, child);
      q := SetChild(p, s, child);
    }
  }

  /** assemblePage, and the right child of a page that is not a leaf. */
  function Assembled(leaf: bool, table: bool, cs: seq<Cell>, right: Pgno): (p: Node)
    ensures Cells(p) == cs
  {
    Page(leaf, table, cs, [], right)
  }

  /** The cell that goes into the parent after a page made of the cells up to c:
      the next cell, or in a table the largest key of the page. */
  function NewDivider(leaf: bool, table: bool, apCell: seq<Cell>, c: nat): Cell
    requires c <= |apCell| && (if leaf && table then 0 < c else c < |apCell|)
  {
    if leaf && table then Cell(apCell[c - 1].key, 0, 0) else apCell[c]
  }

  /** The first unused cell after page and divider. */
  function After(leaf: bool, table: bool, c: nat): nat {
    if leaf && table then c else c + 1
  }

  /** The new page made of the cells [j, c), not the last. */
  function NewPage(leaf: bool, table: bool, apCell: seq<Cell>, j: nat, c: nat): Node
    requires j <= c <= |apCell| && (if leaf && table then j < c else c < |apCell|)
  {
    Assembled(leaf, table, apCell[j..c], if leaf then 0 else apCell[c].child)
  }

  lemma Regroup(a: Walk, b: Walk, c: Walk, d: Walk)
    ensures Then(Then(a, b), Then(c, d)) == Then(Then(a, Then(b, c)), d)
  {
    ThenThen(Then(a, b), c, d);
    ThenThen(a, b, c);
  }

  lemma AssembledItems(leaf: bool, table: bool, apCell: seq<Cell>, j: nat, c: nat, right: Pgno)
    requires j <= c <= |apCell|
    ensures PageItems(Assembled(leaf, table, apCell[j..c], right)) == Then(ItemsOf(apCell, j, c, leaf, table), RightItem(leaf, right))
  {
    var cs := apCell[j..c];
    assert cs[0..|cs|] == cs;
    ItemsSame(cs, 0, |cs|, apCell, j, c, leaf, table);
  }

  /** One new page and the divider after it hold just the next cells. */
  lemma PageAndDivider(leaf: bool, table: bool, apCell: seq<Cell>, j: nat, c: nat)
    requires j <= c <= |apCell| && (if leaf && table then j < c else c < |apCell|)
    ensures After(leaf, table, c) <= |apCell|
    ensures ItemsOf(apCell, 0, After(leaf, table, c), leaf, table)
         == Then(Then(ItemsOf(apCell, 0, j, leaf, table), PageItems(NewPage(leaf, table, apCell, j, c))),
                 Divider(NewDivider(leaf, table, apCell, c), leaf, table))
  {
    var right := if leaf then 0 else apCell[c].child;
    var d := Divider(NewDivider(leaf, table, apCell, c), leaf, table);
    var a, b := ItemsOf(apCell, 0, j, leaf, table), ItemsOf(apCell, j, c, leaf, table);
    ItemsSplit(apCell, 0, j, c, leaf, table);
    AssembledItems(leaf, table, apCell, j, c, right);
    if leaf && table {
      ThenEnd(b);
      ThenEnd(Then(a, b));
    } else {
      assert CellItems(apCell[c], leaf, table) == Then(RightItem(leaf, right), d);
      Regroup(a, b, RightItem(leaf, right), d);
    }
  }

  /** In a table the divider is the largest key on the page before it. */
  predicate LastKey(next: Store, d: Cell) {
    d.child in next && var cs := Cells(next[d.child]); cs != [] && cs[|cs| - 1].key == d.key
  }

  /** The page numbers are different. */
  predicate Distinct(gs: seq<Pgno>) {
    forall m, k | 0 <= m < k < |gs| :: gs[m] != gs[k]
  }

  /** Apart from these page numbers nothing has changed. */
  ghost predicate Untouched(pages: Store, next: Store, gs: seq<Pgno>) {
    forall g | g !in gs :: (g in next <==> g in pages) && (g in pages ==> next[g] == pages[g])
  }

  /** The cells of the parent, with mid put in at first. */
  predicate ParentHas(was: Node, now: Node, first: nat, mid: seq<Cell>) {
    && first <= |Cells(was)| && now.leaf == was.leaf && now.leafData == was.leafData && now.right == was.right
    && Cells(now) == Cells(was)[..first] + mid + Cells(was)[first..]
  }

  /** The dividers put in so far, and the pages before them. */
  ghost predicate MidFits(next: Store, mid: seq<Cell>, apCell: seq<Cell>, leaf: bool, table: bool, pgnoNew: seq<Pgno>, j: nat) {
    && |mid| < |pgnoNew| && j <= |apCell|
    && (forall m | 0 <= m < |mid| :: mid[m].child == pgnoNew[m] && (leaf && table ==> LastKey(next, mid[m])))
    && Under(next, mid, 0, |mid|, leaf, table) == ItemsOf(apCell, 0, j, leaf, table)
  }

  lemma MidStep(next: Store, mid: seq<Cell>, apCell: seq<Cell>, leaf: bool, table: bool, pgnoNew: seq<Pgno>, j: nat, c: nat)
    requires MidFits(next, mid, apCell, leaf, table, pgnoNew, j) && |mid| + 1 < |pgnoNew| && Distinct(pgnoNew)
    requires j <= c <= |apCell| && (if leaf && table then j < c else c < |apCell|)
    ensures var g := pgnoNew[|mid|];
      var d := NewDivider(leaf, table, apCell, c).(child := g);
      MidFits(next[g := NewPage(leaf, table, apCell, j, c)], mid + [d], apCell, leaf, table, pgnoNew, After(leaf, table, c))
  {
    var i := |mid|;
    var g, page := pgnoNew[i], NewPage(leaf, table, apCell, j, c);
    var d := NewDivider(leaf, table, apCell, c).(child := g);
    var after := next[g := page];
    forall m | 0 <= m < i ensures SameAt(next, after, mid[m].child) && (leaf && table ==> LastKey(after, mid[m])) {
      assert pgnoNew[m] != g;
      assert leaf && table ==> LastKey(next, mid[m]);
    }
    assert mid[0..i] == (mid + [d])[0..i];
    UnderSame(next, mid, 0, i, after, mid + [d], 0, i, leaf, table);
    PageAndDivider(leaf, table, apCell, j, c);
    assert ItemsAt(after, g) == PageItems(page) && Divider(d, leaf, table) == Divider(NewDivider(leaf, table, apCell, c), leaf, table);
    forall m | 0 <= m < i + 1
      ensures (mid + [d])[m].child == pgnoNew[m] && (leaf && table ==> LastKey(after, (mid + [d])[m]))
    {
      if m == i { assert leaf && table ==> Cells(page) == apCell[j..c]; }
    }
  }

  /** Put d in after mid and give it its child. */
  lemma ParentStep(was: Node, now: Node, first: nat, mid: seq<Cell>, c: Cell, g: Pgno, next: Node)
    requires ParentHas(was, now, first, mid) && first + |mid| <= |Cells(now)|
    requires next.leaf == now.leaf && next.leafData == now.leafData && next.right == now.right
    requires var i := first + |mid|; Cells(next) == PutIn(Cells(now), i, c)[i := c.(child := g)]
    ensures ParentHas(was, next, first, mid + [c.(child := g)])
  {
    var pre, post := Cells(was)[..first], Cells(was)[first..];
    assert PutIn(pre + mid + post, first + |mid|, c) == pre + mid + [c] + post;
    assert Cells(next) == pre + (mid + [c.(child := g)]) + post;
  }

  predicate AllNonEmpty(cnt: seq<nat>, leafData: bool) {
    forall p: nat | p < |cnt| :: NonEmpty(cnt, leafData, p)
  }

  /** What the cuts say about page i. */
  lemma CutFacts(cnt: seq<nat>, n: nat, leafData: bool, i: nat)
    requires Cuts(cnt, n, leafData) && i < |cnt|
    requires leafData && |cnt| > 1 ==> AllNonEmpty(cnt, leafData)
    ensures Start(cnt, i, leafData) <= cnt[i] <= n
    ensures i + 1 < |cnt| ==> if leafData then Start(cnt, i, leafData) < cnt[i] else cnt[i] < n
  {
    assert RunAt(cnt, n, leafData, i);
    if i + 1 < |cnt| {
      assert RunAt(cnt, n, leafData, i + 1);
      assert leafData ==> NonEmpty(cnt, leafData, i);
    }
  }

  /** The last page holds the rest of the cells. */
  lemma LastStep(next: Store, mid: seq<Cell>, apCell: seq<Cell>, leaf: bool, table: bool, pgnoNew: seq<Pgno>, j: nat, lastRight: Pgno)
    requires MidFits(next, mid, apCell, leaf, table, pgnoNew, j) && |mid| + 1 == |pgnoNew| && Distinct(pgnoNew)
    ensures var g := pgnoNew[|mid|];
      var after := next[g := Assembled(leaf, table, apCell[j..|apCell|], if leaf then 0 else lastRight)];
      && Then(Under(after, mid, 0, |mid|, leaf, table), ItemsAt(after, g)) == Then(Items(apCell, leaf, table), RightItem(leaf, lastRight))
      && forall m | 0 <= m < |mid| :: leaf && table ==> LastKey(after, mid[m])
  {
    var g, i := pgnoNew[|mid|], |mid|;
    var right := if leaf then 0 else lastRight;
    var after := next[g := Assembled(leaf, table, apCell[j..|apCell|], right)];
    forall m | 0 <= m < i ensures SameAt(next, after, mid[m].child) && (leaf && table ==> LastKey(after, mid[m])) {
      assert pgnoNew[m] != g;
      assert leaf && table ==> LastKey(next, mid[m]);
    }
    UnderSame(next, mid, 0, i, after, mid, 0, i, leaf, table);
    AssembledItems(leaf, table, apCell, j, |apCell|, right);
    ItemsSplit(apCell, 0, j, |apCell|, leaf, table);
    ThenThen(ItemsOf(apCell, 0, j, leaf, table), ItemsOf(apCell, j, |apCell|, leaf, table), RightItem(leaf, right));
  }

  /** The new pages and dividers hold the cells that were to be scattered. */
  ghost predicate ScatteredAll(next: Store, mid: seq<Cell>, apCell: seq<Cell>, leaf: bool, table: bool, pgnoNew: seq<Pgno>, lastRight: Pgno) {
    && |mid| + 1 == |pgnoNew|
    && (forall m | 0 <= m < |mid| :: mid[m].child == pgnoNew[m] && (leaf && table ==> LastKey(next, mid[m])))
    && Then(Under(next, mid, 0, |mid|, leaf, table), ItemsAt(next, pgnoNew[|mid|])) == Then(Items(apCell, leaf, table), RightItem(leaf, lastRight))
  }

  /** Each of the first i new pages has the run of cells that the cuts give it. */
  ghost predicate PagesAre(next: Store, pgnoNew: seq<Pgno>, apCell: seq<Cell>, cnt: seq<nat>, leaf: bool, table: bool, i: nat) {
    && i <= |cnt| == |pgnoNew| && forall m: nat | m < i :: PageIs(next, pgnoNew, apCell, cnt, leaf, table, m)
  }

  predicate PageIs(next: Store, pgnoNew: seq<Pgno>, apCell: seq<Cell>, cnt: seq<nat>, leaf: bool, table: bool, m: nat)
    requires m < |cnt| == |pgnoNew|
  {
    && RunAt(cnt, |apCell|, leaf && table, m) && pgnoNew[m] in next
    && var p := next[pgnoNew[m]];
       Cells(p) == apCell[Start(cnt, m, leaf && table)..cnt[m]] && p.leaf == leaf && p.leafData == table && p.aOvfl == []
  }

  lemma PagesStep(next: Store, pgnoNew: seq<Pgno>, apCell: seq<Cell>, cnt: seq<nat>, leaf: bool, table: bool, i: nat, right: Pgno)
    requires Distinct(pgnoNew) && i < |cnt| && PagesAre(next, pgnoNew, apCell, cnt, leaf, table, i)
    requires RunAt(cnt, |apCell|, leaf && table, i)
    ensures var page := Assembled(leaf, table, apCell[Start(cnt, i, leaf && table)..cnt[i]], right);
      PagesAre(next[pgnoNew[i] := page], pgnoNew, apCell, cnt, leaf, table, i + 1)
  {
    var after := next[pgnoNew[i] := Assembled(leaf, table, apCell[Start(cnt, i, leaf && table)..cnt[i]], right)];
    forall m: nat | m < i + 1 ensures PageIs(after, pgnoNew, apCell, cnt, leaf, table, m) {
      if m < i { assert PageIs(next, pgnoNew, apCell, cnt, leaf, table, m); }
    }
  }

  /** What scattering is given. */
  ghost predicate ScatterArgs(was: Node, first: nat, apCell: seq<Cell>, cnt: seq<nat>, pgnoNew: seq<Pgno>, leaf: bool, table: bool) {
    && Cuts(cnt, |apCell|, leaf && table) && |pgnoNew| == |cnt| && Distinct(pgnoNew) && first <= |Cells(was)|
    && (leaf && table && |cnt| > 1 ==> AllNonEmpty(cnt, leaf && table))
  }

  /** Where scattering is after |mid| pages; j is the first cell not used. */
  ghost predicate Scattering(pages: Store, was: Node, first: nat, apCell: seq<Cell>, cnt: seq<nat>, pgnoNew: seq<Pgno>,
                             leaf: bool, table: bool, next: Store, top: Node, mid: seq<Cell>, j: nat)
  {
    && MidFits(next, mid, apCell, leaf, table, pgnoNew, j) && |mid| < |cnt| && j == Start(cnt, |mid|, leaf && table)
    && ParentHas(was, top, first, mid) && Untouched(pages, next, pgnoNew)
    && PagesAre(next, pgnoNew, apCell, cnt, leaf, table, |mid|)
  }

  /** The divider after page i, with its child. */
  function DividerAt(apCell: seq<Cell>, cnt: seq<nat>, pgnoNew: seq<Pgno>, leaf: bool, table: bool, i: nat): Cell
    requires i < |cnt| == |pgnoNew| && cnt[i] <= |apCell| && (if leaf && table then 0 < cnt[i] else cnt[i] < |apCell|)
  {
    NewDivider(leaf, table, apCell, cnt[i]).(child := pgnoNew[i])
  }

  lemma ScatterStep(pages: Store, was: Node, first: nat, apCell: seq<Cell>, cnt: seq<nat>, pgnoNew: seq<Pgno>,
                    leaf: bool, table: bool, next: Store, top: Node, mid: seq<Cell>, j: nat, top1: Node)
    requires ScatterArgs(was, first, apCell, cnt, pgnoNew, leaf, table) && |mid| + 1 < |cnt|
    requires Scattering(pages, was, first, apCell, cnt, pgnoNew, leaf, table, next, top, mid, j)
    requires var c := cnt[|mid|]; j <= c <= |apCell| && if leaf && table then j < c else c < |apCell|
    requires ParentHas(was, top1, first, mid + [DividerAt(apCell, cnt, pgnoNew, leaf, table, |mid|)])
    ensures var c := cnt[|mid|];
      Scattering(pages, was, first, apCell, cnt, pgnoNew, leaf, table, next[pgnoNew[|mid|] := NewPage(leaf, table, apCell, j, c)],
                 top1, mid + [DividerAt(apCell, cnt, pgnoNew, leaf, table, |mid|)], After(leaf, table, c))
  {
    var c := cnt[|mid|];
    MidStep(next, mid, apCell, leaf, table, pgnoNew, j, c);
    assert RunAt(cnt, |apCell|, leaf && table, |mid|);
    PagesStep(next, pgnoNew, apCell, cnt, leaf, table, |mid|, if leaf then 0 else apCell[c].child);
    assert pgnoNew[|mid|] in pgnoNew;
  }

  /** One new page, not the last, and its divider. */
  method ScatterOne(ghost pages: Store, ghost was: Node, first: nat, apCell: seq<Cell>, cnt: seq<nat>, pgnoNew: seq<Pgno>,
                    leaf: bool, table: bool, next: Store, top: Node, ghost mid: seq<Cell>, i: nat, j: nat)
    returns (next1: Store, top1: Node, ghost mid1: seq<Cell>, j1: nat)
    requires ScatterArgs(was, first, apCell, cnt, pgnoNew, leaf, table) && i == |mid| && i + 1 < |cnt|
    requires Scattering(pages, was, first, apCell, cnt, pgnoNew, leaf, table, next, top, mid, j)
    ensures Scattering(pages, was, first, apCell, cnt, pgnoNew, leaf, table, next1, top1, mid1, j1) && |mid1| == |mid| + 1
  {
    CutFacts(cnt, |apCell|, leaf && table, i);
    var c, g := cnt[i], pgnoNew[i];
    var div := NewDivider(leaf, table, apCell, c);
    var put := InsertCell(top, first + i, div);
    top1 := PutChild(put, first + i, g);
    ParentStep(was, top, first, mid, div, g, top1);
    ScatterStep(pages, was, first, apCell, cnt, pgnoNew, leaf, table, next, top, mid, j, top1);
    next1 := next[g := NewPage(leaf, table, apCell, j, c)];
    mid1, j1 := mid + [div.(child := g)], After(leaf, table, c);
  }

  lemma ScatterEnd(pages: Store, was: Node, first: nat, apCell: seq<Cell>, cnt: seq<nat>, pgnoNew: seq<Pgno>,
                   leaf: bool, table: bool, next: Store, top: Node, mid: seq<Cell>, j: nat, lastRight: Pgno)
    requires ScatterArgs(was, first, apCell, cnt, pgnoNew, leaf, table) && |mid| + 1 == |cnt|
    requires Scattering(pages, was, first, apCell, cnt, pgnoNew, leaf, table, next, top, mid, j)
    ensures j <= cnt[|mid|] == |apCell| && first + |mid| <= |Cells(top)|
    ensures var after := next[pgnoNew[|mid|] := Assembled(leaf, table, apCell[j..|apCell|], if leaf then 0 else lastRight)];
      && ScatteredAll(after, mid, apCell, leaf, table, pgnoNew, lastRight) && Untouched(pages, after, pgnoNew)
      && PagesAre(after, pgnoNew, apCell, cnt, leaf, table, |cnt|)
  {
    LastStep(next, mid, apCell, leaf, table, pgnoNew, j, lastRight);
    assert RunAt(cnt, |apCell|, leaf && table, |mid|);
    PagesStep(next, pgnoNew, apCell, cnt, leaf, table, |mid|, if leaf then 0 else lastRight);
    assert pgnoNew[|mid|] in pgnoNew;
  }

  /** Make the new siblings out of the cells and put dividers into the parent
      from place first on; then make the last sibling the child of what follows. */
  method Scatter(pages: Store, was: Node, first: nat, apCell: seq<Cell>, cnt: seq<nat>, pgnoNew: seq<Pgno>,
                 leaf: bool, table: bool, lastRight: Pgno)
    returns (next: Store, top: Node, ghost mid: seq<Cell>, ghost before: Node)
    requires ScatterArgs(was, first, apCell, cnt, pgnoNew, leaf, table)
    ensures ScatteredAll(next, mid, apCell, leaf, table, pgnoNew, lastRight)
    ensures Untouched(pages, next, pgnoNew)
    ensures PagesAre(next, pgnoNew, apCell, cnt, leaf, table, |cnt|)
    ensures ParentHas(was, before, first, mid)
    ensures ChildSet(before, top, first + |mid|, pgnoNew[|mid|])
  {
    next, top, mid := pages, was, [];
    var i: nat, j: nat := 0, 0;
    assert Cells(was) == Cells(was)[..first] + [] + Cells(was)[first..];
    while i < |cnt| - 1
      invariant |mid| == i && Scattering(pages, was, first, apCell, cnt, pgnoNew, leaf, table, next, top, mid, j)
    {
      next, top, mid, j := ScatterOne(pages, was, first, apCell, cnt, pgnoNew, leaf, table, next, top, mid, i, j);
      i := i + 1;
    }
    ScatterEnd(pages, was, first, apCell, cnt, pgnoNew, leaf, table, next, top, mid, j, lastRight);
    next := next[pgnoNew[i] := Assembled(leaf, table, apCell[j..cnt[i]], if leaf then 0 else lastRight)];
    before := top;
    top := PutChild(top, first + i, pgnoNew[i]);
  }

  /** Only child i of the page has changed. */
  predicate ChildSet(p: Node, q: Node, i: nat, child: Pgno) {
    && i <= |Cells(p)| && q.leaf == p.leaf && q.leafData == p.leafData
    && Cells(q) == (if i < |Cells(p)| then Cells(p)[i := Cells(p)[i].(child := child)] else Cells(p))
    && q.right == if i < |Cells(p)| then p.right else child
  }
}
