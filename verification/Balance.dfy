/** What balance_nonroot does to the contents of a B-tree (btree.c:4860-5425):
    the cells of up to three siblings and the dividers between them are gathered,
    then scattered over new siblings. */
module Balance {
  import opened Packing
  import opened Walks

  /** A cell: its key, the rest of its contents, and its left child where the
      page is not a leaf. */
  datatype Cell = Cell(key: int, body: nat, child: Pgno)

  /** A cell that found no room on its page, and where it belongs. */
  datatype Ovfl = Ovfl(cell: Cell, idx: nat)

  /** leafData says that the tree is a table: only its leaves hold entries. */
  datatype Page = Page(leaf: bool, leafData: bool, cells: seq<Cell>, aOvfl: seq<Ovfl>, right: Pgno)

  // ---------------------------------------------------------------------
  // Overflow cells
  // ---------------------------------------------------------------------

  function PutIn(s: seq<Cell>, i: nat, c: Cell): (r: seq<Cell>)
    requires i <= |s|
    ensures |r| == |s| + 1
  {
    s[..i] + [c] + s[i..]
  }

  predicate Placed(cells: seq<Cell>, aOvfl: seq<Ovfl>) {
    forall k | 0 <= k < |aOvfl| :: aOvfl[k].idx <= |cells| + k
  }

  /** The cells of a page in order: each overflow cell put in, one after the
      other, at the place it was meant for. */
  function Logical(cells: seq<Cell>, aOvfl: seq<Ovfl>): (r: seq<Cell>)
    requires Placed(cells, aOvfl)
    ensures |r| == |cells| + |aOvfl|
  {
    if aOvfl == [] then cells
    else
      var o := aOvfl[|aOvfl| - 1];
      PutIn(Logical(cells, aOvfl[..|aOvfl| - 1]), o.idx, o.cell)
  }

  /** Where a cell of a page is: in aOvfl or in the cell pointer array. */
  datatype Spot = InOvfl(i: nat) | OnPage(i: nat)

  /** findOverflowCell: from the last overflow cell back to the first. */
  method FindOverflowCell(cells: seq<Cell>, aOvfl: seq<Ovfl>, iCell: nat) returns (s: Spot)
    requires Placed(cells, aOvfl) && iCell < |cells| + |aOvfl|
    ensures s == SpotOf(cells, aOvfl, iCell)
  {
    var i: nat, c: nat := |aOvfl|, iCell;
    assert aOvfl[..i] == aOvfl;
    while i > 0
      invariant i <= |aOvfl| && c < |cells| + i
      invariant SpotOf(cells, aOvfl, iCell) == SpotOf(cells, aOvfl[..i], c)
    {
      i := i - 1;
      assert aOvfl[..i + 1][..i] == aOvfl[..i];
      var k := aOvfl[i].idx;
      if k <= c {
        if k == c { return Spot.InOvfl(i); }
        c := c - 1;
      }
    }
    return OnPage(c);
  }

  function SpotOf(cells: seq<Cell>, aOvfl: seq<Ovfl>, iCell: nat): (s: Spot)
    requires Placed(cells, aOvfl) && iCell < |cells| + |aOvfl|
    ensures s.InOvfl? ==> s.i < |aOvfl|
    ensures s.OnPage? ==> s.i < |cells|
  {
    var n := |aOvfl| - 1;
    if n < 0 then OnPage(iCell)
    else if aOvfl[n].idx == iCell then InOvfl(n)
    else SpotOf(cells, aOvfl[..n], if aOvfl[n].idx < iCell then iCell - 1 else iCell)
  }

  function CellAt(cells: seq<Cell>, aOvfl: seq<Ovfl>, s: Spot): Cell
    requires if s.InOvfl? then s.i < |aOvfl| else s.i < |cells|
  {
    if s.InOvfl? then aOvfl[s.i].cell else cells[s.i]
  }

  /** findOverflowCell finds the cell that has the given place in the page's
      logical order, for any number of overflow cells. */
  lemma {:induction false} FindsLogical(cells: seq<Cell>, aOvfl: seq<Ovfl>, iCell: nat)
    requires Placed(cells, aOvfl) && iCell < |cells| + |aOvfl|
    ensures CellAt(cells, aOvfl, SpotOf(cells, aOvfl, iCell)) == Logical(cells, aOvfl)[iCell]
  {
    var n := |aOvfl| - 1;
    if n >= 0 && aOvfl[n].idx != iCell {
      FindsLogical(cells, aOvfl[..n], if aOvfl[n].idx < iCell then iCell - 1 else iCell);
    }
  }

  /** Change the child pointer of the cell at a spot. */
  function SetChild(p: Page, s: Spot, child: Pgno): (q: Page)
    requires if s.InOvfl? then s.i < |p.aOvfl| else s.i < |p.cells|
  {
    if s.InOvfl? then
      var o := p.aOvfl[s.i];
      p.(aOvfl := p.aOvfl[s.i := Ovfl(o.cell.(child := child), o.idx)])
    else p.(cells := p.cells[s.i := p.cells[s.i].(child := child)])
  }

  /** Different places of the logical order are different spots. */
  lemma {:induction false} SpotsDiffer(cells: seq<Cell>, aOvfl: seq<Ovfl>, i: nat, j: nat)
    requires Placed(cells, aOvfl) && i < |cells| + |aOvfl| && j < |cells| + |aOvfl| && i != j
    ensures SpotOf(cells, aOvfl, i) != SpotOf(cells, aOvfl, j)
  {
    var n := |aOvfl| - 1;
    if n >= 0 && aOvfl[n].idx != i && aOvfl[n].idx != j {
      SpotsDiffer(cells, aOvfl[..n], if aOvfl[n].idx < i then i - 1 else i, if aOvfl[n].idx < j then j - 1 else j);
    }
  }

  /** Where a cell is does not depend on what the cells are. */
  lemma {:induction false} SpotSame(cells: seq<Cell>, a: seq<Ovfl>, cells2: seq<Cell>, a2: seq<Ovfl>, i: nat)
    requires Placed(cells, a) && Placed(cells2, a2) && i < |cells| + |a| && |cells2| == |cells| && |a2| == |a|
    requires forall k | 0 <= k < |a| :: a2[k].idx == a[k].idx
    ensures SpotOf(cells2, a2, i) == SpotOf(cells, a, i)
  {
    var n := |a| - 1;
    if n >= 0 && a[n].idx != i {
      SpotSame(cells, a[..n], cells2, a2[..n], if a[n].idx < i then i - 1 else i);
    }
  }

  lemma SetChildPlaced(p: Page, s: Spot, child: Pgno)
    requires Placed(p.cells, p.aOvfl) && if s.InOvfl? then s.i < |p.aOvfl| else s.i < |p.cells|
    ensures var q := SetChild(p, s, child);
      && |q.cells| == |p.cells| && |q.aOvfl| == |p.aOvfl| && Placed(q.cells, q.aOvfl)
      && forall k | 0 <= k < |p.aOvfl| :: q.aOvfl[k].idx == p.aOvfl[k].idx
  {
  }

  lemma SetChildCell(p: Page, s: Spot, child: Pgno, t: Spot)
    requires if s.InOvfl? then s.i < |p.aOvfl| else s.i < |p.cells|
    requires if t.InOvfl? then t.i < |p.aOvfl| else t.i < |p.cells|
    ensures var q := SetChild(p, s, child);
      && |q.cells| == |p.cells| && |q.aOvfl| == |p.aOvfl|
      && var c := CellAt(p.cells, p.aOvfl, t); CellAt(q.cells, q.aOvfl, t) == if t == s then c.(child := child) else c
  {
  }

  lemma SetChildAt(p: Page, i: nat, child: Pgno, k: nat)
    requires Placed(p.cells, p.aOvfl) && i < |p.cells| + |p.aOvfl| && k < |p.cells| + |p.aOvfl|
    ensures var q := SetChild(p, SpotOf(p.cells, p.aOvfl, i), child);
      var was := Logical(p.cells, p.aOvfl);
      Placed(q.cells, q.aOvfl) && Logical(q.cells, q.aOvfl)[k] == if k == i then was[i].(child := child) else was[k]
  {
    var s, t := SpotOf(p.cells, p.aOvfl, i), SpotOf(p.cells, p.aOvfl, k);
    var q := SetChild(p, s, child);
    SetChildPlaced(p, s, child);
    SetChildCell(p, s, child, t);
    SpotSame(p.cells, p.aOvfl, q.cells, q.aOvfl, k);
    FindsLogical(p.cells, p.aOvfl, k);
    FindsLogical(q.cells, q.aOvfl, k);
    if k != i { SpotsDiffer(p.cells, p.aOvfl, k, i); }
  }

  /** Changing a child pointer changes just that cell of the logical order. */
  lemma SetChildLogical(p: Page, i: nat, child: Pgno)
    requires Placed(p.cells, p.aOvfl) && i < |p.cells| + |p.aOvfl|
    ensures var q := SetChild(p, SpotOf(p.cells, p.aOvfl, i), child);
      var was := Logical(p.cells, p.aOvfl);
      Placed(q.cells, q.aOvfl) && Logical(q.cells, q.aOvfl) == was[i := was[i].(child := child)]
  {
    var q := SetChild(p, SpotOf(p.cells, p.aOvfl, i), child);
    var was := Logical(p.cells, p.aOvfl);
    SetChildAt(p, i, child, i);
    forall k: nat | k < |was| ensures Logical(q.cells, q.aOvfl)[k] == if k == i then was[i].(child := child) else was[k] {
      SetChildAt(p, i, child, k);
    }
  }
}
