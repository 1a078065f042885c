/** The entries of a B-tree in order, and how they split at a place in the tree.
    A place is a page, a cell of it and the way up to the root, as a cursor keeps
    them (btree.c:3376-3441). */
module TreeOrder {
  import opened Balance
  import opened Rebalance
  import opened Walks
  import SubtreeOrder

  datatype Trail = Top | At(pgno: Pgno, idx: nat, up: Trail)

  function NodeAt(pages: Store, g: Pgno): Node {
    if g in pages then pages[g] else Page(true, true, [], [], 0)
  }

  // ---------------------------------------------------------------------
  // In-order entries
  // ---------------------------------------------------------------------

  /** The entries of the subtree of height h at a page. */
  function InOrder(pages: Store, g: Pgno, h: nat): Walk
    decreases h, 2, 0
  {
    From(pages, NodeAt(pages, g), 0, h)
  }

  /** The entries of child i. */
  function Beneath(pages: Store, p: Node, i: nat, h: nat): Walk
    decreases h, 0, 0
  {
    if p.leaf || h == 0 then End else InOrder(pages, Child(p, i), h - 1)
  }

  /** In a table the cells of inner pages are no entries. */
  function EntryOf(p: Node, i: nat): Walk
    requires i < |p.cells|
  {
    if p.leafData && !p.leaf then End else Step(Entry(p.cells[i].key, p.cells[i].body), End)
  }

  /** From child i on. */
  function From(pages: Store, p: Node, i: nat, h: nat): Walk
    decreases h, 1, |p.cells| - i
  {
    Then(Beneath(pages, p, i, h), if i < |p.cells| then Then(EntryOf(p, i), From(pages, p, i + 1, h)) else End)
  }

  /** From cell i on. */
  function Past(pages: Store, p: Node, i: nat, h: nat): Walk {
    if i < |p.cells| then Then(EntryOf(p, i), From(pages, p, i + 1, h)) else End
  }

  /** Before child i. */
  function UpTo(pages: Store, p: Node, i: nat, h: nat): Walk
    requires i <= |p.cells|
    decreases i
  {
    if i == 0 then End
    else Then(UpTo(pages, p, i - 1, h), Then(Beneath(pages, p, i - 1, h), EntryOf(p, i - 1)))
  }

  lemma {:induction false} UpToFrom(pages: Store, p: Node, i: nat, h: nat)
    requires i <= |p.cells|
    ensures Then(UpTo(pages, p, i, h), From(pages, p, i, h)) == From(pages, p, 0, h)
  {
    if i > 0 {
      UpToFrom(pages, p, i - 1, h);
      var u, b, e, f := UpTo(pages, p, i - 1, h), Beneath(pages, p, i - 1, h), EntryOf(p, i - 1), From(pages, p, i, h);
      ThenThen(u, Then(b, e), f);
      ThenThen(b, e, f);
    }
  }

  // ---------------------------------------------------------------------
  // Places
  // ---------------------------------------------------------------------

  /** What comes from the cell of a place on. */
  function Rest(pages: Store, t: Trail, h: nat): Walk {
    if t.Top? then End else Then(Past(pages, NodeAt(pages, t.pgno), t.idx, h), Rest(pages, t.up, h + 1))
  }

  /** What comes from the child left of that cell on. */
  function Full(pages: Store, t: Trail, h: nat): Walk {
    if t.Top? then End else Then(From(pages, NodeAt(pages, t.pgno), t.idx, h), Rest(pages, t.up, h + 1))
  }

  /** What comes before that child. */
  function Left(pages: Store, t: Trail, h: nat): Walk {
    if t.Top? then End
    else
      var p := NodeAt(pages, t.pgno);
      Then(Left(pages, t.up, h + 1), if t.idx <= |p.cells| then UpTo(pages, p, t.idx, h) else End)
  }

  lemma FullIsRest(pages: Store, t: Trail, h: nat)
    requires t.At?
    ensures Full(pages, t, h) == Then(Beneath(pages, NodeAt(pages, t.pgno), t.idx, h), Rest(pages, t, h))
  {
    var p := NodeAt(pages, t.pgno);
    ThenThen(Beneath(pages, p, t.idx, h), Past(pages, p, t.idx, h), Rest(pages, t.up, h + 1));
  }

  /** Going down to a child passes nothing. */
  lemma Down(pages: Store, t: Trail, h: nat)
    requires t.At? && h > 0 && !NodeAt(pages, t.pgno).leaf
    ensures var c := At(Child(NodeAt(pages, t.pgno), t.idx), 0, t);
      Full(pages, c, h - 1) == Full(pages, t, h) && Left(pages, c, h - 1) == Left(pages, t, h)
  {
    FullIsRest(pages, t, h);
    ThenEnd(Left(pages, t, h));
  }

  /** Where there are no more cells, what is left is what is left above. */
  lemma AtEnd(pages: Store, t: Trail, h: nat)
    requires t.At? && t.idx >= |NodeAt(pages, t.pgno).cells|
    ensures Rest(pages, t, h) == Rest(pages, t.up, h + 1)
  {
  }

  /** At an entry, what is left is that entry, and what comes after its cell. */
  lemma AtEntry(pages: Store, t: Trail, h: nat)
    requires t.At? && t.idx < |NodeAt(pages, t.pgno).cells|
    ensures var p := NodeAt(pages, t.pgno);
      Rest(pages, t, h) == Then(EntryOf(p, t.idx), Full(pages, At(t.pgno, t.idx + 1, t.up), h))
  {
    var p := NodeAt(pages, t.pgno);
    ThenThen(EntryOf(p, t.idx), From(pages, p, t.idx + 1, h), Rest(pages, t.up, h + 1));
  }

  // ---------------------------------------------------------------------
  // Well-formed trees
  // ---------------------------------------------------------------------

  /** All leaves are equally deep, and only the page g itself may have no cells. */
  ghost predicate Shape(pages: Store, g: Pgno, h: nat, table: bool)
    decreases h, 0
  {
    && g in pages && pages[g].aOvfl == [] && pages[g].leafData == table && (pages[g].leaf <==> h == 0)
    && (h > 0 ==> forall i: nat | i <= |pages[g].cells| :: Subtree(pages, Child(pages[g], i), h - 1, table))
  }

  ghost predicate Subtree(pages: Store, g: Pgno, h: nat, table: bool)
    decreases h, 1
  {
    Shape(pages, g, h, table) && |pages[g].cells| > 0
  }

  /** Only page 1 may hold nothing but a right child. */
  ghost predicate RootOk(pages: Store, root: Pgno, h: nat, table: bool) {
    Shape(pages, root, h, table) && (|pages[root].cells| == 0 && h > 0 ==> root == 1)
  }

  /** A place of the tree at root: page t.pgno is on level h, the root on level
      top. */
  ghost predicate OnPath(pages: Store, root: Pgno, top: nat, table: bool, t: Trail, h: nat) {
    && t.At? && Shape(pages, t.pgno, h, table) && t.idx <= |pages[t.pgno].cells|
    && if t.up.Top? then t.pgno == root && h == top
       else |pages[t.pgno].cells| > 0 && OnPath(pages, root, top, table, t.up, h + 1) && t.pgno == Child(pages[t.up.pgno], t.up.idx)
  }

  predicate OnCell(pages: Store, t: Trail) {
    t.At? && t.idx < |NodeAt(pages, t.pgno).cells|
  }

  /** The place is that of an entry. */
  predicate OnEntry(pages: Store, t: Trail) {
    OnCell(pages, t) && (NodeAt(pages, t.pgno).leaf || !NodeAt(pages, t.pgno).leafData)
  }

  lemma DownOnPath(pages: Store, root: Pgno, top: nat, table: bool, t: Trail, h: nat)
    requires OnPath(pages, root, top, table, t, h) && h > 0
    ensures OnPath(pages, root, top, table, At(Child(pages[t.pgno], t.idx), 0, t), h - 1)
  {
    assert Subtree(pages, Child(pages[t.pgno], t.idx), h - 1, table);
  }

  /** What is left of a place and what comes from there on is everything. */
  lemma {:induction false} LeftFull(pages: Store, root: Pgno, top: nat, table: bool, t: Trail, h: nat)
    requires OnPath(pages, root, top, table, t, h)
    ensures Then(Left(pages, t, h), Full(pages, t, h)) == InOrder(pages, root, top)
    decreases t
  {
    var p := NodeAt(pages, t.pgno);
    var l, u, f, r := Left(pages, t.up, h + 1), UpTo(pages, p, t.idx, h), From(pages, p, t.idx, h), Rest(pages, t.up, h + 1);
    ThenThen(l, u, Then(f, r));
    ThenThen(u, f, r);
    UpToFrom(pages, p, t.idx, h);
    if t.up.Top? {
      ThenEnd(From(pages, p, 0, h));
    } else {
      LeftFull(pages, root, top, table, t.up, h + 1);
      FullIsRest(pages, t.up, h + 1);
    }
  }

  // ---------------------------------------------------------------------
  // The order that balancing keeps
  // ---------------------------------------------------------------------

  /** The in-order entries here are those of SubtreeOrder, which balancing leaves
      as they are. */
  lemma {:induction false} SameOrder(pages: Store, g: Pgno, h: nat, table: bool)
    requires Shape(pages, g, h, table)
    ensures SubtreeOrder.InOrder(pages, g, h, false) == InOrder(pages, g, h)
    decreases h, |pages[g].cells| + 1
  {
    var p := pages[g];
    var n := |p.cells|;
    UpToSame(pages, g, n, h, table);
    UpToFrom(pages, p, n, h);
    ThenEnd(Beneath(pages, p, n, h));
    SubtreeOrder.ExpandThen(pages, Items(p.cells, p.leaf, table), RightItem(p.leaf, p.right), h, false);
    if h > 0 {
      assert Subtree(pages, Child(p, n), h - 1, table);
      SameOrder(pages, p.right, h - 1, table);
      ThenEnd(InOrder(pages, p.right, h - 1));
    }
  }

  lemma {:induction false} UpToSame(pages: Store, g: Pgno, n: nat, h: nat, table: bool)
    requires Shape(pages, g, h, table) && n <= |pages[g].cells|
    ensures SubtreeOrder.Expand(pages, ItemsOf(pages[g].cells, 0, n, pages[g].leaf, table), h, false) == UpTo(pages, pages[g], n, h)
    decreases h, n
  {
    if n > 0 {
      var p := pages[g];
      UpToSame(pages, g, n - 1, h, table);
      SubtreeOrder.ExpandThen(pages, ItemsOf(p.cells, 0, n - 1, p.leaf, table), CellItems(p.cells[n - 1], p.leaf, table), h, false);
      if h > 0 {
        assert Subtree(pages, Child(p, n - 1), h - 1, table);
        SameOrder(pages, Child(p, n - 1), h - 1, table);
        SubtreeOrder.ExpandCell(pages, p.cells[n - 1], false, table, h - 1, false);
      }
    }
  }
}
