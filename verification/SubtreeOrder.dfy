/** Balancing keeps the in-order sequence of all entries of the subtree, down to
    the leaves (btree.c:5057-5122, 5275-5387). */
module SubtreeOrder {
  import opened Balance
  import opened Packing
  import opened Rebalance
  import opened Walks
  import opened BalanceNonroot

  /** The entries met when every child is walked through, h levels down; with seps
      also the separators of a table. */
  function Expand(pages: Store, w: Walk, h: nat, seps: bool): Walk
    decreases h, w
  {
    match w
    case End => End
    case Step(Entry(k, b), rest) => Step(Entry(k, b), Expand(pages, rest, h, seps))
    case Step(Sep(k), rest) => if seps then Step(Sep(k), Expand(pages, rest, h, seps)) else Expand(pages, rest, h, seps)
    case Step(Sub(g), rest) =>
      Then(if h == 0 then End else Expand(pages, ItemsAt(pages, g), h - 1, seps), Expand(pages, rest, h, seps))
  }

  /** The entries, and with seps the separators, of the subtree of height h at a
      page, in order. */
  function InOrder(pages: Store, g: Pgno, h: nat, seps: bool): Walk {
    Expand(pages, ItemsAt(pages, g), h, seps)
  }

  lemma {:induction false} ExpandThen(pages: Store, a: Walk, b: Walk, h: nat, seps: bool)
    ensures Expand(pages, Then(a, b), h, seps) == Then(Expand(pages, a, h, seps), Expand(pages, b, h, seps))
  {
    match a
    case End =>
    case Step(Entry(_, _), rest) => ExpandThen(pages, rest, b, h, seps);
    case Step(Sep(_), rest) => ExpandThen(pages, rest, b, h, seps);
    case Step(Sub(g), rest) =>
      ExpandThen(pages, rest, b, h, seps);
      ThenThen(if h == 0 then End else Expand(pages, ItemsAt(pages, g), h - 1, seps), Expand(pages, rest, h, seps), Expand(pages, b, h, seps));
  }

  lemma ExpandSub(pages: Store, g: Pgno, h: nat, seps: bool)
    ensures Expand(pages, Step(Sub(g), End), h + 1, seps) == Expand(pages, ItemsAt(pages, g), h, seps)
  {
    ThenEnd(Expand(pages, ItemsAt(pages, g), h, seps));
  }

  lemma ExpandCell(pages: Store, c: Cell, leaf: bool, table: bool, h: nat, seps: bool)
    requires !(leaf && table && seps)
    ensures Expand(pages, CellItems(c, false, table), h + 1, seps)
         == Then(Expand(pages, ItemsAt(pages, c.child), h, seps), Divider(c, !seps, table))
    ensures Expand(pages, Divider(c, leaf, table), h, seps) == Divider(c, !seps, table)
  {
    assert Expand(pages, Divider(c, false, table), h + 1, seps) == Divider(c, !seps, table);
  }

  /** Walking through the cells of a parent is walking through what is below them. */
  lemma {:induction false} ExpandUnder(pages: Store, cs: seq<Cell>, b: nat, leaf: bool, table: bool, h: nat, seps: bool)
    requires b <= |cs| && !(leaf && table && seps)
    ensures Expand(pages, ItemsOf(cs, 0, b, false, table), h + 1, seps) == Expand(pages, Under(pages, cs, 0, b, leaf, table), h, seps)
  {
    if b > 0 {
      var c := cs[b - 1];
      var u, i, d := Under(pages, cs, 0, b - 1, leaf, table), ItemsAt(pages, c.child), Divider(c, leaf, table);
      ExpandUnder(pages, cs, b - 1, leaf, table, h, seps);
      ExpandThen(pages, ItemsOf(cs, 0, b - 1, false, table), CellItems(c, false, table), h + 1, seps);
      ExpandCell(pages, c, leaf, table, h, seps);
      ExpandThen(pages, Then(u, i), d, h, seps);
      ExpandThen(pages, u, i, h, seps);
      ThenThen(Expand(pages, u, h, seps), Expand(pages, i, h, seps), Divider(c, !seps, table));
    }
  }

  lemma ExpandBelow(pages: Store, g: Pgno, leaf: bool, h: nat, seps: bool)
    requires g in pages && !pages[g].leaf && !(leaf && pages[g].leafData && seps)
    ensures InOrder(pages, g, h + 1, seps) == Expand(pages, Below(pages, pages[g], leaf), h, seps)
  {
    var p := pages[g];
    var cs := Cells(p);
    ExpandThen(pages, Items(cs, false, p.leafData), Step(Sub(p.right), End), h + 1, seps);
    ExpandUnder(pages, cs, |cs|, leaf, p.leafData, h, seps);
    ExpandSub(pages, p.right, h, seps);
    ExpandThen(pages, Under(pages, cs, 0, |cs|, leaf, p.leafData), ItemsAt(pages, p.right), h, seps);
  }

  /** No page of the subtrees that a walk leads to is one of these. */
  ghost predicate Avoid(pages: Store, w: Walk, h: nat, touched: set<Pgno>)
    decreases h, w
  {
    match w
    case End => true
    case Step(Entry(_, _), rest) => Avoid(pages, rest, h, touched)
    case Step(Sep(_), rest) => Avoid(pages, rest, h, touched)
    case Step(Sub(g), rest) =>
      g !in touched && (h > 0 ==> Avoid(pages, ItemsAt(pages, g), h - 1, touched)) && Avoid(pages, rest, h, touched)
  }

  lemma {:induction false} ExpandFrame(pages: Store, after: Store, w: Walk, h: nat, touched: set<Pgno>, seps: bool)
    requires Avoid(pages, w, h, touched) && forall g :: g in touched || Kept(pages, after, g)
    ensures Expand(after, w, h, seps) == Expand(pages, w, h, seps)
    decreases h, w
  {
    match w
    case End =>
    case Step(Entry(_, _), rest) => ExpandFrame(pages, after, rest, h, touched, seps);
    case Step(Sep(_), rest) => ExpandFrame(pages, after, rest, h, touched, seps);
    case Step(Sub(g), rest) =>
      assert Kept(pages, after, g);
      ExpandFrame(pages, after, rest, h, touched, seps);
      if h > 0 { ExpandFrame(pages, after, ItemsAt(pages, g), h - 1, touched, seps); }
  }

  /** The pages that balancing writes or frees. */
  function Touched(p: Node, parent: Pgno, first: nat, n: nat, nums: seq<Pgno>): set<Pgno>
    requires first + n <= |p.cells| + 1
  {
    {parent} + (set g | g in nums) + Freed(p, first, n, 0)
  }

  /** In a tree, where the pages balancing touches do not occur again deeper
      down, balancing leaves the in-order sequence of the entries as it was; and
      that of entries and separators, except where the leaves of a table are
      balanced. */
  lemma BalancingKeepsOrder(pages: Store, after: Store, parent: Pgno, first: nat, n: nat, nums: seq<Pgno>, sizeOf: Cell -> nat, u: nat, h: nat, seps: bool)
    requires Rebalanced(pages, after, parent, first, n, nums, sizeOf, u) && !pages[parent].leaf
    requires var p := pages[parent]; var leaf := PageOf(pages, p.right).leaf;
      Avoid(pages, Below(pages, p, leaf), h, Touched(p, parent, first, n, nums)) && !(leaf && p.leafData && seps)
    ensures InOrder(after, parent, h + 1, seps) == InOrder(pages, parent, h + 1, seps)
  {
    var touched := Touched(pages[parent], parent, first, n, nums);
    var leaf := PageOf(pages, pages[parent].right).leaf;
    ExpandBelow(pages, parent, leaf, h, seps);
    ExpandBelow(after, parent, leaf, h, seps);
    UntouchedKept(pages, after, parent, first, n, nums, sizeOf, u);
    ExpandFrame(pages, after, Below(pages, pages[parent], leaf), h, touched, seps);
  }

  lemma UntouchedKept(pages: Store, after: Store, parent: Pgno, first: nat, n: nat, nums: seq<Pgno>, sizeOf: Cell -> nat, u: nat)
    requires Rebalanced(pages, after, parent, first, n, nums, sizeOf, u)
    ensures forall g :: g in Touched(pages[parent], parent, first, n, nums) || Kept(pages, after, g)
  {
    forall g ensures g in Touched(pages[parent], parent, first, n, nums) || Kept(pages, after, g) {
      assert g == parent || g in nums || g in Freed(pages[parent], first, n, 0) || Kept(pages, after, g);
    }
  }
}
