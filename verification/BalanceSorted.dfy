/** Balancing and searching: after balance_nonroot every divider still separates
    its two sides, so sqlite3BtreeMoveto can search the tree as before
    (btree.c:4860-5425, 3684-3765). */
module BalanceSorted {
  import opened Balance
  import opened Rebalance
  import opened Walks
  import opened BalanceNonroot
  import SubtreeOrder
  import opened TreeOrder
  import KeyOrder

  // ---------------------------------------------------------------------
  // Search order is an ascending walk
  // ---------------------------------------------------------------------

  /** A page with every overflow cell put in at its place. */
  function Settled(p: Node): Node {
    Page(p.leaf, p.leafData, Cells(p), [], p.right)
  }

  function Settle(pages: Store): Store {
    map g | g in pages :: Settled(pages[g])
  }

  function ItemRank(i: Item): int {
    match i
    case Entry(k, _) => KeyOrder.Rank(k, false)
    case Sep(k) => KeyOrder.Rank(k, true)
    case Sub(_) => 0
  }

  /** Entries and separators between lo and hi, each after the one before. */
  predicate Rising(w: Walk, lo: int, hi: int) {
    w.Step? ==> !w.item.Sub? && lo < ItemRank(w.item) < hi && Rising(w.rest, ItemRank(w.item), hi)
  }

  lemma {:induction false} RisingSplit(a: Walk, x: Item, b: Walk, lo: int, hi: int)
    ensures Rising(Then(a, Step(x, b)), lo, hi)
       <==> !x.Sub? && lo < ItemRank(x) < hi && Rising(a, lo, ItemRank(x)) && Rising(b, ItemRank(x), hi)
  {
    if a.Step? { RisingSplit(a.rest, x, b, ItemRank(a.item), hi); }
  }

  /** What is met on a page from child i on. */
  function ItemsFrom(p: Node, i: nat): Walk
    requires i <= |Cells(p)|
  {
    Then(ItemsOf(Cells(p), i, |Cells(p)|, p.leaf, p.leafData), RightItem(p.leaf, p.right))
  }

  lemma ItemsFromStep(p: Node, i: nat)
    requires i < |Cells(p)|
    ensures ItemsFrom(p, i) == Then(CellItems(Cells(p)[i], p.leaf, p.leafData), ItemsFrom(p, i + 1))
  {
    var cs := Cells(p);
    ItemsSplit(cs, i, i + 1, |cs|, p.leaf, p.leafData);
    assert ItemsOf(cs, i, i, p.leaf, p.leafData) == End;
    ThenThen(CellItems(cs[i], p.leaf, p.leafData), ItemsOf(cs, i + 1, |cs|, p.leaf, p.leafData), RightItem(p.leaf, p.right));
  }

  /** What is met in the subtree of child i, when there is one. */
  function Under1(pages: Store, g: Pgno, h: nat): Walk {
    if h == 0 then End else SubtreeOrder.Expand(pages, ItemsAt(pages, g), h - 1, true)
  }

  /** The cell at i and the child left of it, walked through. */
  lemma ExpandFrom(pages: Store, p: Node, i: nat, h: nat)
    requires i < |Cells(p)|
    ensures var c := Cells(p)[i]; var rest := SubtreeOrder.Expand(pages, ItemsFrom(p, i + 1), h, true);
      SubtreeOrder.Expand(pages, ItemsFrom(p, i), h, true)
      == if p.leaf then Step(Entry(c.key, c.body), rest)
         else Then(Under1(pages, c.child, h), Step(if p.leafData then Sep(c.key) else Entry(c.key, c.body), rest))
  {
    ItemsFromStep(p, i);
    var c := Cells(p)[i];
    if !p.leaf {
      var x := if p.leafData then Sep(c.key) else Entry(c.key, c.body);
      var w := Step(x, ItemsFrom(p, i + 1));
      assert Then(Divider(c, false, p.leafData), ItemsFrom(p, i + 1)) == w;
      assert SubtreeOrder.Expand(pages, w, h, true) == Step(x, SubtreeOrder.Expand(pages, ItemsFrom(p, i + 1), h, true));
      assert ItemsFrom(p, i) == Step(Sub(c.child), w);
    }
  }

  /** No page has overflow cells. */
  ghost predicate Flat(pages: Store) {
    forall g | g in pages :: pages[g].aOvfl == []
  }

  /** A subtree is in search order just when walking through it meets entries and
      separators in ascending order. */
  lemma {:induction false} SortedRises(pages: Store, p: Node, i: nat, h: nat, lo: int, hi: int)
    requires Flat(pages) && p.aOvfl == [] && i <= |p.cells|
    ensures KeyOrder.Sorted(pages, p, i, h, lo, hi) <==> Rising(SubtreeOrder.Expand(pages, ItemsFrom(p, i), h, true), lo, hi)
    decreases h, 1, |p.cells| - i
  {
    if i < |p.cells| {
      var r := KeyOrder.CellRank(p, i);
      var c := p.cells[i];
      var x := if p.leafData && !p.leaf then Sep(c.key) else Entry(c.key, c.body);
      ExpandFrom(pages, p, i, h);
      SortedRises(pages, p, i + 1, h, r, hi);
      RisingSplit(if p.leaf then End else Under1(pages, c.child, h), x, SubtreeOrder.Expand(pages, ItemsFrom(p, i + 1), h, true), lo, hi);
      ChildRises(pages, p, i, h, lo, r);
    } else if !p.leaf {
      ThenEnd(Under1(pages, p.right, h));
      ChildRises(pages, p, i, h, lo, hi);
    }
  }

  lemma {:induction false} ChildRises(pages: Store, p: Node, i: nat, h: nat, lo: int, hi: int)
    requires Flat(pages) && p.aOvfl == [] && i <= |p.cells|
    ensures h == 0 || KeyOrder.Sorted(pages, NodeAt(pages, Child(p, i)), 0, h - 1, lo, hi) <==> Rising(Under1(pages, Child(p, i), h), lo, hi)
    decreases h, 0, 0
  {
    if h > 0 && Child(p, i) in pages { SortedRises(pages, pages[Child(p, i)], 0, h - 1, lo, hi); }
  }

  lemma {:induction false} SettledExpand(pages: Store, w: Walk, h: nat)
    ensures SubtreeOrder.Expand(Settle(pages), w, h, true) == SubtreeOrder.Expand(pages, w, h, true)
    decreases h, w
  {
    match w
    case End =>
    case Step(Entry(_, _), rest) => SettledExpand(pages, rest, h);
    case Step(Sep(_), rest) => SettledExpand(pages, rest, h);
    case Step(Sub(g), rest) =>
      SettledExpand(pages, rest, h);
      assert ItemsAt(Settle(pages), g) == ItemsAt(pages, g);
      if h > 0 { SettledExpand(pages, ItemsAt(pages, g), h - 1); }
  }

  /** The subtree at a page, with all overflow cells at their places, is in search
      order. */
  ghost predicate SortedAt(pages: Store, g: Pgno, h: nat, lo: int, hi: int) {
    KeyOrder.Sorted(Settle(pages), NodeAt(Settle(pages), g), 0, h, lo, hi)
  }

  lemma SortedWalk(pages: Store, g: Pgno, h: nat, lo: int, hi: int)
    requires g in pages
    ensures SortedAt(pages, g, h, lo, hi) <==> Rising(SubtreeOrder.InOrder(pages, g, h, true), lo, hi)
  {
    SortedRises(Settle(pages), Settle(pages)[g], 0, h, lo, hi);
    SettledExpand(pages, ItemsAt(pages, g), h);
  }

  // ---------------------------------------------------------------------
  // Separators made anew
  // ---------------------------------------------------------------------

  /** A walk without its separators. */
  function Drop(w: Walk): Walk {
    if w.End? then End else if w.item.Sep? then Drop(w.rest) else Step(w.item, Drop(w.rest))
  }

  lemma {:induction false} DropThen(a: Walk, b: Walk)
    ensures Drop(Then(a, b)) == Then(Drop(a), Drop(b))
  {
    if a.Step? { DropThen(a.rest, b); }
  }

  /** Entries, and separators each of which comes between the entry with its key
      and the next entry. */
  predicate Marked(w: Walk) {
    w.End? ||
    (&& w.item.Entry?
     && if w.rest.Step? && w.rest.item.Sep? then w.rest.item.key == w.item.key && w.rest.rest.Step? && Marked(w.rest.rest)
        else Marked(w.rest))
  }

  lemma {:induction false} RisingLower(w: Walk, lo: int, hi: int, l: int)
    requires Rising(w, lo, hi) && l <= lo
    ensures Rising(w, l, hi)
  {
  }

  /** Taking separators out leaves a walk ascending. */
  lemma {:induction false} DropRises(m: Walk, t: Walk, lo: int, hi: int)
    requires Rising(Then(m, t), lo, hi)
    ensures Rising(Then(Drop(m), t), lo, hi)
  {
    if m.Step? {
      DropRises(m.rest, t, ItemRank(m.item), hi);
      if m.item.Sep? { RisingLower(Then(Drop(m.rest), t), ItemRank(m.item), hi, lo); }
    }
  }

  /** So does putting them in after the entry with their key. */
  lemma {:induction false} MarkRises(m: Walk, t: Walk, lo: int, hi: int)
    requires Marked(m) && Rising(Then(Drop(m), t), lo, hi)
    ensures Rising(Then(m, t), lo, hi)
  {
    if m.Step? {
      var r := m.rest;
      if r.Step? && r.item.Sep? {
        assert Drop(m) == Step(m.item, Drop(r.rest));
        MarkRises(r.rest, t, ItemRank(r.item), hi);
      } else {
        MarkRises(r, t, ItemRank(m.item), hi);
      }
    }
  }

  /** Other separators in the middle of a walk. */
  lemma {:induction false} MarkedAnew(a: Walk, m: Walk, m2: Walk, t: Walk, lo: int, hi: int)
    requires Drop(m) == Drop(m2) && Marked(m2) && Rising(Then(a, Then(m, t)), lo, hi)
    ensures Rising(Then(a, Then(m2, t)), lo, hi)
  {
    if a.Step? {
      MarkedAnew(a.rest, m, m2, t, ItemRank(a.item), hi);
    } else {
      DropRises(m, t, lo, hi);
      MarkRises(m2, t, lo, hi);
    }
  }

  // ---------------------------------------------------------------------
  // What balancing the leaves of a table makes
  // ---------------------------------------------------------------------

  /** Nothing to descend into. */
  predicate Plain(w: Walk) {
    w.Step? ==> !w.item.Sub? && Plain(w.rest)
  }

  lemma {:induction false} PlainDrop(w: Walk)
    ensures Plain(Drop(w)) <==> Plain(w)
  {
    if w.Step? { PlainDrop(w.rest); }
  }

  lemma {:induction false} MarkedPlain(w: Walk)
    requires Marked(w)
    ensures Plain(w)
    decreases w
  {
    if w.Step? { MarkedPlain(if w.rest.Step? && w.rest.item.Sep? then w.rest.rest else w.rest); }
  }

  lemma {:induction false} ExpandPlain(pages: Store, w: Walk, h: nat)
    requires Plain(w)
    ensures SubtreeOrder.Expand(pages, w, h, true) == w
  {
    if w.Step? { ExpandPlain(pages, w.rest, h); }
  }

  /** Whether the separators between them are looked at or not, below the children
      there are the same entries. */
  lemma {:induction false} DropUnder(pages: Store, cs: seq<Cell>, a: nat, b: nat)
    requires a <= b <= |cs|
    ensures Drop(Under(pages, cs, a, b, false, true)) == Drop(Under(pages, cs, a, b, true, true))
  {
    if a < b {
      DropUnder(pages, cs, a, b - 1);
      var u, v, i, d := Under(pages, cs, a, b - 1, false, true), Under(pages, cs, a, b - 1, true, true),
                        ItemsAt(pages, cs[b - 1].child), Divider(cs[b - 1], false, true);
      DropThen(Then(u, i), d);
      DropThen(u, i);
      DropThen(v, i);
      ThenEnd(Then(v, i));
      ThenEnd(Drop(Then(u, i)));
    }
  }

  /** The cells of a leaf, and something after them. */
  lemma {:induction false} EntriesMarked(cs: seq<Cell>, b: nat, w: Walk)
    requires b <= |cs| && Marked(w)
    ensures Marked(Then(ItemsOf(cs, 0, b, true, true), w)) && (b > 0 ==> Then(ItemsOf(cs, 0, b, true, true), w).Step?)
  {
    if b > 0 {
      var e := CellItems(cs[b - 1], true, true);
      ThenThen(ItemsOf(cs, 0, b - 1, true, true), e, w);
      assert Then(e, w) == Step(e.item, w);
      EntriesMarked(cs, b - 1, Step(e.item, w));
      if b == 1 { assert ItemsOf(cs, 0, 0, true, true) == End; }
    }
  }

  /** A leaf with entries, a divider with the last key, and something after it. */
  lemma LeafMarked(pages: Store, c: Cell, w: Walk)
    requires LastKey(pages, c) && pages[c.child].leaf && pages[c.child].leafData && Marked(w) && w.Step?
    ensures var m := Then(Then(ItemsAt(pages, c.child), Divider(c, false, true)), w); Marked(m) && m.Step?
  {
    var cs := Cells(pages[c.child]);
    var n := |cs|;
    var e, d := CellItems(cs[n - 1], true, true), Step(Sep(c.key), w);
    ThenEnd(Items(cs, true, true));
    ThenThen(Items(cs, true, true), Divider(c, false, true), w);
    ThenThen(ItemsOf(cs, 0, n - 1, true, true), e, d);
    assert Then(e, d) == Step(e.item, d);
    EntriesMarked(cs, n - 1, Step(e.item, d));
    if n == 1 { assert ItemsOf(cs, 0, 0, true, true) == End; }
  }

  /** A new sibling and the divider after it. */
  predicate Marks(after: Store, c: Cell) {
    LastKey(after, c) && after[c.child].leaf && after[c.child].leafData
  }

  lemma {:induction false} UnderMarked(after: Store, cs: seq<Cell>, a: nat, b: nat, w: Walk)
    requires a <= b <= |cs| && Marked(w) && w.Step?
    requires forall i: nat | a <= i < b :: Marks(after, cs[i])
    ensures var m := Then(Under(after, cs, a, b, false, true), w); Marked(m) && m.Step?
  {
    if a < b {
      var c := cs[b - 1];
      assert Marks(after, c);
      var u, i, d := Under(after, cs, a, b - 1, false, true), ItemsAt(after, c.child), Divider(c, false, true);
      LeafMarked(after, c, w);
      UnderMarked(after, cs, a, b - 1, Then(Then(i, d), w));
      ThenThen(u, i, d);
      ThenThen(u, Then(i, d), w);
    }
  }

  /** What is below a page: below the children before first, below n children from
      there on, and after that. */
  lemma BelowParts(pages: Store, cs: seq<Cell>, right: Pgno, first: nat, n: nat, leaf: bool, table: bool)
    requires 0 < n && first + n <= |cs| + 1
    ensures AllUnder(pages, cs, right, leaf, table)
         == Then(Under(pages, cs, 0, first, leaf, table),
                 Then(Middle(pages, cs, right, first, n, leaf, table), Tail(pages, cs, right, first + n - 1, leaf, table)))
  {
    var k := first + n - 1;
    var a, u, i := Under(pages, cs, 0, first, leaf, table), Under(pages, cs, first, k, leaf, table), ItemsAt(pages, ChildOf(cs, right, k));
    BelowAt(pages, cs, right, leaf, table, k);
    UnderSplit(pages, cs, 0, first, k, leaf, table);
    ThenThen(a, u, i);
    ThenThen(a, Then(u, i), Tail(pages, cs, right, k, leaf, table));
  }

  lemma DropMiddle(pages: Store, cs: seq<Cell>, right: Pgno, first: nat, n: nat)
    requires 0 < n && first + n <= |cs| + 1
    ensures Drop(Middle(pages, cs, right, first, n, false, true)) == Drop(Middle(pages, cs, right, first, n, true, true))
  {
    var i := ItemsAt(pages, ChildOf(cs, right, first + n - 1));
    DropUnder(pages, cs, first, first + n - 1);
    DropThen(Under(pages, cs, first, first + n - 1, false, true), i);
    DropThen(Under(pages, cs, first, first + n - 1, true, true), i);
  }

  /** Two cells with the same key, that lead to the same. */
  predicate CellAlike(pages: Store, c: Cell, next: Store, d: Cell) {
    c.key == d.key && ItemsAt(pages, c.child) == ItemsAt(next, d.child)
  }

  predicate AlikeBoth(pages: Store, cs: seq<Cell>, a: nat, next: Store, ds: seq<Cell>, c: nat, i: nat) {
    a + i < |cs| && c + i < |ds| && CellAlike(pages, cs[a + i], next, ds[c + i])
  }

  lemma {:induction false} UnderAlike(pages: Store, cs: seq<Cell>, a: nat, b: nat, next: Store, ds: seq<Cell>, c: nat, d: nat)
    requires a <= b <= |cs| && c <= d <= |ds| && b - a == d - c
    requires forall i: nat | i < b - a :: AlikeBoth(pages, cs, a, next, ds, c, i)
    ensures Under(pages, cs, a, b, false, true) == Under(next, ds, c, d, false, true)
  {
    if a < b {
      var i: nat := b - a - 1;
      assert AlikeBoth(pages, cs, a, next, ds, c, i);
      UnderAlike(pages, cs, a, b - 1, next, ds, c, d - 1);
    }
  }

  /** The leaves of a table have been balanced. */
  ghost predicate BalancedLeaves(pages: Store, after: Store, parent: Pgno, first: nat, n: nat, nums: seq<Pgno>, sizeOf: Cell -> nat, u: nat) {
    && Rebalanced(pages, after, parent, first, n, nums, sizeOf, u)
    && var p := pages[parent]; !p.leaf && p.leafData && PageOf(pages, p.right).leaf
  }

  /** Where a child outside the siblings is after balancing. */
  lemma OutsideAlike(pages: Store, after: Store, parent: Pgno, first: nat, n: nat, nums: seq<Pgno>, sizeOf: Cell -> nat, u: nat, i: nat)
    requires BalancedLeaves(pages, after, parent, first, n, nums, sizeOf, u)
    ensures var p, cs := pages[parent], Cells(after[parent]);
      && (i < first ==> i < |cs| && CellAlike(pages, p.cells[i], after, cs[i]))
      && (first + n <= i < |p.cells| ==> i + |nums| - n < |cs| && CellAlike(pages, p.cells[i], after, cs[i + |nums| - n]))
      && (first + n <= |p.cells| ==> ItemsAt(pages, p.right) == ItemsAt(after, after[parent].right))
  {
    var p, q := pages[parent], after[parent];
    var cs := Cells(q);
    if i < first {
      assert ChildOf(cs, q.right, i) == ChildAfter(p, first, n, nums, i);
      assert Kept(pages, after, Child(p, i));
    } else if first + n <= i < |p.cells| {
      var j: nat := i + |nums| - n;
      assert ChildOf(cs, q.right, j) == ChildAfter(p, first, n, nums, j);
      assert Kept(pages, after, Child(p, i));
      assert cs[j].key == p.cells[j + n - |nums|].key;
    }
    if first + n <= |p.cells| {
      assert ChildOf(cs, q.right, |cs|) == ChildAfter(p, first, n, nums, |cs|);
      assert Kept(pages, after, Child(p, |p.cells|));
    }
  }

  /** What is before the siblings and after them is met as before. */
  lemma HeadKept(pages: Store, after: Store, parent: Pgno, first: nat, n: nat, nums: seq<Pgno>, sizeOf: Cell -> nat, u: nat)
    requires BalancedLeaves(pages, after, parent, first, n, nums, sizeOf, u)
    ensures var cs := Cells(after[parent]);
      first <= |cs| && Under(after, cs, 0, first, false, true) == Under(pages, pages[parent].cells, 0, first, false, true)
  {
    var p, cs := pages[parent], Cells(after[parent]);
    forall i: nat | i < first ensures AlikeBoth(pages, p.cells, 0, after, cs, 0, i) {
      OutsideAlike(pages, after, parent, first, n, nums, sizeOf, u, i);
    }
    UnderAlike(pages, p.cells, 0, first, after, cs, 0, first);
  }

  lemma AfterAlike(pages: Store, after: Store, parent: Pgno, first: nat, n: nat, nums: seq<Pgno>, sizeOf: Cell -> nat, u: nat, i: nat)
    requires BalancedLeaves(pages, after, parent, first, n, nums, sizeOf, u) && first + n + i < |pages[parent].cells|
    ensures AlikeBoth(pages, pages[parent].cells, first + n, after, Cells(after[parent]), first + |nums|, i)
  {
    OutsideAlike(pages, after, parent, first, n, nums, sizeOf, u, first + n + i);
  }

  /** The key after the siblings, and the last child. */
  lemma EndAlike(pages: Store, after: Store, parent: Pgno, first: nat, n: nat, nums: seq<Pgno>, sizeOf: Cell -> nat, u: nat)
    requires BalancedLeaves(pages, after, parent, first, n, nums, sizeOf, u) && first + n <= |pages[parent].cells|
    ensures var p, q := pages[parent], after[parent]; var cs, b := Cells(q), first + |nums|;
      && b <= |cs| && |cs| - b == |p.cells| - (first + n)
      && ItemsAt(after, q.right) == ItemsAt(pages, p.right) && cs[b - 1].key == p.cells[first + n - 1].key
  {
    OutsideAlike(pages, after, parent, first, n, nums, sizeOf, u, 0);
    var b := first + |nums| - 1;
    assert Cells(after[parent])[b].key == pages[parent].cells[b + n - |nums|].key;
  }

  lemma TailAlike(pages: Store, cs: seq<Cell>, right: Pgno, a: nat, after: Store, ds: seq<Cell>, nowRight: Pgno, b: nat)
    requires 0 < a <= |cs| && 0 < b <= |ds| && |cs| - a == |ds| - b && cs[a - 1].key == ds[b - 1].key
    requires forall i: nat | i < |cs| - a :: AlikeBoth(pages, cs, a, after, ds, b, i)
    requires ItemsAt(pages, right) == ItemsAt(after, nowRight)
    ensures Tail(pages, cs, right, a - 1, false, true) == Tail(after, ds, nowRight, b - 1, false, true)
  {
    UnderAlike(pages, cs, a, |cs|, after, ds, b, |ds|);
  }

  lemma AfterAllAlike(pages: Store, after: Store, parent: Pgno, first: nat, n: nat, nums: seq<Pgno>, sizeOf: Cell -> nat, u: nat)
    requires BalancedLeaves(pages, after, parent, first, n, nums, sizeOf, u)
    ensures var cs, a, b := pages[parent].cells, first + n, first + |nums|;
      forall i: nat | a + i < |cs| :: AlikeBoth(pages, cs, a, after, Cells(after[parent]), b, i)
  {
    var cs, a, b := pages[parent].cells, first + n, first + |nums|;
    forall i: nat | a + i < |cs| ensures AlikeBoth(pages, cs, a, after, Cells(after[parent]), b, i) {
      AfterAlike(pages, after, parent, first, n, nums, sizeOf, u, i);
    }
  }

  lemma TailKept(pages: Store, after: Store, parent: Pgno, first: nat, n: nat, nums: seq<Pgno>, sizeOf: Cell -> nat, u: nat)
    requires BalancedLeaves(pages, after, parent, first, n, nums, sizeOf, u)
    ensures var p, q := pages[parent], after[parent]; var cs := Cells(q);
      && first + |nums| <= |cs| + 1
      && Tail(after, cs, q.right, first + |nums| - 1, false, true) == Tail(pages, p.cells, p.right, first + n - 1, false, true)
  {
    var p, q := pages[parent], after[parent];
    if first + n <= |p.cells| {
      EndAlike(pages, after, parent, first, n, nums, sizeOf, u);
      AfterAllAlike(pages, after, parent, first, n, nums, sizeOf, u);
      TailAlike(pages, p.cells, p.right, first + n, after, Cells(q), q.right, first + |nums|);
    }
  }

  /** A leaf of a table, with entries or alone. */
  predicate TableLeaf(after: Store, g: Pgno, only: bool) {
    g in after && after[g].leaf && after[g].leafData && (only || Cells(after[g]) != [])
  }

  lemma SiblingAt(pages: Store, after: Store, parent: Pgno, first: nat, n: nat, nums: seq<Pgno>, sizeOf: Cell -> nat, u: nat, i: nat)
    requires BalancedLeaves(pages, after, parent, first, n, nums, sizeOf, u) && i < |nums|
    ensures var q := after[parent]; var cs := Cells(q);
      && first + i <= |cs| && TableLeaf(after, ChildOf(cs, q.right, first + i), |nums| == 1)
      && (i + 1 < |nums| ==> Marks(after, cs[first + i]))
  {
    var p, q := pages[parent], after[parent];
    var cs := Cells(q);
    var j: nat := first + i;
    assert ChildOf(cs, q.right, j) == ChildAfter(p, first, n, nums, j);
    assert NewSibling(after, nums[i], true, true, sizeOf, u, |nums| == 1);
    if i + 1 < |nums| { assert LastKey(after, cs[j]); }
  }

  /** Between new siblings each separator comes right after the entry with its key. */
  lemma RunMarked(after: Store, cs: seq<Cell>, right: Pgno, first: nat, k: nat)
    requires 0 < k && first + k <= |cs| + 1 && TableLeaf(after, ChildOf(cs, right, first + k - 1), k == 1)
    requires forall i: nat | first <= i < first + k - 1 :: Marks(after, cs[i])
    ensures Marked(Middle(after, cs, right, first, k, false, true))
  {
    var g := ChildOf(cs, right, first + k - 1);
    EntriesMarked(Cells(after[g]), |Cells(after[g])|, End);
    if k > 1 { UnderMarked(after, cs, first, first + k - 1, ItemsAt(after, g)); }
  }

  lemma MiddleMarked(pages: Store, after: Store, parent: Pgno, first: nat, n: nat, nums: seq<Pgno>, sizeOf: Cell -> nat, u: nat)
    requires BalancedLeaves(pages, after, parent, first, n, nums, sizeOf, u)
    ensures var q := after[parent];
      && first + |nums| <= |Cells(q)| + 1
      && Marked(Middle(after, Cells(q), q.right, first, |nums|, false, true))
  {
    var cs, k: nat := Cells(after[parent]), |nums| - 1;
    SiblingAt(pages, after, parent, first, n, nums, sizeOf, u, k);
    forall i: nat | first <= i < first + k ensures Marks(after, cs[i]) {
      SiblingAt(pages, after, parent, first, n, nums, sizeOf, u, i - first);
    }
    RunMarked(after, cs, after[parent].right, first, |nums|);
  }

  // ---------------------------------------------------------------------
  // Balancing keeps search order
  // ---------------------------------------------------------------------

  /** No page more than one level below a page is one of these. */
  ghost predicate DeeperAvoid(pages: Store, p: Node, h: nat, touched: set<Pgno>) {
    forall k: nat | k <= |p.cells| :: SubtreeOrder.Avoid(pages, ItemsAt(pages, Child(p, k)), h, touched)
  }

  lemma {:induction false} AvoidThen(pages: Store, a: Walk, b: Walk, h: nat, touched: set<Pgno>)
    requires SubtreeOrder.Avoid(pages, a, h, touched) && SubtreeOrder.Avoid(pages, b, h, touched)
    ensures SubtreeOrder.Avoid(pages, Then(a, b), h, touched)
  {
    if a.Step? { AvoidThen(pages, a.rest, b, h, touched); }
  }

  lemma {:induction false} AvoidUnder(pages: Store, p: Node, a: nat, b: nat, leaf: bool, table: bool, h: nat, touched: set<Pgno>)
    requires a <= b <= |p.cells| && DeeperAvoid(pages, p, h, touched)
    ensures SubtreeOrder.Avoid(pages, Under(pages, p.cells, a, b, leaf, table), h, touched)
  {
    if a < b {
      AvoidUnder(pages, p, a, b - 1, leaf, table, h, touched);
      assert SubtreeOrder.Avoid(pages, ItemsAt(pages, Child(p, b - 1)), h, touched);
      AvoidThen(pages, Under(pages, p.cells, a, b - 1, leaf, table), ItemsAt(pages, p.cells[b - 1].child), h, touched);
      AvoidThen(pages, Then(Under(pages, p.cells, a, b - 1, leaf, table), ItemsAt(pages, p.cells[b - 1].child)),
                Divider(p.cells[b - 1], leaf, table), h, touched);
    }
  }

  lemma AvoidBelow(pages: Store, p: Node, leaf: bool, h: nat, touched: set<Pgno>)
    requires p.aOvfl == [] && DeeperAvoid(pages, p, h, touched)
    ensures SubtreeOrder.Avoid(pages, Below(pages, p, leaf), h, touched)
  {
    var n := |p.cells|;
    AvoidUnder(pages, p, 0, n, leaf, p.leafData, h, touched);
    assert SubtreeOrder.Avoid(pages, ItemsAt(pages, Child(p, n)), h, touched);
    AvoidThen(pages, Under(pages, p.cells, 0, n, leaf, p.leafData), ItemsAt(pages, p.right), h, touched);
  }

  lemma AvoidTail(pages: Store, p: Node, k: nat, h: nat, touched: set<Pgno>)
    requires k <= |p.cells| && DeeperAvoid(pages, p, h, touched)
    ensures SubtreeOrder.Avoid(pages, Tail(pages, p.cells, p.right, k, false, true), h, touched)
  {
    if k < |p.cells| {
      var n := |p.cells|;
      var u := Under(pages, p.cells, k + 1, n, false, true);
      AvoidUnder(pages, p, k + 1, n, false, true, h, touched);
      assert SubtreeOrder.Avoid(pages, ItemsAt(pages, Child(p, n)), h, touched);
      AvoidThen(pages, u, ItemsAt(pages, p.right), h, touched);
      AvoidThen(pages, Divider(p.cells[k], false, true), Then(u, ItemsAt(pages, p.right)), h, touched);
    }
  }

  /** A walk in three parts, walked through. */
  lemma ExpandParts(pages: Store, a: Walk, m: Walk, t: Walk, h: nat)
    ensures SubtreeOrder.Expand(pages, Then(a, Then(m, t)), h, true)
         == Then(SubtreeOrder.Expand(pages, a, h, true), Then(SubtreeOrder.Expand(pages, m, h, true), SubtreeOrder.Expand(pages, t, h, true)))
  {
    SubtreeOrder.ExpandThen(pages, a, Then(m, t), h, true);
    SubtreeOrder.ExpandThen(pages, m, t, h, true);
  }

  /** The same entries with other separators, each right after its entry. */
  predicate MiddleAnew(m: Walk, m2: Walk) {
    Marked(m2) && Drop(m) == Drop(m2) && Plain(m) && Plain(m2)
  }

  /** The middle before and after, which hold the same entries. */
  lemma MiddlesPlain(pages: Store, after: Store, parent: Pgno, first: nat, n: nat, nums: seq<Pgno>, sizeOf: Cell -> nat, u: nat)
    requires BalancedLeaves(pages, after, parent, first, n, nums, sizeOf, u)
    ensures first + |nums| <= |Cells(after[parent])| + 1
    ensures var p, q := pages[parent], after[parent];
      var m, m2 := Middle(pages, p.cells, p.right, first, n, false, true), Middle(after, Cells(q), q.right, first, |nums|, false, true);
      MiddleAnew(m, m2)
  {
    var p, q := pages[parent], after[parent];
    MiddleMarked(pages, after, parent, first, n, nums, sizeOf, u);
    var m, m2 := Middle(pages, p.cells, p.right, first, n, false, true), Middle(after, Cells(q), q.right, first, |nums|, false, true);
    DropMiddle(pages, p.cells, p.right, first, n);
    DropMiddle(after, Cells(q), q.right, first, |nums|);
    MarkedPlain(m2);
    PlainDrop(m);
    PlainDrop(m2);
  }

  lemma HeadFrame(pages: Store, after: Store, p: Node, k: nat, h: nat, touched: set<Pgno>)
    requires k <= |p.cells| && DeeperAvoid(pages, p, h, touched) && forall g :: g in touched || Kept(pages, after, g)
    ensures var u := Under(pages, p.cells, 0, k, false, true);
      SubtreeOrder.Expand(after, u, h, true) == SubtreeOrder.Expand(pages, u, h, true)
  {
    AvoidUnder(pages, p, 0, k, false, true, h, touched);
    SubtreeOrder.ExpandFrame(pages, after, Under(pages, p.cells, 0, k, false, true), h, touched, true);
  }

  lemma TailFrame(pages: Store, after: Store, p: Node, k: nat, h: nat, touched: set<Pgno>)
    requires k <= |p.cells| && DeeperAvoid(pages, p, h, touched) && forall g :: g in touched || Kept(pages, after, g)
    ensures var t := Tail(pages, p.cells, p.right, k, false, true);
      SubtreeOrder.Expand(after, t, h, true) == SubtreeOrder.Expand(pages, t, h, true)
  {
    AvoidTail(pages, p, k, h, touched);
    SubtreeOrder.ExpandFrame(pages, after, Tail(pages, p.cells, p.right, k, false, true), h, touched, true);
  }

  /** A page with other separators in the middle. */
  lemma PartsRise(pages: Store, a: Walk, m: Walk, t: Walk, after: Store, a2: Walk, m2: Walk, t2: Walk, h: nat, lo: int, hi: int)
    requires SubtreeOrder.Expand(pages, a, h, true) == SubtreeOrder.Expand(after, a2, h, true)
    requires SubtreeOrder.Expand(pages, t, h, true) == SubtreeOrder.Expand(after, t2, h, true)
    requires MiddleAnew(m, m2)
    requires Rising(SubtreeOrder.Expand(pages, Then(a, Then(m, t)), h, true), lo, hi)
    ensures Rising(SubtreeOrder.Expand(after, Then(a2, Then(m2, t2)), h, true), lo, hi)
  {
    ExpandParts(pages, a, m, t, h);
    ExpandParts(after, a2, m2, t2, h);
    ExpandPlain(pages, m, h);
    ExpandPlain(after, m2, h);
    MarkedAnew(SubtreeOrder.Expand(pages, a, h, true), m, m2, SubtreeOrder.Expand(pages, t, h, true), lo, hi);
  }

  /** What is below a table's inner page, with its separators, in three parts. */
  lemma InnerParts(pages: Store, g: Pgno, first: nat, n: nat, h: nat)
    requires g in pages && !pages[g].leaf && pages[g].leafData && 0 < n && first + n <= |Cells(pages[g])| + 1
    ensures var p := pages[g]; var cs := Cells(p);
      SubtreeOrder.InOrder(pages, g, h + 1, true)
      == SubtreeOrder.Expand(pages, Then(Under(pages, cs, 0, first, false, true),
                                         Then(Middle(pages, cs, p.right, first, n, false, true), Tail(pages, cs, p.right, first + n - 1, false, true))), h, true)
  {
    BelowParts(pages, Cells(pages[g]), pages[g].right, first, n, false, true);
    SubtreeOrder.ExpandBelow(pages, g, false, h, true);
  }

  /** Balancing n leaves of a table gives k: before and after them everything is as
      it was, and of them only the separators are new. */
  ghost predicate LeavesAnew(pages: Store, p: Node, first: nat, n: nat, after: Store, q: Node, k: nat, h: nat) {
    && 0 < n && first + n <= |p.cells| + 1 && 0 < k && first + k <= |Cells(q)| + 1
    && p.aOvfl == [] && !p.leaf && p.leafData && !q.leaf && q.leafData
    && SubtreeOrder.Expand(pages, Under(pages, p.cells, 0, first, false, true), h, true)
       == SubtreeOrder.Expand(after, Under(after, Cells(q), 0, first, false, true), h, true)
    && SubtreeOrder.Expand(pages, Tail(pages, p.cells, p.right, first + n - 1, false, true), h, true)
       == SubtreeOrder.Expand(after, Tail(after, Cells(q), q.right, first + k - 1, false, true), h, true)
    && MiddleAnew(Middle(pages, p.cells, p.right, first, n, false, true), Middle(after, Cells(q), q.right, first, k, false, true))
  }

  lemma LeavesMade(pages: Store, after: Store, parent: Pgno, first: nat, n: nat, nums: seq<Pgno>, sizeOf: Cell -> nat, u: nat, h: nat)
    requires BalancedLeaves(pages, after, parent, first, n, nums, sizeOf, u)
    requires DeeperAvoid(pages, pages[parent], h, SubtreeOrder.Touched(pages[parent], parent, first, n, nums))
    ensures LeavesAnew(pages, pages[parent], first, n, after, after[parent], |nums|, h)
  {
    var p := pages[parent];
    var touched := SubtreeOrder.Touched(p, parent, first, n, nums);
    MiddlesPlain(pages, after, parent, first, n, nums, sizeOf, u);
    SubtreeOrder.UntouchedKept(pages, after, parent, first, n, nums, sizeOf, u);
    HeadKept(pages, after, parent, first, n, nums, sizeOf, u);
    TailKept(pages, after, parent, first, n, nums, sizeOf, u);
    HeadFrame(pages, after, p, first, h, touched);
    TailFrame(pages, after, p, first + n - 1, h, touched);
  }

  /** The separators are new, and still in order. */
  lemma LeavesRise(pages: Store, g: Pgno, first: nat, n: nat, after: Store, k: nat, h: nat, lo: int, hi: int)
    requires g in pages && g in after && LeavesAnew(pages, pages[g], first, n, after, after[g], k, h)
    requires Rising(SubtreeOrder.InOrder(pages, g, h + 1, true), lo, hi)
    ensures Rising(SubtreeOrder.InOrder(after, g, h + 1, true), lo, hi)
  {
    var p, q := pages[g], after[g];
    InnerParts(pages, g, first, n, h);
    InnerParts(after, g, first, k, h);
    PartsRise(pages, Under(pages, p.cells, 0, first, false, true), Middle(pages, p.cells, p.right, first, n, false, true),
              Tail(pages, p.cells, p.right, first + n - 1, false, true),
              after, Under(after, Cells(q), 0, first, false, true), Middle(after, Cells(q), q.right, first, k, false, true),
              Tail(after, Cells(q), q.right, first + k - 1, false, true), h, lo, hi);
  }

  /** Balancing the children of g, on level d of a tree, where no page deeper down
      is touched. */
  ghost predicate BalancedAt(pages: Store, after: Store, g: Pgno, first: nat, n: nat, nums: seq<Pgno>, sizeOf: Cell -> nat, u: nat, d: nat) {
    && Rebalanced(pages, after, g, first, n, nums, sizeOf, u) && !pages[g].leaf && d > 0
    && DeeperAvoid(pages, pages[g], d - 1, SubtreeOrder.Touched(pages[g], g, first, n, nums))
  }

  lemma BalancingRises(pages: Store, after: Store, g: Pgno, first: nat, n: nat, nums: seq<Pgno>, sizeOf: Cell -> nat, u: nat,
                       h: nat, lo: int, hi: int)
    requires BalancedAt(pages, after, g, first, n, nums, sizeOf, u, h + 1)
    requires Rising(SubtreeOrder.InOrder(pages, g, h + 1, true), lo, hi)
    ensures Rising(SubtreeOrder.InOrder(after, g, h + 1, true), lo, hi)
  {
    var p := pages[g];
    var leaf := PageOf(pages, p.right).leaf;
    if leaf && p.leafData {
      LeavesMade(pages, after, g, first, n, nums, sizeOf, u, h);
      LeavesRise(pages, g, first, n, after, |nums|, h, lo, hi);
    } else {
      AvoidBelow(pages, p, leaf, h, SubtreeOrder.Touched(p, g, first, n, nums));
      SubtreeOrder.BalancingKeepsOrder(pages, after, g, first, n, nums, sizeOf, u, h, true);
    }
  }

  /** Balancing keeps the subtree of the parent in search order, within the same
      bounds: in an index, between the leaves of a table, and between its inner
      pages. */
  lemma BalancingKeepsSorted(pages: Store, after: Store, g: Pgno, first: nat, n: nat, nums: seq<Pgno>, sizeOf: Cell -> nat, u: nat,
                             d: nat, lo: int, hi: int)
    requires BalancedAt(pages, after, g, first, n, nums, sizeOf, u, d) && SortedAt(pages, g, d, lo, hi)
    ensures SortedAt(after, g, d, lo, hi)
  {
    SortedWalk(pages, g, d, lo, hi);
    SortedWalk(after, g, d, lo, hi);
    BalancingRises(pages, after, g, first, n, nums, sizeOf, u, d - 1, lo, hi);
  }

  // ---------------------------------------------------------------------
  // The whole tree
  // ---------------------------------------------------------------------

  /** In the subtree from child i of p on, the parent is met on level d, if at all,
      and no other page of these is met outside its subtree. */
  ghost predicate Around(pages: Store, p: Node, i: nat, h: nat, parent: Pgno, d: nat, touched: set<Pgno>)
    decreases h, |p.cells| - i
  {
    p.leaf || h == 0 ||
    (&& (i < |p.cells| ==> Around(pages, p, i + 1, h, parent, d, touched))
     && if Child(p, i) == parent then h - 1 == d
        else Child(p, i) !in touched && Around(pages, NodeAt(pages, Child(p, i)), 0, h - 1, parent, d, touched))
  }

  /** Within whatever bounds the subtree of g was in search order, it is now. */
  ghost predicate StillSorted(pages: Store, after: Store, g: Pgno, d: nat) {
    forall lo, hi | SortedAt(pages, g, d, lo, hi) :: SortedAt(after, g, d, lo, hi)
  }

  lemma {:induction false} SortedAround(pages: Store, after: Store, p: Node, i: nat, h: nat, lo: int, hi: int, parent: Pgno, d: nat, touched: set<Pgno>)
    requires KeyOrder.Sorted(Settle(pages), p, i, h, lo, hi) && Around(Settle(pages), p, i, h, parent, d, touched) && i <= |p.cells|
    requires StillSorted(pages, after, parent, d) && forall g :: g in touched || Kept(pages, after, g)
    ensures KeyOrder.Sorted(Settle(after), p, i, h, lo, hi)
    decreases h, 1, |p.cells| - i
  {
    if i < |p.cells| { SortedAround(pages, after, p, i + 1, h, KeyOrder.CellRank(p, i), hi, parent, d, touched); }
    if !p.leaf && h > 0 {
      ChildAround(pages, after, p, i, h, lo, if i < |p.cells| then KeyOrder.CellRank(p, i) else hi, parent, d, touched);
    }
  }

  lemma {:induction false} ChildAround(pages: Store, after: Store, p: Node, i: nat, h: nat, lo: int, hi: int, parent: Pgno, d: nat, touched: set<Pgno>)
    requires h > 0 && !p.leaf && Around(Settle(pages), p, i, h, parent, d, touched) && i <= |p.cells|
    requires KeyOrder.Sorted(Settle(pages), NodeAt(Settle(pages), Child(p, i)), 0, h - 1, lo, hi)
    requires StillSorted(pages, after, parent, d) && forall g :: g in touched || Kept(pages, after, g)
    ensures KeyOrder.Sorted(Settle(after), NodeAt(Settle(after), Child(p, i)), 0, h - 1, lo, hi)
    decreases h, 0, 0
  {
    var g := Child(p, i);
    if g == parent {
      assert SortedAt(pages, g, d, lo, hi);
      assert SortedAt(after, g, d, lo, hi);
    } else {
      assert Kept(pages, after, g);
      SortedAround(pages, after, NodeAt(Settle(pages), g), 0, h - 1, lo, hi, parent, d, touched);
    }
  }

  lemma SubtreeStays(pages: Store, after: Store, g: Pgno, first: nat, n: nat, nums: seq<Pgno>, sizeOf: Cell -> nat, u: nat, d: nat)
    requires BalancedAt(pages, after, g, first, n, nums, sizeOf, u, d)
    ensures StillSorted(pages, after, g, d)
  {
    forall lo, hi | SortedAt(pages, g, d, lo, hi) ensures SortedAt(after, g, d, lo, hi) {
      BalancingKeepsSorted(pages, after, g, first, n, nums, sizeOf, u, d, lo, hi);
    }
  }

  lemma RootAround(pages: Store, after: Store, root: Pgno, top: nat, parent: Pgno, d: nat, touched: set<Pgno>, lo: int, hi: int)
    requires root !in touched && Around(Settle(pages), NodeAt(Settle(pages), root), 0, top, parent, d, touched)
    requires StillSorted(pages, after, parent, d) && forall g :: g in touched || Kept(pages, after, g)
    requires SortedAt(pages, root, top, lo, hi)
    ensures SortedAt(after, root, top, lo, hi)
  {
    assert Kept(pages, after, root);
    SortedAround(pages, after, NodeAt(Settle(pages), root), 0, top, lo, hi, parent, d, touched);
  }

  /** Balancing anywhere in a tree, at a parent on level d, leaves the whole tree in
      search order. */
  lemma TreeStaysSorted(pages: Store, after: Store, root: Pgno, top: nat, parent: Pgno, first: nat, n: nat, nums: seq<Pgno>,
                        sizeOf: Cell -> nat, u: nat, d: nat, lo: int, hi: int)
    requires BalancedAt(pages, after, parent, first, n, nums, sizeOf, u, d)
    requires if root == parent then top == d
             else var touched := SubtreeOrder.Touched(pages[parent], parent, first, n, nums);
               root !in touched && Around(Settle(pages), NodeAt(Settle(pages), root), 0, top, parent, d, touched)
    requires SortedAt(pages, root, top, lo, hi)
    ensures SortedAt(after, root, top, lo, hi)
  {
    SubtreeStays(pages, after, parent, first, n, nums, sizeOf, u, d);
    if root != parent {
      SubtreeOrder.UntouchedKept(pages, after, parent, first, n, nums, sizeOf, u);
      RootAround(pages, after, root, top, parent, d, SubtreeOrder.Touched(pages[parent], parent, first, n, nums), lo, hi);
    }
  }
}
