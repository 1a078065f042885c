/** Balancing and the depth of a tree: when balance_nonroot leaves all leaves equally
    deep and no page without cells, so that a cursor can use the tree as before
    (btree.c:4855-5425, 3376-3441). */
module BalanceShape {
  import opened Balance
  import opened Rebalance
  import opened Walks
  import opened BalanceNonroot
  import SubtreeOrder
  import opened TreeOrder
  import opened BalanceSorted
  import KeyOrder

  // ---------------------------------------------------------------------
  // Equally deep leaves, by walking
  // ---------------------------------------------------------------------

  /** A page on level h of a tree; only those in spare may have no cells. */
  ghost predicate PageGood(pages: Store, g: Pgno, h: nat, table: bool, spare: set<Pgno>) {
    g in pages && pages[g].leafData == table && (pages[g].leaf <==> h == 0) && (g in spare || !Bare(pages[g]))
  }

  /** A page without cells. */
  predicate Bare(p: Node) {
    p.cells == [] && p.aOvfl == []
  }

  /** Every page that a walk leads to is on its level, the first ones just below h. */
  ghost predicate Even(pages: Store, w: Walk, h: nat, table: bool, spare: set<Pgno>)
    decreases h, w
  {
    w.Step? ==>
      && (w.item.Sub? ==> && h > 0 && PageGood(pages, w.item.child, h - 1, table, spare)
                          && Even(pages, ItemsAt(pages, w.item.child), h - 1, table, spare))
      && Even(pages, w.rest, h, table, spare)
  }

  /** The subtree at a page of level h, whether that has cells or not. */
  ghost predicate Level(pages: Store, g: Pgno, h: nat, table: bool, spare: set<Pgno>) {
    g in pages && pages[g].leafData == table && (pages[g].leaf <==> h == 0) && Even(pages, ItemsAt(pages, g), h, table, spare)
  }

  /** The same, with a cell. */
  ghost predicate GoodChild(pages: Store, g: Pgno, h: nat, table: bool, spare: set<Pgno>) {
    PageGood(pages, g, h, table, spare) && Level(pages, g, h, table, spare)
  }

  lemma {:induction false} EvenThen(pages: Store, a: Walk, b: Walk, h: nat, table: bool, spare: set<Pgno>)
    ensures Even(pages, Then(a, b), h, table, spare) <==> Even(pages, a, h, table, spare) && Even(pages, b, h, table, spare)
  {
    if a.Step? { EvenThen(pages, a.rest, b, h, table, spare); }
  }

  /** A walk that avoids what has changed is as even as it was. */
  lemma {:induction false} EvenFrame(pages: Store, after: Store, w: Walk, h: nat, table: bool, spare: set<Pgno>, touched: set<Pgno>)
    requires Even(pages, w, h, table, spare) && SubtreeOrder.Avoid(pages, w, h, touched)
    requires spare <= touched && forall g :: g in touched || Kept(pages, after, g)
    ensures Even(after, w, h, table, {})
    decreases h, w
  {
    if w.Step? {
      EvenFrame(pages, after, w.rest, h, table, spare, touched);
      if w.item.Sub? {
        var g := w.item.child;
        assert Kept(pages, after, g);
        EvenFrame(pages, after, ItemsAt(pages, g), h - 1, table, spare, touched);
      }
    }
  }

  lemma {:induction false} EvenLeaf(pages: Store, cs: seq<Cell>, b: nat, h: nat, table: bool, spare: set<Pgno>)
    requires b <= |cs|
    ensures Even(pages, ItemsOf(cs, 0, b, true, table), h, table, spare)
  {
    if b > 0 {
      EvenLeaf(pages, cs, b - 1, h, table, spare);
      EvenThen(pages, ItemsOf(cs, 0, b - 1, true, table), CellItems(cs[b - 1], true, table), h, table, spare);
    }
  }

  lemma LeafLevel(pages: Store, g: Pgno, table: bool, spare: set<Pgno>)
    requires g in pages && pages[g].leaf && pages[g].leafData == table
    ensures Level(pages, g, 0, table, spare)
  {
    var cs := Cells(pages[g]);
    EvenLeaf(pages, cs, |cs|, 0, table, spare);
    ThenEnd(Items(cs, true, table));
  }

  lemma {:induction false} EvenItems(pages: Store, cs: seq<Cell>, b: nat, h: nat, table: bool, spare: set<Pgno>)
    requires b <= |cs|
    ensures Even(pages, ItemsOf(cs, 0, b, false, table), h + 1, table, spare)
       <==> forall i: nat | i < b :: GoodChild(pages, cs[i].child, h, table, spare)
  {
    if b > 0 {
      EvenItems(pages, cs, b - 1, h, table, spare);
      EvenThen(pages, ItemsOf(cs, 0, b - 1, false, table), CellItems(cs[b - 1], false, table), h + 1, table, spare);
      assert Even(pages, Divider(cs[b - 1], false, table), h + 1, table, spare);
    }
  }

  /** Every child of a page with these cells is on its level, and has a cell. */
  ghost predicate GoodKids(pages: Store, cs: seq<Cell>, right: Pgno, h: nat, table: bool, spare: set<Pgno>) {
    forall k: nat | k <= |cs| :: GoodChild(pages, ChildOf(cs, right, k), h, table, spare)
  }

  /** What is below each child is even. */
  ghost predicate EvenKids(pages: Store, cs: seq<Cell>, right: Pgno, h: nat, table: bool, spare: set<Pgno>) {
    forall k: nat | k <= |cs| :: Even(pages, ItemsAt(pages, ChildOf(cs, right, k)), h, table, spare)
  }

  ghost predicate PagesGood(pages: Store, cs: seq<Cell>, right: Pgno, h: nat, table: bool, spare: set<Pgno>) {
    forall k: nat | k <= |cs| :: PageGood(pages, ChildOf(cs, right, k), h, table, spare)
  }

  lemma EvenChildren(pages: Store, g: Pgno, h: nat, table: bool, spare: set<Pgno>)
    requires g in pages && !pages[g].leaf && pages[g].leafData == table
    ensures Level(pages, g, h + 1, table, spare) <==> GoodKids(pages, Cells(pages[g]), pages[g].right, h, table, spare)
  {
    var p := pages[g];
    var cs := Cells(p);
    EvenItems(pages, cs, |cs|, h, table, spare);
    EvenThen(pages, Items(cs, false, table), Step(Sub(p.right), End), h + 1, table, spare);
    assert GoodChild(pages, p.right, h, table, spare) <==> Even(pages, Step(Sub(p.right), End), h + 1, table, spare);
    if GoodKids(pages, cs, p.right, h, table, spare) {
      forall i: nat | i < |cs| ensures GoodChild(pages, cs[i].child, h, table, spare) {
        assert ChildOf(cs, p.right, i) == cs[i].child;
      }
      assert ChildOf(cs, p.right, |cs|) == p.right;
    }
  }

  lemma {:induction false} EvenUnder(pages: Store, cs: seq<Cell>, b: nat, leaf: bool, h: nat, table: bool, spare: set<Pgno>)
    requires b <= |cs|
    ensures Even(pages, Under(pages, cs, 0, b, leaf, table), h, table, spare)
       <==> forall i: nat | i < b :: Even(pages, ItemsAt(pages, cs[i].child), h, table, spare)
  {
    if b > 0 {
      var u, i, d := Under(pages, cs, 0, b - 1, leaf, table), ItemsAt(pages, cs[b - 1].child), Divider(cs[b - 1], leaf, table);
      EvenUnder(pages, cs, b - 1, leaf, h, table, spare);
      EvenThen(pages, Then(u, i), d, h, table, spare);
      EvenThen(pages, u, i, h, table, spare);
    }
  }

  /** What is below a page is even when that is so below each child. */
  lemma EvenBelow(pages: Store, p: Node, leaf: bool, h: nat, spare: set<Pgno>)
    ensures Even(pages, Below(pages, p, leaf), h, p.leafData, spare)
       <==> EvenKids(pages, Cells(p), p.right, h, p.leafData, spare)
  {
    var cs, table := Cells(p), p.leafData;
    EvenUnder(pages, cs, |cs|, leaf, h, table, spare);
    EvenThen(pages, Under(pages, cs, 0, |cs|, leaf, table), ItemsAt(pages, p.right), h, table, spare);
    if EvenKids(pages, cs, p.right, h, table, spare) {
      forall i: nat | i < |cs| ensures Even(pages, ItemsAt(pages, cs[i].child), h, table, spare) {
        assert ChildOf(cs, p.right, i) == cs[i].child;
      }
      assert ChildOf(cs, p.right, |cs|) == p.right;
    }
  }

  /** This is the shape that cursors rely on. */
  lemma {:induction false} LevelShape(pages: Store, g: Pgno, h: nat, table: bool)
    ensures Shape(Settle(pages), g, h, table) <==> Level(pages, g, h, table, {})
    decreases h
  {
    if g in pages && pages[g].leafData == table && (pages[g].leaf <==> h == 0) {
      var p := pages[g];
      var s := Settle(pages)[g];
      if h == 0 {
        LeafLevel(pages, g, table, {});
      } else {
        EvenChildren(pages, g, h - 1, table, {});
        forall k: nat | k <= |Cells(p)|
          ensures Child(s, k) == ChildOf(Cells(p), p.right, k)
          ensures Subtree(Settle(pages), Child(s, k), h - 1, table) <==> GoodChild(pages, ChildOf(Cells(p), p.right, k), h - 1, table, {})
        {
          LevelShape(pages, Child(s, k), h - 1, table);
        }
      }
    }
  }

  // ---------------------------------------------------------------------
  // Whether a cell is left for the new siblings
  // ---------------------------------------------------------------------

  /** Something is met besides children. */
  predicate Stuffed(w: Walk) {
    w.Step? && (!w.item.Sub? || Stuffed(w.rest))
  }

  lemma {:induction false} StuffedThen(a: Walk, b: Walk)
    ensures Stuffed(Then(a, b)) <==> Stuffed(a) || Stuffed(b)
  {
    if a.Step? { StuffedThen(a.rest, b); }
  }

  lemma StuffedPage(pages: Store, g: Pgno)
    requires g in pages
    ensures Stuffed(ItemsAt(pages, g)) <==> !Bare(pages[g])
  {
    var p := pages[g];
    var cs := Cells(p);
    StuffedThen(Items(cs, p.leaf, p.leafData), RightItem(p.leaf, p.right));
    if cs != [] {
      StuffedThen(ItemsOf(cs, 0, |cs| - 1, p.leaf, p.leafData), CellItems(cs[|cs| - 1], p.leaf, p.leafData));
    }
  }

  /** A child among n from first on that has a cell. */
  ghost predicate SomeCell(pages: Store, cs: seq<Cell>, right: Pgno, first: nat, n: nat)
    requires first + n <= |cs| + 1
  {
    exists k: nat :: first <= k < first + n && !Bare(PageOf(pages, ChildOf(cs, right, k)))
  }

  /** There are cells for new siblings: on an old one, or a divider that goes down. */
  ghost predicate CellsLeft(pages: Store, cs: seq<Cell>, right: Pgno, first: nat, n: nat, leaf: bool, table: bool)
    requires first + n <= |cs| + 1
  {
    SomeCell(pages, cs, right, first, n) || (n > 1 && !(leaf && table))
  }

  ghost predicate SomeUnder(pages: Store, cs: seq<Cell>, a: nat, b: nat)
    requires a <= b <= |cs|
  {
    exists k: nat :: a <= k < b && !Bare(PageOf(pages, cs[k].child))
  }

  lemma SomeSplit(pages: Store, cs: seq<Cell>, right: Pgno, first: nat, n: nat)
    requires 0 < n && first + n <= |cs| + 1
    ensures SomeCell(pages, cs, right, first, n)
       <==> SomeUnder(pages, cs, first, first + n - 1) || !Bare(PageOf(pages, ChildOf(cs, right, first + n - 1)))
  {
    var b: nat := first + n - 1;
    if SomeUnder(pages, cs, first, b) {
      var k: nat :| first <= k < b && !Bare(PageOf(pages, cs[k].child));
      assert ChildOf(cs, right, k) == cs[k].child;
    }
  }

  lemma {:induction false} StuffedUnder(pages: Store, cs: seq<Cell>, a: nat, b: nat, leaf: bool, table: bool)
    requires a <= b <= |cs| && forall k: nat | a <= k < b :: cs[k].child in pages
    ensures Stuffed(Under(pages, cs, a, b, leaf, table))
       <==> SomeUnder(pages, cs, a, b) || (a < b && !(leaf && table))
  {
    if a < b {
      var u, i, d := Under(pages, cs, a, b - 1, leaf, table), ItemsAt(pages, cs[b - 1].child), Divider(cs[b - 1], leaf, table);
      StuffedUnder(pages, cs, a, b - 1, leaf, table);
      StuffedThen(Then(u, i), d);
      StuffedThen(u, i);
      StuffedPage(pages, cs[b - 1].child);
    }
  }

  lemma StuffedMiddle(pages: Store, cs: seq<Cell>, right: Pgno, first: nat, n: nat, leaf: bool, table: bool)
    requires 0 < n && first + n <= |cs| + 1
    requires forall k: nat | first <= k < first + n :: ChildOf(cs, right, k) in pages
    ensures Stuffed(Middle(pages, cs, right, first, n, leaf, table)) <==> CellsLeft(pages, cs, right, first, n, leaf, table)
  {
    var b := first + n - 1;
    forall k: nat | first <= k < b ensures cs[k].child in pages { assert ChildOf(cs, right, k) == cs[k].child; }
    StuffedUnder(pages, cs, first, b, leaf, table);
    StuffedThen(Under(pages, cs, first, b, leaf, table), ItemsAt(pages, ChildOf(cs, right, b)));
    StuffedPage(pages, ChildOf(cs, right, b));
    SomeSplit(pages, cs, right, first, n);
  }

  // ---------------------------------------------------------------------
  // At the parent
  // ---------------------------------------------------------------------

  /** Whether child k is none of the siblings. */
  predicate Outside(cs: seq<Cell>, first: nat, n: nat, k: nat) {
    k <= |cs| && (k < first || first + n <= k)
  }

  /** No sibling is also a child outside the siblings. */
  ghost predicate Once(p: Node, first: nat, n: nat)
    requires first + n <= |p.cells| + 1
  {
    forall k: nat | Outside(p.cells, first, n, k) :: Child(p, k) !in Freed(p, first, n, 0)
  }

  /** Children first, ... of a page with cells cs have been replaced by nums. */
  ghost predicate KidsMoved(cs: seq<Cell>, right: Pgno, first: nat, n: nat, qs: seq<Cell>, qright: Pgno, nums: seq<Pgno>) {
    && 0 < n && first + n <= |cs| + 1 && nums != [] && |qs| + n == |cs| + |nums|
    && (forall k: nat {:trigger ChildOf(qs, qright, k)} | k < first :: ChildOf(qs, qright, k) == ChildOf(cs, right, k))
    && (forall m: nat | m < |nums| :: ChildOf(qs, qright, first + m) == nums[m])
    && (forall k: nat | first + |nums| <= k <= |qs| :: ChildOf(qs, qright, k) == ChildOf(cs, right, k + n - |nums|))
  }

  /** The other children are as they were. */
  ghost predicate OutsideKept(pages: Store, after: Store, cs: seq<Cell>, right: Pgno, first: nat, n: nat, spare: set<Pgno>) {
    forall k: nat | Outside(cs, first, n, k) :: Kept(pages, after, ChildOf(cs, right, k)) && ChildOf(cs, right, k) !in spare
  }

  /** The new siblings are pages on level h. */
  ghost predicate NewKids(after: Store, nums: seq<Pgno>, h: nat, table: bool) {
    forall m: nat | m < |nums| ::
      nums[m] in after && after[nums[m]].leafData == table && (after[nums[m]].leaf <==> h == 0) && (|nums| > 1 ==> !Bare(after[nums[m]]))
  }

  /** No page but these has changed. */
  ghost predicate OnlyTouched(pages: Store, after: Store, parent: Pgno, nums: seq<Pgno>, freed: set<Pgno>) {
    forall x :: x == parent || x in nums || x in freed || Kept(pages, after, x)
  }

  lemma MovedAs(p: Node, q: Node, first: nat, n: nat, nums: seq<Pgno>)
    requires 0 < n && first + n <= |p.cells| + 1 && nums != [] && |Cells(q)| + n == |p.cells| + |nums| && ChildrenAre(p, q, first, n, nums)
    ensures KidsMoved(p.cells, p.right, first, n, Cells(q), q.right, nums)
  {
    var cs := Cells(q);
    forall k: nat | k <= |cs| ensures k + n <= |p.cells| + |nums| && ChildOf(cs, q.right, k) == ChildAfter(p, first, n, nums, k) {}
  }

  lemma KeptOutside(pages: Store, after: Store, p: Node, first: nat, n: nat)
    requires first + n <= |p.cells| + 1 && OthersKept(pages, after, p, first, n) && Once(p, first, n)
    ensures OutsideKept(pages, after, p.cells, p.right, first, n, Freed(p, first, n, 0))
  {
    forall k: nat | Outside(p.cells, first, n, k)
      ensures Kept(pages, after, ChildOf(p.cells, p.right, k)) && ChildOf(p.cells, p.right, k) !in Freed(p, first, n, 0)
    {
      assert ChildOf(p.cells, p.right, k) == Child(p, k);
    }
  }

  lemma KidsAre(after: Store, nums: seq<Pgno>, leaf: bool, sizeOf: Cell -> nat, u: nat, h: nat, table: bool)
    requires (forall m | 0 <= m < |nums| :: NewSibling(after, nums[m], leaf, table, sizeOf, u, |nums| == 1)) && (leaf <==> h == 0)
    ensures NewKids(after, nums, h, table)
  {
    forall m: nat | m < |nums|
      ensures nums[m] in after && after[nums[m]].leafData == table && (after[nums[m]].leaf <==> h == 0)
      ensures |nums| > 1 ==> !Bare(after[nums[m]])
    {
      assert NewSibling(after, nums[m], leaf, table, sizeOf, u, |nums| == 1);
    }
  }

  /** Whether there are cells for the new siblings shows in what is met there. */
  lemma CellsMoved(pages: Store, cs: seq<Cell>, right: Pgno, first: nat, n: nat, after: Store, qs: seq<Cell>, qright: Pgno, nums: seq<Pgno>,
                   h: nat, table: bool, spare: set<Pgno>)
    requires KidsMoved(cs, right, first, n, qs, qright, nums) && NewKids(after, nums, h, table) && GoodKids(pages, cs, right, h, table, spare)
    requires first + |nums| <= |qs| + 1
          && Middle(after, qs, qright, first, |nums|, h == 0, table) == Middle(pages, cs, right, first, n, h == 0, table)
    ensures CellsLeft(pages, cs, right, first, n, h == 0, table) <==> forall m: nat | m < |nums| :: !Bare(after[nums[m]])
  {
    forall k: nat | first <= k < first + n ensures ChildOf(cs, right, k) in pages {
      assert GoodChild(pages, ChildOf(cs, right, k), h, table, spare);
    }
    forall k: nat | first <= k < first + |nums| ensures ChildOf(qs, qright, k) == nums[k - first] {
      assert ChildOf(qs, qright, first + (k - first)) == nums[k - first];
    }
    StuffedMiddle(pages, cs, right, first, n, h == 0, table);
    StuffedMiddle(after, qs, qright, first, |nums|, h == 0, table);
  }

  /** So whether every child afterwards has a cell. */
  lemma KidsHaveCells(pages: Store, cs: seq<Cell>, right: Pgno, first: nat, n: nat, after: Store, qs: seq<Cell>, qright: Pgno, nums: seq<Pgno>,
                      h: nat, table: bool, spare: set<Pgno>)
    requires KidsMoved(cs, right, first, n, qs, qright, nums) && NewKids(after, nums, h, table) && GoodKids(pages, cs, right, h, table, spare)
    requires OutsideKept(pages, after, cs, right, first, n, spare)
    ensures PagesGood(after, qs, qright, h, table, {})
       <==> forall m: nat | m < |nums| :: !Bare(after[nums[m]])
  {
    forall k: nat | k <= |qs| && !(first <= k < first + |nums|) ensures PageGood(after, ChildOf(qs, qright, k), h, table, {}) {
      var m := if k < first then k else k + n - |nums|;
      assert Outside(cs, first, n, m);
      assert GoodChild(pages, ChildOf(cs, right, m), h, table, spare);
    }
    forall m: nat | m < |nums| ensures PageGood(after, ChildOf(qs, qright, first + m), h, table, {}) <==> !Bare(after[nums[m]]) {
      assert ChildOf(qs, qright, first + m) == nums[m];
    }
    forall k: nat | first <= k < first + |nums|
      ensures PageGood(after, ChildOf(qs, qright, k), h, table, {}) <==> !Bare(after[nums[k - first]])
    {
      assert ChildOf(qs, qright, first + (k - first)) == nums[k - first];
    }
  }

  lemma KidsGood(pages: Store, cs: seq<Cell>, right: Pgno, h: nat, table: bool, spare: set<Pgno>)
    requires EvenKids(pages, cs, right, h, table, spare)
    ensures GoodKids(pages, cs, right, h, table, spare) <==> PagesGood(pages, cs, right, h, table, spare)
  {
    forall k: nat | k <= |cs|
      ensures GoodChild(pages, ChildOf(cs, right, k), h, table, spare) <==> PageGood(pages, ChildOf(cs, right, k), h, table, spare) {}
  }

  /** Below a parent, whose children are evenly deep, the same is met as before. */
  ghost predicate SameBelow(pages: Store, after: Store, parent: Pgno, p: Node, q: Node, first: nat, n: nat, nums: seq<Pgno>, leaf: bool, h: nat, table: bool) {
    && first + n <= |p.cells| + 1 && GoodKids(pages, p.cells, p.right, h, table, Freed(p, first, n, 0))
    && p.leafData == q.leafData == table && p.aOvfl == [] && Below(after, q, leaf) == Below(pages, p, leaf)
    && DeeperAvoid(pages, p, h, SubtreeOrder.Touched(p, parent, first, n, nums))
    && OnlyTouched(pages, after, parent, nums, Freed(p, first, n, 0))
  }

  /** Then what is below it is as even as before. */
  lemma BelowEven(pages: Store, after: Store, parent: Pgno, p: Node, q: Node, first: nat, n: nat, nums: seq<Pgno>, leaf: bool, h: nat, table: bool)
    requires SameBelow(pages, after, parent, p, q, first, n, nums, leaf, h, table)
    ensures EvenKids(after, Cells(q), q.right, h, table, {})
  {
    var spare, touched := Freed(p, first, n, 0), SubtreeOrder.Touched(p, parent, first, n, nums);
    forall x ensures x in touched || Kept(pages, after, x) {
      assert x == parent || x in nums || x in spare || Kept(pages, after, x);
    }
    forall k: nat | k <= |Cells(p)| ensures Even(pages, ItemsAt(pages, ChildOf(Cells(p), p.right, k)), h, table, spare) {
      assert GoodChild(pages, ChildOf(Cells(p), p.right, k), h, table, spare);
    }
    EvenBelow(pages, p, leaf, h, spare);
    AvoidBelow(pages, p, leaf, h, touched);
    EvenFrame(pages, after, Below(pages, p, leaf), h, table, spare, touched);
    EvenBelow(after, q, leaf, h, {});
  }

  /** Balancing the children of g, on level h of a tree of even depth in which only the
      siblings may have lost all their cells; no page deeper down is touched. */
  ghost predicate EvenAt(pages: Store, after: Store, g: Pgno, first: nat, n: nat, nums: seq<Pgno>, sizeOf: Cell -> nat, u: nat,
                         h: nat, table: bool) {
    && Rebalanced(pages, after, g, first, n, nums, sizeOf, u) && !pages[g].leaf && Once(pages[g], first, n)
    && DeeperAvoid(pages, pages[g], h, SubtreeOrder.Touched(pages[g], g, first, n, nums))
    && pages[g].leafData == table && GoodKids(pages, pages[g].cells, pages[g].right, h, table, Freed(pages[g], first, n, 0))
  }

  lemma LastIsLeaf(pages: Store, p: Node, h: nat, table: bool, spare: set<Pgno>)
    requires GoodKids(pages, p.cells, p.right, h, table, spare)
    ensures PageOf(pages, p.right).leaf <==> h == 0
  {
    assert GoodChild(pages, ChildOf(p.cells, p.right, |p.cells|), h, table, spare);
  }

  lemma BelowStays(pages: Store, after: Store, g: Pgno, first: nat, n: nat, nums: seq<Pgno>, sizeOf: Cell -> nat, u: nat,
                   h: nat, table: bool)
    requires EvenAt(pages, after, g, first, n, nums, sizeOf, u, h, table)
    ensures SameBelow(pages, after, g, pages[g], after[g], first, n, nums, PageOf(pages, pages[g].right).leaf, h, table)
  {
  }

  /** What has become of the children of a parent. */
  ghost predicate KidsBalanced(pages: Store, after: Store, p: Node, q: Node, first: nat, n: nat, nums: seq<Pgno>, h: nat, table: bool) {
    && KidsMoved(p.cells, p.right, first, n, Cells(q), q.right, nums) && NewKids(after, nums, h, table)
    && GoodKids(pages, p.cells, p.right, h, table, Freed(p, first, n, 0))
    && OutsideKept(pages, after, p.cells, p.right, first, n, Freed(p, first, n, 0))
    && first + |nums| <= |Cells(q)| + 1
    && Middle(after, Cells(q), q.right, first, |nums|, h == 0, table) == Middle(pages, p.cells, p.right, first, n, h == 0, table)
  }

  lemma KidsStay(pages: Store, after: Store, g: Pgno, first: nat, n: nat, nums: seq<Pgno>, sizeOf: Cell -> nat, u: nat,
                 h: nat, table: bool)
    requires EvenAt(pages, after, g, first, n, nums, sizeOf, u, h, table)
    ensures KidsBalanced(pages, after, pages[g], after[g], first, n, nums, h, table)
  {
    LastIsLeaf(pages, pages[g], h, table, Freed(pages[g], first, n, 0));
    MovedAs(pages[g], after[g], first, n, nums);
    KeptOutside(pages, after, pages[g], first, n);
    KidsAre(after, nums, PageOf(pages, pages[g].right).leaf, sizeOf, u, h, table);
  }

  lemma ShapeExactly(pages: Store, after: Store, parent: Pgno, p: Node, q: Node, first: nat, n: nat, nums: seq<Pgno>, leaf: bool, h: nat, table: bool)
    requires SameBelow(pages, after, parent, p, q, first, n, nums, leaf, h, table)
    requires KidsBalanced(pages, after, p, q, first, n, nums, h, table)
    ensures GoodKids(after, Cells(q), q.right, h, table, {}) <==> CellsLeft(pages, p.cells, p.right, first, n, h == 0, table)
  {
    var spare := Freed(p, first, n, 0);
    BelowEven(pages, after, parent, p, q, first, n, nums, leaf, h, table);
    CellsMoved(pages, p.cells, p.right, first, n, after, Cells(q), q.right, nums, h, table, spare);
    KidsHaveCells(pages, p.cells, p.right, first, n, after, Cells(q), q.right, nums, h, table, spare);
    KidsGood(after, Cells(q), q.right, h, table, {});
  }

  /** Balancing leaves the children of the parent evenly deep and with cells if and
      only if there was a cell for the new siblings. */
  lemma BalancingKeepsShape(pages: Store, after: Store, g: Pgno, first: nat, n: nat, nums: seq<Pgno>, sizeOf: Cell -> nat, u: nat,
                            h: nat, table: bool)
    requires EvenAt(pages, after, g, first, n, nums, sizeOf, u, h, table)
    ensures var p, q := pages[g], after[g];
      GoodKids(after, Cells(q), q.right, h, table, {}) <==> CellsLeft(pages, p.cells, p.right, first, n, h == 0, table)
  {
    BelowStays(pages, after, g, first, n, nums, sizeOf, u, h, table);
    KidsStay(pages, after, g, first, n, nums, sizeOf, u, h, table);
    ShapeExactly(pages, after, g, pages[g], after[g], first, n, nums, PageOf(pages, pages[g].right).leaf, h, table);
  }

  // ---------------------------------------------------------------------
  // The whole tree
  // ---------------------------------------------------------------------

  /** What holds around child k of a page. */
  lemma {:induction false} AroundAt(pages: Store, p: Node, i: nat, h: nat, parent: Pgno, d: nat, touched: set<Pgno>, k: nat)
    requires Around(pages, p, i, h, parent, d, touched) && !p.leaf && h > 0 && i <= k <= |p.cells|
    ensures if Child(p, k) == parent then h - 1 == d
            else Child(p, k) !in touched && Around(pages, NodeAt(pages, Child(p, k)), 0, h - 1, parent, d, touched)
    decreases k - i
  {
    if i < k { AroundAt(pages, p, i + 1, h, parent, d, touched, k); }
  }

  lemma {:induction false} LevelAround(pages: Store, after: Store, g: Pgno, h: nat, table: bool, spare: set<Pgno>,
                                       parent: Pgno, d: nat, touched: set<Pgno>)
    requires Level(pages, g, h, table, spare) && g !in touched && spare <= touched && forall x :: x in touched || Kept(pages, after, x)
    requires Around(Settle(pages), NodeAt(Settle(pages), g), 0, h, parent, d, touched)
    requires GoodChild(after, parent, d, table, {})
    ensures Level(after, g, h, table, {})
    decreases h
  {
    assert Kept(pages, after, g);
    var p := pages[g];
    if h == 0 {
      LeafLevel(after, g, table, {});
    } else {
      EvenChildren(pages, g, h - 1, table, spare);
      forall k: nat | k <= |Cells(p)| ensures GoodChild(after, ChildOf(Cells(p), p.right, k), h - 1, table, {}) {
        ChildLevel(pages, after, g, h, table, spare, parent, d, touched, k);
      }
      EvenChildren(after, g, h - 1, table, {});
    }
  }

  lemma {:induction false} ChildLevel(pages: Store, after: Store, g: Pgno, h: nat, table: bool, spare: set<Pgno>,
                                      parent: Pgno, d: nat, touched: set<Pgno>, k: nat)
    requires h > 0 && g in pages && !pages[g].leaf && GoodKids(pages, Cells(pages[g]), pages[g].right, h - 1, table, spare) && k <= |Cells(pages[g])|
    requires spare <= touched && forall x :: x in touched || Kept(pages, after, x)
    requires Around(Settle(pages), NodeAt(Settle(pages), g), 0, h, parent, d, touched)
    requires GoodChild(after, parent, d, table, {})
    ensures GoodChild(after, ChildOf(Cells(pages[g]), pages[g].right, k), h - 1, table, {})
    decreases h, 0
  {
    var c := ChildOf(Cells(pages[g]), pages[g].right, k);
    assert GoodChild(pages, c, h - 1, table, spare);
    AroundAt(Settle(pages), Settle(pages)[g], 0, h, parent, d, touched, k);
    if c != parent {
      assert Kept(pages, after, c);
      LevelAround(pages, after, c, h - 1, table, spare, parent, d, touched);
    }
  }

  lemma LevelOf(pages: Store, g: Pgno, h: nat, d: nat, table: bool, spare: set<Pgno>)
    requires g in pages && !pages[g].leaf && pages[g].leafData == table && d == h + 1
    ensures Level(pages, g, d, table, spare) <==> GoodKids(pages, Cells(pages[g]), pages[g].right, h, table, spare)
  {
    EvenChildren(pages, g, h, table, spare);
  }

  /** The parent on its level after balancing. */
  lemma ParentLevel(pages: Store, after: Store, g: Pgno, first: nat, n: nat, nums: seq<Pgno>, sizeOf: Cell -> nat, u: nat,
                    h: nat, d: nat, table: bool)
    requires EvenAt(pages, after, g, first, n, nums, sizeOf, u, h, table) && d == h + 1
    requires CellsLeft(pages, pages[g].cells, pages[g].right, first, n, h == 0, table)
    ensures g in after && Level(after, g, d, table, {})
  {
    BalancingKeepsShape(pages, after, g, first, n, nums, sizeOf, u, h, table);
    LevelOf(after, g, h, d, table, {});
  }

  lemma BalancedLevel(pages: Store, after: Store, g: Pgno, first: nat, n: nat, nums: seq<Pgno>, sizeOf: Cell -> nat, u: nat,
                      h: nat, d: nat)
    requires Rebalanced(pages, after, g, first, n, nums, sizeOf, u) && !pages[g].leaf && d == h + 1
    requires DeeperAvoid(pages, pages[g], h, SubtreeOrder.Touched(pages[g], g, first, n, nums))
    ensures BalancedAt(pages, after, g, first, n, nums, sizeOf, u, d)
  {
  }

  lemma TouchedAt(pages: Store, after: Store, g: Pgno, first: nat, n: nat, nums: seq<Pgno>, sizeOf: Cell -> nat, u: nat)
    requires Rebalanced(pages, after, g, first, n, nums, sizeOf, u)
    ensures var touched := SubtreeOrder.Touched(pages[g], g, first, n, nums);
      Freed(pages[g], first, n, 0) <= touched && forall x :: x in touched || Kept(pages, after, x)
  {
    SubtreeOrder.UntouchedKept(pages, after, g, first, n, nums, sizeOf, u);
  }

  /** The tree at root, in which the parent has level d: evenly deep, but that only
      siblings may have no cells, and no touched page is met but below the parent. */
  ghost predicate TreeAround(pages: Store, root: Pgno, top: nat, table: bool, parent: Pgno, d: nat, spare: set<Pgno>, touched: set<Pgno>) {
    if root == parent then top == d
    else && Level(pages, root, top, table, spare) && root !in touched
         && Around(Settle(pages), NodeAt(Settle(pages), root), 0, top, parent, d, touched)
  }

  lemma TreeEvenAgain(pages: Store, after: Store, root: Pgno, top: nat, table: bool, parent: Pgno, d: nat, spare: set<Pgno>, touched: set<Pgno>)
    requires TreeAround(pages, root, top, table, parent, d, spare, touched) && Level(after, parent, d, table, {})
    requires root != parent ==> !Bare(after[parent])
    requires spare <= touched && forall x :: x in touched || Kept(pages, after, x)
    ensures Shape(Settle(after), root, top, table)
  {
    if root != parent { LevelAround(pages, after, root, top, table, spare, parent, d, touched); }
    LevelShape(after, root, top, table);
  }

  /** Balancing at a parent on level h + 1, that keeps a cell or is the root, leaves the
      whole tree evenly deep. */
  lemma TreeStaysEven(pages: Store, after: Store, root: Pgno, top: nat, parent: Pgno, first: nat, n: nat, nums: seq<Pgno>,
                      sizeOf: Cell -> nat, u: nat, h: nat, d: nat, table: bool)
    requires EvenAt(pages, after, parent, first, n, nums, sizeOf, u, h, table) && d == h + 1
    requires CellsLeft(pages, pages[parent].cells, pages[parent].right, first, n, h == 0, table)
    requires var p := pages[parent];
      TreeAround(pages, root, top, table, parent, d, Freed(p, first, n, 0), SubtreeOrder.Touched(p, parent, first, n, nums))
    requires root != parent ==> !Bare(after[parent])
    ensures Shape(Settle(after), root, top, table)
  {
    var p := pages[parent];
    ParentLevel(pages, after, parent, first, n, nums, sizeOf, u, h, d, table);
    TouchedAt(pages, after, parent, first, n, nums, sizeOf, u);
    TreeEvenAgain(pages, after, root, top, table, parent, d, Freed(p, first, n, 0), SubtreeOrder.Touched(p, parent, first, n, nums));
  }

  lemma SettledFlat(pages: Store)
    requires Flat(pages)
    ensures Settle(pages) == pages
  {
    forall g | g in pages ensures Settled(pages[g]) == pages[g] {}
  }

  /** With no overflow cell left, a cursor can then be opened on the tree: it is all
      that the searches and moves of a cursor ask for. */
  lemma CursorReady(pages: Store, after: Store, root: Pgno, top: nat, parent: Pgno, first: nat, n: nat, nums: seq<Pgno>,
                    sizeOf: Cell -> nat, u: nat, h: nat, d: nat, table: bool, lo: int, hi: int)
    requires EvenAt(pages, after, parent, first, n, nums, sizeOf, u, h, table) && d == h + 1
    requires CellsLeft(pages, pages[parent].cells, pages[parent].right, first, n, h == 0, table)
    requires var p := pages[parent];
      TreeAround(pages, root, top, table, parent, d, Freed(p, first, n, 0), SubtreeOrder.Touched(p, parent, first, n, nums))
    requires root != parent ==> !Bare(after[parent])
    requires SortedAt(pages, root, top, 2 * lo, 2 * hi) && Flat(after) && (!Bare(NodeAt(after, root)) || root == 1)
    ensures RootOk(after, root, top, table) && KeyOrder.Sorted(after, NodeAt(after, root), 0, top, 2 * lo, 2 * hi)
  {
    assert Shape(Settle(after), root, top, table) by {
      TreeStaysEven(pages, after, root, top, parent, first, n, nums, sizeOf, u, h, d, table);
    }
    assert SortedAt(after, root, top, 2 * lo, 2 * hi) by {
      BalancedLevel(pages, after, parent, first, n, nums, sizeOf, u, h, d);
      TreeStaysSorted(pages, after, root, top, parent, first, n, nums, sizeOf, u, d, 2 * lo, 2 * hi);
    }
    SettledFlat(after);
  }
}
