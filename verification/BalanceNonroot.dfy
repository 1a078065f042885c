/** balance_nonroot as a whole (btree.c:4860-5425): after it everything below the
    parent is met in the same order as before. */
module BalanceNonroot {
  import opened Balance
  import opened Packing
  import opened Rebalance
  import opened Walks

  // ---------------------------------------------------------------------
  // The sequence of everything below the parent
  // ---------------------------------------------------------------------

  /** Child k of a page with the given cells. */
  function ChildOf(cs: seq<Cell>, right: Pgno, k: nat): Pgno
    requires k <= |cs|
  {
    if k < |cs| then cs[k].child else right
  }

  /** What is met below the children first up to first + n - 1. */
  function Middle(pages: Store, cs: seq<Cell>, right: Pgno, first: nat, n: nat, leaf: bool, table: bool): Walk
    requires 0 < n && first + n <= |cs| + 1
  {
    Then(Under(pages, cs, first, first + n - 1, leaf, table), ItemsAt(pages, ChildOf(cs, right, first + n - 1)))
  }

  /** What is met after child k. */
  function Tail(pages: Store, cs: seq<Cell>, right: Pgno, k: nat, leaf: bool, table: bool): Walk
    requires k <= |cs|
  {
    if k == |cs| then End
    else Then(Divider(cs[k], leaf, table), Then(Under(pages, cs, k + 1, |cs|, leaf, table), ItemsAt(pages, right)))
  }

  lemma RegroupTail(a: Walk, x: Walk, d: Walk, u: Walk, r: Walk)
    ensures Then(Then(a, Then(Then(x, d), u)), r) == Then(Then(a, x), Then(d, Then(u, r)))
  {
    ThenThen(a, Then(Then(x, d), u), r);
    ThenThen(Then(x, d), u, r);
    ThenThen(x, d, Then(u, r));
    ThenThen(a, x, Then(d, Then(u, r)));
  }

  lemma UnderFirst(pages: Store, cs: seq<Cell>, k: nat, b: nat, leaf: bool, table: bool)
    requires k < b <= |cs|
    ensures Under(pages, cs, k, b, leaf, table)
         == Then(Then(ItemsAt(pages, cs[k].child), Divider(cs[k], leaf, table)), Under(pages, cs, k + 1, b, leaf, table))
  {
    UnderSplit(pages, cs, k, k + 1, b, leaf, table);
    assert Under(pages, cs, k, k, leaf, table) == End;
  }

  /** What is below a page: before child k, child k, and after it. */
  lemma BelowAt(pages: Store, cs: seq<Cell>, right: Pgno, leaf: bool, table: bool, k: nat)
    requires k <= |cs|
    ensures AllUnder(pages, cs, right, leaf, table)
         == Then(Then(Under(pages, cs, 0, k, leaf, table), ItemsAt(pages, ChildOf(cs, right, k))), Tail(pages, cs, right, k, leaf, table))
  {
    if k < |cs| {
      UnderSplit(pages, cs, 0, k, |cs|, leaf, table);
      UnderFirst(pages, cs, k, |cs|, leaf, table);
      RegroupTail(Under(pages, cs, 0, k, leaf, table), ItemsAt(pages, cs[k].child), Divider(cs[k], leaf, table),
                  Under(pages, cs, k + 1, |cs|, leaf, table), ItemsAt(pages, right));
    } else {
      ThenEnd(AllUnder(pages, cs, right, leaf, table));
    }
  }

  /** The cells of the parent before and after: cells before the siblings, some
      dividers, and cells after, of which the first has another child. */
  ghost predicate Exchanged(was: seq<Cell>, wasRight: Pgno, now: seq<Cell>, nowRight: Pgno, first: nat, n: nat, mid: seq<Cell>, g: Pgno) {
    && 0 < n && first + n - 1 <= |was|
    && first + |mid| <= |now| && |now| - (first + |mid|) == |was| - (first + n - 1)
    && now[0..first] == was[0..first] && now[first..first + |mid|] == mid
    && ChildOf(now, nowRight, first + |mid|) == g
    && (first + n - 1 < |was| ==>
      && now[first + |mid|].key == was[first + n - 1].key && now[first + |mid|].body == was[first + n - 1].body
      && now[first + |mid| + 1..] == was[first + n..] && nowRight == wasRight)
  }

  lemma PutBetween(p: Node, first: nat, n: nat, mid: seq<Cell>, before: Node)
    requires p.aOvfl == [] && 0 < n && first + n <= |p.cells| + 1
    requires ParentHas(WithoutDividers(p, first, n - 1), before, first, mid)
    ensures Cells(before) == p.cells[..first] + mid + p.cells[first + (n - 1)..]
    ensures before.leaf == p.leaf && before.leafData == p.leafData && before.right == p.right
  {
    WithoutDividersIs(p, first, n - 1);
    var pre, post := p.cells[..first], p.cells[first + (n - 1)..];
    assert (pre + post)[..first] == pre && (pre + post)[first..] == post;
  }

  lemma ExchangeMade(p: Node, first: nat, n: nat, mid: seq<Cell>, before: Node, top: Node, g: Pgno)
    requires p.aOvfl == [] && 0 < n && first + n <= |p.cells| + 1
    requires ParentHas(WithoutDividers(p, first, n - 1), before, first, mid) && ChildSet(before, top, first + |mid|, g)
    ensures Exchanged(p.cells, p.right, Cells(top), top.right, first, n, mid, g)
    ensures top.leaf == p.leaf && top.leafData == p.leafData
  {
    PutBetween(p, first, n, mid, before);
    ExchangeParts(p.cells, p.right, p.cells[..first], mid, p.cells[first + (n - 1)..], Cells(top), top.right, first, n, g);
  }

  lemma ExchangeParts(was: seq<Cell>, wasRight: Pgno, pre: seq<Cell>, mid: seq<Cell>, post: seq<Cell>, now: seq<Cell>, nowRight: Pgno,
                      first: nat, n: nat, g: Pgno)
    requires 0 < n && first + n <= |was| + 1 && pre == was[..first] && post == was[first + (n - 1)..]
    requires var i, cs := first + |mid|, pre + mid + post;
      && now == (if i < |cs| then cs[i := cs[i].(child := g)] else cs)
      && nowRight == if i < |cs| then wasRight else g
    ensures Exchanged(was, wasRight, now, nowRight, first, n, mid, g)
  {
    assert now[0..first] == pre == was[0..first];
    assert now[first..first + |mid|] == mid;
    if first + n - 1 < |was| {
      assert post[1..] == was[first + n..] == now[first + |mid| + 1..];
    }
  }

  /** If the dividers and the new siblings hold what was below the old siblings,
      everything below the parent is met in the same order as before. */
  lemma ExchangeKeepsOrder(pages: Store, next: Store, was: seq<Cell>, wasRight: Pgno, now: seq<Cell>, nowRight: Pgno,
                           first: nat, n: nat, mid: seq<Cell>, g: Pgno, leaf: bool, table: bool)
    requires Exchanged(was, wasRight, now, nowRight, first, n, mid, g)
    requires forall k: nat | k <= |was| && (k < first || first + n <= k) :: SameAt(pages, next, ChildOf(was, wasRight, k))
    requires Then(Under(next, mid, 0, |mid|, leaf, table), ItemsAt(next, g))
          == Then(Under(pages, was, first, first + n - 1, leaf, table), ItemsAt(pages, ChildOf(was, wasRight, first + n - 1)))
    ensures AllUnder(next, now, nowRight, leaf, table) == AllUnder(pages, was, wasRight, leaf, table)
  {
    BelowAt(pages, was, wasRight, leaf, table, first + n - 1);
    BelowAt(next, now, nowRight, leaf, table, first + |mid|);
    HeadSame(pages, next, was, wasRight, now, nowRight, first, n, mid, g, leaf, table);
    TailSame(pages, next, was, wasRight, now, nowRight, first, n, mid, g, leaf, table);
  }

  /** The middle part is what the new siblings and dividers hold. */
  lemma MiddleSame(next: Store, was: seq<Cell>, wasRight: Pgno, now: seq<Cell>, nowRight: Pgno,
                   first: nat, n: nat, mid: seq<Cell>, g: Pgno, leaf: bool, table: bool)
    requires Exchanged(was, wasRight, now, nowRight, first, n, mid, g)
    ensures Middle(next, now, nowRight, first, |mid| + 1, leaf, table) == Then(Under(next, mid, 0, |mid|, leaf, table), ItemsAt(next, g))
  {
    assert mid[0..|mid|] == mid;
    UnderSame(next, now, first, first + |mid|, next, mid, 0, |mid|, leaf, table);
  }

  /** Up to and with the last sibling the same things are met. */
  lemma HeadSame(pages: Store, next: Store, was: seq<Cell>, wasRight: Pgno, now: seq<Cell>, nowRight: Pgno,
                 first: nat, n: nat, mid: seq<Cell>, g: Pgno, leaf: bool, table: bool)
    requires Exchanged(was, wasRight, now, nowRight, first, n, mid, g)
    requires forall k: nat | k <= |was| && (k < first || first + n <= k) :: SameAt(pages, next, ChildOf(was, wasRight, k))
    requires Then(Under(next, mid, 0, |mid|, leaf, table), ItemsAt(next, g))
          == Then(Under(pages, was, first, first + n - 1, leaf, table), ItemsAt(pages, ChildOf(was, wasRight, first + n - 1)))
    ensures Then(Under(next, now, 0, first + |mid|, leaf, table), ItemsAt(next, g))
         == Then(Under(pages, was, 0, first + n - 1, leaf, table), ItemsAt(pages, ChildOf(was, wasRight, first + n - 1)))
  {
    MidSame(pages, next, was, wasRight, now, nowRight, first, n, mid, g, leaf, table);
    UnderSplit(pages, was, 0, first, first + n - 1, leaf, table);
    JoinSame(Under(pages, was, 0, first, leaf, table), Under(next, mid, 0, |mid|, leaf, table), ItemsAt(next, g),
             Under(pages, was, first, first + n - 1, leaf, table), ItemsAt(pages, ChildOf(was, wasRight, first + n - 1)));
  }

  lemma JoinSame(pre: Walk, u: Walk, x: Walk, v: Walk, y: Walk)
    requires Then(u, x) == Then(v, y)
    ensures Then(Then(pre, u), x) == Then(Then(pre, v), y)
  {
    ThenThen(pre, u, x);
    ThenThen(pre, v, y);
  }

  lemma MidSame(pages: Store, next: Store, was: seq<Cell>, wasRight: Pgno, now: seq<Cell>, nowRight: Pgno,
                first: nat, n: nat, mid: seq<Cell>, g: Pgno, leaf: bool, table: bool)
    requires Exchanged(was, wasRight, now, nowRight, first, n, mid, g)
    requires forall k: nat | k <= |was| && (k < first || first + n <= k) :: SameAt(pages, next, ChildOf(was, wasRight, k))
    ensures Under(next, now, 0, first + |mid|, leaf, table) == Then(Under(pages, was, 0, first, leaf, table), Under(next, mid, 0, |mid|, leaf, table))
  {
    UnderSplit(next, now, 0, first, first + |mid|, leaf, table);
    forall i | 0 <= i < first ensures SameAt(pages, next, was[i].child) { assert SameAt(pages, next, ChildOf(was, wasRight, i)); }
    UnderSame(pages, was, 0, first, next, now, 0, first, leaf, table);
    assert mid[0..|mid|] == mid;
    UnderSame(next, now, first, first + |mid|, next, mid, 0, |mid|, leaf, table);
  }

  lemma TailSame(pages: Store, next: Store, was: seq<Cell>, wasRight: Pgno, now: seq<Cell>, nowRight: Pgno,
                 first: nat, n: nat, mid: seq<Cell>, g: Pgno, leaf: bool, table: bool)
    requires Exchanged(was, wasRight, now, nowRight, first, n, mid, g)
    requires forall k: nat | k <= |was| && (k < first || first + n <= k) :: SameAt(pages, next, ChildOf(was, wasRight, k))
    ensures Tail(next, now, nowRight, first + |mid|, leaf, table) == Tail(pages, was, wasRight, first + n - 1, leaf, table)
  {
    var a, b := first + n - 1, first + |mid|;
    if a < |was| {
      AfterSame(pages, next, was, wasRight, now, nowRight, first, n, mid, g, leaf, table);
      assert Divider(now[b], leaf, table) == Divider(was[a], leaf, table);
    }
  }

  lemma AfterSame(pages: Store, next: Store, was: seq<Cell>, wasRight: Pgno, now: seq<Cell>, nowRight: Pgno,
                  first: nat, n: nat, mid: seq<Cell>, g: Pgno, leaf: bool, table: bool)
    requires Exchanged(was, wasRight, now, nowRight, first, n, mid, g) && first + n - 1 < |was|
    requires forall k: nat | k <= |was| && (k < first || first + n <= k) :: SameAt(pages, next, ChildOf(was, wasRight, k))
    ensures Under(next, now, first + |mid| + 1, |now|, leaf, table) == Under(pages, was, first + n, |was|, leaf, table)
    ensures ItemsAt(next, nowRight) == ItemsAt(pages, wasRight)
  {
    var a, b := first + n - 1, first + |mid|;
    forall i | a + 1 <= i < |was| ensures SameAt(pages, next, was[i].child) { assert SameAt(pages, next, ChildOf(was, wasRight, i)); }
    assert SameAt(pages, next, ChildOf(was, wasRight, |was|));
    assert now[b + 1..|now|] == now[b + 1..] == was[a + 1..] == was[a + 1..|was|];
    UnderSame(pages, was, a + 1, |was|, next, now, b + 1, |now|, leaf, table);
  }

  // ---------------------------------------------------------------------
  // Page numbers
  // ---------------------------------------------------------------------

  predicate Ascending(gs: seq<Pgno>) {
    forall i, j | 0 <= i < j < |gs| :: gs[i] < gs[j]
  }

  /** Different page numbers, the same ones in both sequences. */
  ghost predicate SamePages(a: seq<Pgno>, b: seq<Pgno>) {
    |a| == |b| && Distinct(a) && Distinct(b) && forall g :: g in a <==> g in b
  }

  lemma SwapSame(a: seq<Pgno>, b: seq<Pgno>, i: nat, m: nat)
    requires i < |b| && m < |b| && SamePages(a, b)
    ensures SamePages(a, b[i := b[m]][m := b[i]])
  {
    var c := b[i := b[m]][m := b[i]];
    forall g ensures g in b <==> g in c {
      if g in b {
        var k :| 0 <= k < |b| && b[k] == g;
        assert c[if k == i then m else if k == m then i else k] == g;
      }
    }
  }

  /** The numbers before place i are in their final order. */
  predicate SortedTo(gs: seq<Pgno>, i: nat) {
    forall j, k | 0 <= j < k < |gs| && j < i :: gs[j] < gs[k]
  }

  lemma SelectStep(b: seq<Pgno>, i: nat, m: nat)
    requires i <= m < |b| && SortedTo(b, i) && Distinct(b) && forall k | i <= k < |b| :: b[m] <= b[k]
    ensures SortedTo(b[i := b[m]][m := b[i]], i + 1)
  {
    var c := b[i := b[m]][m := b[i]];
    forall j, k | 0 <= j < k < |c| && j < i + 1 ensures c[j] < c[k] {
      if j == i { assert c[k] != c[i] by { assert b[if k == m then i else k] == c[k] && b[m] == c[i]; } }
    }
  }

  /** Put the numbers of the new pages in ascending order, in place. */
  method SortPages(pgnoNew: array<Pgno>)
    requires Distinct(pgnoNew[..])
    modifies pgnoNew
    ensures Ascending(pgnoNew[..]) && SamePages(old(pgnoNew[..]), pgnoNew[..])
  {
    var i := 0;
    while i < pgnoNew.Length - 1
      invariant 0 <= i && SortedTo(pgnoNew[..], i) && SamePages(old(pgnoNew[..]), pgnoNew[..])
    {
      var minV, minI := pgnoNew[i], i;
      var j := i + 1;
      while j < pgnoNew.Length
        invariant i <= minI < j <= pgnoNew.Length && minV == pgnoNew[minI]
        invariant forall k | i <= k < j :: minV <= pgnoNew[k]
      {
        if pgnoNew[j] < minV { minI, minV := j, pgnoNew[j]; }
        j := j + 1;
      }
      SelectStep(pgnoNew[..], i, minI);
      SwapSame(old(pgnoNew[..]), pgnoNew[..], i, minI);
      ghost var c := pgnoNew[..][i := pgnoNew[minI]][minI := pgnoNew[i]];
      if minI > i { pgnoNew[i], pgnoNew[minI] := pgnoNew[minI], pgnoNew[i]; }
      assert pgnoNew[..] == c;
      i := i + 1;
    }
  }

  // ---------------------------------------------------------------------
  // The whole of balance_nonroot
  // ---------------------------------------------------------------------

  function Sizes(cs: seq<Cell>, sizeOf: Cell -> nat): (r: seq<nat>)
    ensures |r| == |cs| && forall i | 0 <= i < |cs| :: r[i] == sizeOf(cs[i])
  {
    seq(|cs|, i requires 0 <= i < |cs| => sizeOf(cs[i]))
  }

  lemma {:induction false} SumOfRun(cs: seq<Cell>, sizeOf: Cell -> nat, a: nat, b: nat)
    requires a <= b <= |cs|
    ensures Sum(Sizes(cs[a..b], sizeOf), 0, b - a) == Sum(Sizes(cs, sizeOf), a, b)
  {
    if a < b {
      SumOfRun(cs, sizeOf, a, b - 1);
      SumPrefix(Sizes(cs[a..b - 1], sizeOf), Sizes(cs[a..b], sizeOf), b - 1 - a);
    }
  }

  lemma {:induction false} SumPrefix(x: seq<nat>, y: seq<nat>, n: nat)
    requires n <= |x| && n <= |y| && forall i | 0 <= i < n :: x[i] == y[i]
    ensures Sum(x, 0, n) == Sum(y, 0, n)
  {
    if n > 0 { SumPrefix(x, y, n - 1); }
  }

  /** A parent whose children are different pages of one kind, and the numbers of
      pages that are free for the taking. */
  ghost predicate Ready(pages: Store, parent: Pgno, spare: seq<Pgno>) {
    && parent in pages && var p := pages[parent];
    && p.aOvfl == [] && !p.leaf
    && (forall k: nat | k <= |p.cells| :: AlikeAt(pages, Child(p, k), parent, PageOf(pages, p.right).leaf, p.leafData))
    && (forall k: nat, m: nat | k < m <= |p.cells| :: Child(p, k) != Child(p, m))
    && |spare| >= MAX_NEW && Distinct(spare) && forall g | g in spare :: g !in pages
  }

  /** The cells gathered from the siblings are within the format's limits, and
      other packs them into at most MAX_NEW pages. */
  ghost predicate CanPack(apCell: seq<Cell>, sizeOf: Cell -> nat, u: nat, leafData: bool, other: seq<nat>) {
    && Limited(Sizes(apCell, sizeOf), u, leafData) && Packed(Sizes(apCell, sizeOf), other, u, leafData) && |other| <= MAX_NEW
  }

  /** The numbers of the siblings. */
  function OldNumbers(p: Node, first: nat, n: nat): (r: seq<Pgno>)
    requires first + n <= |p.cells| + 1
    ensures |r| == n && forall i | 0 <= i < n :: r[i] == Child(p, first + i)
  {
    seq<Pgno>(n, i requires 0 <= i < n => Child(p, first + i))
  }

  /** Old page numbers are used again as far as they reach. */
  function NewNumber(p: Node, first: nat, n: nat, spare: seq<Pgno>, i: nat): Pgno
    requires first + n <= |p.cells| + 1 && i < |spare| + n
  {
    if i < n then Child(p, first + i) else spare[i - n]
  }

  method NewNumbers(ghost pages: Store, ghost parent: Pgno, p: Node, first: nat, n: nat, spare: seq<Pgno>, k: nat) returns (r: seq<Pgno>)
    requires Ready(pages, parent, spare) && p == pages[parent] && first + n <= |p.cells| + 1 && k <= MAX_NEW
    ensures |r| == k && Distinct(r) && Ascending(r)
    ensures forall g | g in r :: exists i: nat | i < k && i < |spare| + n :: g == NewNumber(p, first, n, spare, i)
    ensures SamePages((OldNumbers(p, first, n) + spare)[..k], r)
  {
    var a := new Pgno[k](i requires 0 <= i < k => NewNumber(p, first, n, spare, i));
    NumbersDistinct(pages, parent, p, first, n, spare, a[..]);
    assert a[..] == (OldNumbers(p, first, n) + spare)[..k];
    SortPages(a);
    r := a[..];
  }

  lemma NumbersDistinct(pages: Store, parent: Pgno, p: Node, first: nat, n: nat, spare: seq<Pgno>, r: seq<Pgno>)
    requires Ready(pages, parent, spare) && p == pages[parent] && first + n <= |p.cells| + 1 && |r| <= MAX_NEW
    requires forall i: nat | i < |r| :: r[i] == NewNumber(p, first, n, spare, i)
    ensures Distinct(r)
  {
    forall i: nat, j: nat | i < j < |r| ensures r[i] != r[j] {
      if i < n {
        assert AlikeAt(pages, Child(p, first + i), parent, PageOf(pages, p.right).leaf, p.leafData);
        if j < n { assert Child(p, first + i) != Child(p, first + j); } else { assert spare[j - n] in spare; }
      }
    }
  }

  /** No page that stays outside the siblings is among the new numbers. */
  lemma OutsideNumbers(pages: Store, parent: Pgno, p: Node, first: nat, n: nat, spare: seq<Pgno>, nums: seq<Pgno>, k: nat)
    requires Ready(pages, parent, spare) && p == pages[parent] && first + n <= |p.cells| + 1 && k <= MAX_NEW
    requires forall g | g in nums :: exists i: nat | i < k && i < |spare| + n :: g == NewNumber(p, first, n, spare, i)
    ensures parent !in nums
    ensures forall m: nat | m <= |p.cells| && (m < first || first + n <= m) :: Child(p, m) !in nums
  {
    forall g | g in nums ensures g != parent && forall m: nat | m <= |p.cells| && (m < first || first + n <= m) :: Child(p, m) != g {
      var i: nat :| i < k && i < |spare| + n && g == NewNumber(p, first, n, spare, i);
      if i < n {
        assert AlikeAt(pages, Child(p, first + i), parent, PageOf(pages, p.right).leaf, p.leafData);
      } else {
        assert spare[i - n] in spare;
        forall m: nat | m <= |p.cells| ensures Child(p, m) != g {
          assert AlikeAt(pages, Child(p, m), parent, PageOf(pages, p.right).leaf, p.leafData);
        }
      }
    }
  }

  function Sibling(p: Node, first: nat, i: nat): Pgno
    requires first + i <= |p.cells|
  {
    Child(p, first + i)
  }

  /** The siblings from number k on; those that are not used again are freed. */
  function Freed(p: Node, first: nat, n: nat, k: nat): set<Pgno>
    requires first + n <= |p.cells| + 1
  {
    set i: nat | k <= i < n :: Sibling(p, first, i)
  }

  /** A page is still what it was. */
  ghost predicate Kept(pages: Store, after: Store, g: Pgno) {
    (g in pages <==> g in after) && (g in pages ==> after[g] == pages[g])
  }

  /** A new sibling: within its space, not empty unless it is the only one. */
  ghost predicate NewSibling(after: Store, g: Pgno, leaf: bool, table: bool, sizeOf: Cell -> nat, u: nat, only: bool) {
    && g in after && after[g].leaf == leaf && after[g].leafData == table && after[g].aOvfl == []
    && (only || after[g].cells != []) && Sum(Sizes(after[g].cells, sizeOf), 0, |after[g].cells|) <= u
  }

  /** Child k of the parent after balancing. */
  function ChildAfter(p: Node, first: nat, n: nat, nums: seq<Pgno>, k: nat): Pgno
    requires first + n <= |p.cells| + 1 && k + n <= |p.cells| + |nums|
  {
    if k < first then Child(p, k)
    else if k < first + |nums| then nums[k - first]
    else Child(p, k + n - |nums|)
  }

  /** What balance_nonroot has done to the children first, first + 1, ... */
  ghost predicate Rebalanced(pages: Store, after: Store, parent: Pgno, first: nat, n: nat, nums: seq<Pgno>, sizeOf: Cell -> nat, u: nat) {
    && parent in pages && parent in after && nums != [] && pages[parent].aOvfl == []
    && 0 < n && first + n <= |pages[parent].cells| + 1
    && var p, q := pages[parent], after[parent]; var leaf := PageOf(pages, p.right).leaf;
    && Below(after, q, leaf) == Below(pages, p, leaf)
    && q.leaf == p.leaf && q.leafData == p.leafData && |Cells(q)| + n == |p.cells| + |nums|
    && Ascending(nums) && ChildrenAre(p, q, first, n, nums) && KeysKept(p, q, first, n, |nums|)
    && Middle(after, Cells(q), q.right, first, |nums|, leaf, p.leafData) == Middle(pages, p.cells, p.right, first, n, leaf, p.leafData)
    && (forall m | 0 <= m < |nums| :: NewSibling(after, nums[m], leaf, p.leafData, sizeOf, u, |nums| == 1))
    && (leaf && p.leafData ==> LastKeys(after, q, first, |nums|))
    && OthersKept(pages, after, p, first, n)
    && forall g :: g == parent || g in nums || g in Freed(p, first, n, 0) || Kept(pages, after, g)
  }

  /** The other children of the parent are what they were. */
  ghost predicate OthersKept(pages: Store, after: Store, p: Node, first: nat, n: nat)
    requires first + n <= |p.cells| + 1
  {
    forall m: nat | m <= |p.cells| && (m < first || first + n <= m) :: Kept(pages, after, Child(p, m))
  }

  ghost predicate ChildrenAre(p: Node, q: Node, first: nat, n: nat, nums: seq<Pgno>)
    requires first + n <= |p.cells| + 1 && |Cells(q)| + n == |p.cells| + |nums|
  {
    forall k: nat | k <= |Cells(q)| && k + n <= |p.cells| + |nums| :: ChildOf(Cells(q), q.right, k) == ChildAfter(p, first, n, nums, k)
  }

  /** Outside the siblings the keys of the parent are what they were. */
  ghost predicate KeysKept(p: Node, q: Node, first: nat, n: nat, k: nat)
    requires 0 < n && 0 < k && first + n <= |p.cells| + 1 && |Cells(q)| + n == |p.cells| + k
  {
    && (forall i: nat | i < first :: Cells(q)[i].key == p.cells[i].key)
    && (forall i: nat | first + k - 1 <= i < |Cells(q)| :: Cells(q)[i].key == p.cells[i + n - k].key)
  }

  /** Each divider between the new siblings is the largest key on its left. */
  ghost predicate LastKeys(after: Store, q: Node, first: nat, k: nat) {
    forall m | first <= m < first + k - 1 && m < |Cells(q)| :: LastKey(after, Cells(q)[m])
  }

  lemma ChildrenMade(p: Node, q: Node, first: nat, n: nat, mid: seq<Cell>, nums: seq<Pgno>)
    requires p.aOvfl == [] && 0 < n && first + n <= |p.cells| + 1 && |mid| + 1 == |nums|
    requires forall m | 0 <= m < |mid| :: mid[m].child == nums[m]
    requires Exchanged(p.cells, p.right, Cells(q), q.right, first, n, mid, nums[|mid|])
    ensures |Cells(q)| + n == |p.cells| + |nums| && ChildrenAre(p, q, first, n, nums) && KeysKept(p, q, first, n, |nums|)
  {
    var cs, m := Cells(q), |mid|;
    forall i: nat | i < first ensures cs[i].key == p.cells[i].key { assert cs[0..first][i] == p.cells[0..first][i]; }
    forall i: nat | first + m <= i < |cs| ensures cs[i].key == p.cells[i + n - (m + 1)].key {
      if i > first + m { assert cs[first + m + 1..][i - (first + m + 1)] == p.cells[first + n..][i - (first + m + 1)]; }
    }
    forall k: nat | k <= |cs| && k + n <= |p.cells| + |nums| ensures ChildOf(cs, q.right, k) == ChildAfter(p, first, n, nums, k) {
      if k < first {
        assert cs[0..first][k] == p.cells[0..first][k];
      } else if k < first + m {
        assert cs[first..first + m][k - first] == mid[k - first];
      } else if k > first + m && k < |cs| {
        assert cs[first + m + 1..][k - (first + m + 1)] == p.cells[first + n..][k - (first + m + 1)];
      }
    }
  }

  /** Pack the cells, from the left and then evened out. */
  method PackCells(sz: seq<nat>, u: nat, leafData: bool, ghost other: seq<nat>) returns (cnt: seq<nat>)
    requires Limited(sz, u, leafData) && Packed(sz, other, u, leafData) && |other| <= MAX_NEW
    ensures Packed(sz, cnt, u, leafData) && |cnt| <= |other| && (|cnt| > 1 ==> AllNonEmpty(cnt, leafData))
    ensures EvenedOut(sz, cnt, u, leafData)
  {
    var szNew, cntNew := new nat[MAX_NEW], new nat[MAX_NEW];
    ghost var first;
    var k;
    k, first := Pack(sz, u, leafData, szNew, cntNew, other);
    cnt := cntNew[..k];
    if k > 1 { assert FullAt(sz, first, u, leafData, 0); }
    assert EvenedFrom(sz, first, cnt, u, leafData);
  }

  /** The siblings are there to be gathered. */
  lemma SiblingsReady(pages: Store, parent: Pgno, spare: seq<Pgno>, first: nat, n: nat)
    requires Ready(pages, parent, spare) && 0 < n && first + n <= |pages[parent].cells| + 1
    ensures var p := pages[parent]; Siblings(pages, parent, first, n, PageOf(pages, p.right).leaf, p.leafData)
  {
  }

  /** Storing the parent changes neither the other children nor what is below the
      new siblings. */
  lemma ParentStored(pages: Store, next: Store, parent: Pgno, spare: seq<Pgno>, first: nat, n: nat, nums: seq<Pgno>, mid: seq<Cell>,
                     leaf: bool, table: bool, top: Node)
    requires Ready(pages, parent, spare) && first + n <= |pages[parent].cells| + 1 && parent !in nums && |mid| + 1 == |nums|
    requires forall m | 0 <= m < |mid| :: mid[m].child == nums[m]
    requires OthersKept(pages, next, pages[parent], first, n)
    ensures var p, after := pages[parent], next[parent := top];
      && OthersKept(pages, after, p, first, n)
      && (forall k: nat | k <= |p.cells| && (k < first || first + n <= k) :: SameAt(pages, after, ChildOf(p.cells, p.right, k)))
      && Under(after, mid, 0, |mid|, leaf, table) == Under(next, mid, 0, |mid|, leaf, table)
      && ItemsAt(after, nums[|mid|]) == ItemsAt(next, nums[|mid|])
  {
    var p, after := pages[parent], next[parent := top];
    forall k: nat | k <= |p.cells| && (k < first || first + n <= k)
      ensures SameAt(pages, after, ChildOf(p.cells, p.right, k)) && Kept(pages, after, Child(p, k))
    {
      assert AlikeAt(pages, Child(p, k), parent, PageOf(pages, p.right).leaf, p.leafData);
      assert Kept(pages, next, Child(p, k));
    }
    forall m | 0 <= m < |mid| ensures SameAt(next, after, mid[m].child) { assert mid[m].child == nums[m]; assert nums[m] in nums; }
    assert nums[|mid|] in nums;
    UnderSame(next, mid, 0, |mid|, after, mid, 0, |mid|, leaf, table);
  }

  /** The result of scattering, with the parent stored, is as it should be. */
  lemma OrderKept(pages: Store, next: Store, parent: Pgno, spare: seq<Pgno>, first: nat, n: nat, nums: seq<Pgno>,
                  apCell: seq<Cell>, lastRight: Pgno, mid: seq<Cell>, top: Node)
    requires Ready(pages, parent, spare) && 0 < n && first + n <= |pages[parent].cells| + 1
    requires var p := pages[parent];
      && GatheredAll(pages, p, first, n, PageOf(pages, p.right).leaf, p.leafData, apCell, lastRight)
      && ScatteredAll(next, mid, apCell, PageOf(pages, p.right).leaf, p.leafData, nums, lastRight)
      && Exchanged(p.cells, p.right, Cells(top), top.right, first, n, mid, nums[|mid|]) && top.leafData == p.leafData
    requires parent !in nums
    requires OthersKept(pages, next, pages[parent], first, n)
    ensures var p, after := pages[parent], next[parent := top]; var leaf := PageOf(pages, p.right).leaf;
      && OthersKept(pages, after, p, first, n)
      && Below(after, top, leaf) == Below(pages, p, leaf)
      && first + |mid| + 1 <= |Cells(top)| + 1
      && Middle(after, Cells(top), top.right, first, |mid| + 1, leaf, p.leafData) == Middle(pages, p.cells, p.right, first, n, leaf, p.leafData)
  {
    var p, after := pages[parent], next[parent := top];
    var leaf, g := PageOf(pages, p.right).leaf, nums[|mid|];
    ParentStored(pages, next, parent, spare, first, n, nums, mid, leaf, p.leafData, top);
    ExchangeKeepsOrder(pages, after, p.cells, p.right, Cells(top), top.right, first, n, mid, g, leaf, p.leafData);
    MiddleSame(after, p.cells, p.right, Cells(top), top.right, first, n, mid, g, leaf, p.leafData);
  }

  lemma NewSiblingFits(next: Store, parent: Pgno, top: Node, nums: seq<Pgno>, apCell: seq<Cell>, cnt: seq<nat>, leaf: bool, table: bool,
                       sizeOf: Cell -> nat, u: nat, m: nat)
    requires PagesAre(next, nums, apCell, cnt, leaf, table, |cnt|) && m < |cnt| && parent !in nums
    requires Packed(Sizes(apCell, sizeOf), cnt, u, leaf && table) && (|cnt| > 1 ==> AllNonEmpty(cnt, leaf && table))
    ensures NewSibling(next[parent := top], nums[m], leaf, table, sizeOf, u, |nums| == 1)
  {
    var leafData := leaf && table;
    assert PageIs(next, nums, apCell, cnt, leaf, table, m) && nums[m] in nums;
    SumOfRun(apCell, sizeOf, Start(cnt, m, leafData), cnt[m]);
    assert PageSum(Sizes(apCell, sizeOf), cnt, leafData, m) <= u;
    if |cnt| > 1 { assert NonEmpty(cnt, leafData, m); }
  }

  lemma AllFit(next: Store, parent: Pgno, top: Node, nums: seq<Pgno>, apCell: seq<Cell>, cnt: seq<nat>, leaf: bool, table: bool,
               sizeOf: Cell -> nat, u: nat)
    requires PagesAre(next, nums, apCell, cnt, leaf, table, |cnt|) && parent !in nums
    requires Packed(Sizes(apCell, sizeOf), cnt, u, leaf && table) && (|cnt| > 1 ==> AllNonEmpty(cnt, leaf && table))
    ensures forall m | 0 <= m < |nums| :: NewSibling(next[parent := top], nums[m], leaf, table, sizeOf, u, |nums| == 1)
  {
    forall m | 0 <= m < |nums| ensures NewSibling(next[parent := top], nums[m], leaf, table, sizeOf, u, |nums| == 1) {
      NewSiblingFits(next, parent, top, nums, apCell, cnt, leaf, table, sizeOf, u, m);
    }
  }

  lemma LastKeysMade(next: Store, parent: Pgno, top: Node, p: Node, first: nat, n: nat, mid: seq<Cell>, nums: seq<Pgno>)
    requires |mid| + 1 == |nums| && parent !in nums && forall m | 0 <= m < |mid| :: mid[m].child == nums[m] && LastKey(next, mid[m])
    requires Exchanged(p.cells, p.right, Cells(top), top.right, first, n, mid, nums[|mid|])
    ensures LastKeys(next[parent := top], top, first, |nums|)
  {
    var cs, after := Cells(top), next[parent := top];
    forall m | first <= m < first + |nums| - 1 && m < |cs| ensures LastKey(after, cs[m]) {
      assert cs[first..first + |mid|][m - first] == mid[m - first];
      assert nums[m - first] in nums;
    }
  }

  lemma OthersStay(pages: Store, next: Store, parent: Pgno, spare: seq<Pgno>, p: Node, first: nat, n: nat, k: nat, nums: seq<Pgno>)
    requires Ready(pages, parent, spare) && p == pages[parent] && first + n <= |p.cells| + 1
    requires Untouched(pages - Freed(p, first, n, k), next, nums)
    ensures forall g :: g in nums || g in Freed(p, first, n, 0) || Kept(pages, next, g)
    ensures forall m: nat | m <= |p.cells| && (m < first || first + n <= m) :: Child(p, m) !in Freed(p, first, n, k)
  {
    assert forall g | g in Freed(p, first, n, k) :: g in Freed(p, first, n, 0) by {
      forall g | g in Freed(p, first, n, k) ensures g in Freed(p, first, n, 0) {
        var i: nat :| k <= i < n && g == Sibling(p, first, i);
      }
    }
    forall m: nat | m <= |p.cells| && (m < first || first + n <= m) ensures Child(p, m) !in Freed(p, first, n, k) {
      forall i: nat | k <= i < n ensures Sibling(p, first, i) != Child(p, m) {
        assert Child(p, first + i) != Child(p, m);
      }
    }
  }

  lemma StoredKept(pages: Store, next: Store, parent: Pgno, top: Node, nums: seq<Pgno>, freed: set<Pgno>)
    requires forall g :: g in nums || g in freed || Kept(pages, next, g)
    ensures forall g :: g == parent || g in nums || g in freed || Kept(pages, next[parent := top], g)
  {
    forall g ensures g == parent || g in nums || g in freed || Kept(pages, next[parent := top], g) {
      assert g in nums || g in freed || Kept(pages, next, g);
    }
  }

  /** Everything together, once the parent is stored. */
  lemma AllRebalanced(pages: Store, next: Store, parent: Pgno, spare: seq<Pgno>, first: nat, n: nat, nums: seq<Pgno>, k: nat,
                      apCell: seq<Cell>, cnt: seq<nat>, lastRight: Pgno, mid: seq<Cell>, top: Node, sizeOf: Cell -> nat, u: nat)
    requires Ready(pages, parent, spare) && 0 < n && first + n <= |pages[parent].cells| + 1
    requires var p := pages[parent]; var leaf, table := PageOf(pages, p.right).leaf, p.leafData;
      && GatheredAll(pages, p, first, n, leaf, table, apCell, lastRight)
      && ScatteredAll(next, mid, apCell, leaf, table, nums, lastRight)
      && PagesAre(next, nums, apCell, cnt, leaf, table, |cnt|) && Packed(Sizes(apCell, sizeOf), cnt, u, leaf && table)
      && (|cnt| > 1 ==> AllNonEmpty(cnt, leaf && table))
      && Exchanged(p.cells, p.right, Cells(top), top.right, first, n, mid, nums[|mid|])
      && top.leaf == p.leaf && top.leafData == p.leafData
      && Untouched(pages - Freed(p, first, n, k), next, nums)
    requires Ascending(nums) && k <= MAX_NEW && |nums| == |cnt|
    requires forall g | g in nums :: exists i: nat | i < k && i < |spare| + n :: g == NewNumber(pages[parent], first, n, spare, i)
    ensures Rebalanced(pages, next[parent := top], parent, first, n, nums, sizeOf, u)
  {
    var p, after := pages[parent], next[parent := top];
    var leaf, table := PageOf(pages, p.right).leaf, p.leafData;
    OutsideNumbers(pages, parent, p, first, n, spare, nums, k);
    OthersStay(pages, next, parent, spare, p, first, n, k, nums);
    OrderKept(pages, next, parent, spare, first, n, nums, apCell, lastRight, mid, top);
    ChildrenMade(p, top, first, n, mid, nums);
    AllFit(next, parent, top, nums, apCell, cnt, leaf, table, sizeOf, u);
    if leaf && table { LastKeysMade(next, parent, top, p, first, n, mid, nums); }
    StoredKept(pages, next, parent, top, nums, Freed(p, first, n, 0));
  }

  /** The numbers of the siblings are used again as far as they reach, and then numbers
      of spare; a sibling that is not needed any more is freed. */
  ghost predicate Recycled(pages: Store, after: Store, p: Node, first: nat, n: nat, nums: seq<Pgno>, spare: seq<Pgno>)
    requires first + n <= |p.cells| + 1
  {
    var olds := OldNumbers(p, first, n);
    && |nums| <= n + |spare| && SamePages((olds + spare)[..|nums|], nums)
    && forall g :: g in after <==> g in nums || (g in pages && g !in olds)
  }

  lemma PrefixMember(a: seq<Pgno>, nums: seq<Pgno>, i: nat)
    requires i < |nums| <= |a| && SamePages(a[..|nums|], nums)
    ensures a[i] in nums
  {
    assert a[..|nums|][i] == a[i];
  }

  lemma FreedAre(p: Node, first: nat, n: nat, spare: seq<Pgno>, nums: seq<Pgno>, g: Pgno)
    requires first + n <= |p.cells| + 1 && |nums| <= n + |spare|
    requires SamePages((OldNumbers(p, first, n) + spare)[..|nums|], nums) && g !in nums
    ensures g in OldNumbers(p, first, n) <==> g in Freed(p, first, n, |nums|)
  {
    var olds := OldNumbers(p, first, n);
    if g in olds {
      var i: nat :| i < n && olds[i] == g;
      if i < |nums| { PrefixMember(olds + spare, nums, i); }
      assert g == Sibling(p, first, i);
    }
    if g in Freed(p, first, n, |nums|) {
      var i: nat :| |nums| <= i < n && g == Sibling(p, first, i);
      assert olds[i] == g;
    }
  }

  lemma RecycledIs(pages: Store, next: Store, parent: Pgno, spare: seq<Pgno>, first: nat, n: nat, nums: seq<Pgno>, top: Node)
    requires Ready(pages, parent, spare) && first + n <= |pages[parent].cells| + 1 && |nums| <= n + |spare|
    requires SamePages((OldNumbers(pages[parent], first, n) + spare)[..|nums|], nums)
    requires Untouched(pages - Freed(pages[parent], first, n, |nums|), next, nums) && forall g | g in nums :: g in next
    ensures Recycled(pages, next[parent := top], pages[parent], first, n, nums, spare)
  {
    var p := pages[parent];
    var olds := OldNumbers(p, first, n);
    forall k: nat | k < n ensures olds[k] != parent {
      assert AlikeAt(pages, Child(p, first + k), parent, PageOf(pages, p.right).leaf, p.leafData);
    }
    forall g ensures g in next[parent := top] <==> g in nums || (g in pages && g !in olds) {
      if g !in nums { FreedAre(p, first, n, spare, nums, g); }
    }
  }

  /** Each new sibling has the run of the gathered cells that both passes over them
      give it. */
  ghost predicate Divided(pages: Store, after: Store, p: Node, first: nat, n: nat, nums: seq<Pgno>, sizeOf: Cell -> nat, u: nat, cnt: seq<nat>)
    requires 0 < n && first + n <= |p.cells| + 1
  {
    var cells, leaf := GatherCells(pages, p, first, n), PageOf(pages, p.right).leaf;
    PagesAre(after, nums, cells, cnt, leaf, p.leafData, |cnt|) && EvenedOut(Sizes(cells, sizeOf), cnt, u, leaf && p.leafData)
  }

  lemma DividedIs(next: Store, parent: Pgno, top: Node, nums: seq<Pgno>, apCell: seq<Cell>, cnt: seq<nat>, leaf: bool, table: bool)
    requires PagesAre(next, nums, apCell, cnt, leaf, table, |cnt|) && parent !in nums
    ensures PagesAre(next[parent := top], nums, apCell, cnt, leaf, table, |cnt|)
    ensures forall g | g in nums :: g in next
  {
    forall m: nat | m < |cnt| ensures PageIs(next[parent := top], nums, apCell, cnt, leaf, table, m) && nums[m] in next {
      assert PageIs(next, nums, apCell, cnt, leaf, table, m);
      assert nums[m] in nums;
    }
  }

  lemma AllDone(pages: Store, next: Store, parent: Pgno, spare: seq<Pgno>, first: nat, n: nat, nums: seq<Pgno>,
                apCell: seq<Cell>, cnt: seq<nat>, lastRight: Pgno, mid: seq<Cell>, top: Node, sizeOf: Cell -> nat, u: nat)
    requires Ready(pages, parent, spare) && 0 < n && first + n <= |pages[parent].cells| + 1
    requires var p := pages[parent]; var leaf, table := PageOf(pages, p.right).leaf, p.leafData;
      && GatheredAll(pages, p, first, n, leaf, table, apCell, lastRight)
      && ScatteredAll(next, mid, apCell, leaf, table, nums, lastRight)
      && PagesAre(next, nums, apCell, cnt, leaf, table, |cnt|) && Packed(Sizes(apCell, sizeOf), cnt, u, leaf && table)
      && (|cnt| > 1 ==> AllNonEmpty(cnt, leaf && table))
      && Exchanged(p.cells, p.right, Cells(top), top.right, first, n, mid, nums[|mid|])
      && top.leaf == p.leaf && top.leafData == p.leafData
      && Untouched(pages - Freed(p, first, n, |nums|), next, nums)
    requires Ascending(nums) && |nums| <= MAX_NEW && |nums| == |cnt|
    requires forall g | g in nums :: exists i: nat | i < |nums| && i < |spare| + n :: g == NewNumber(pages[parent], first, n, spare, i)
    requires SamePages((OldNumbers(pages[parent], first, n) + spare)[..|nums|], nums)
    requires var p := pages[parent]; var leaf := PageOf(pages, p.right).leaf;
      apCell == GatherCells(pages, p, first, n) && EvenedOut(Sizes(apCell, sizeOf), cnt, u, leaf && p.leafData)
    ensures var p, after := pages[parent], next[parent := top];
      && Rebalanced(pages, after, parent, first, n, nums, sizeOf, u)
      && Divided(pages, after, p, first, n, nums, sizeOf, u, cnt) && Recycled(pages, after, p, first, n, nums, spare)
  {
    var p := pages[parent];
    OutsideNumbers(pages, parent, p, first, n, spare, nums, |nums|);
    AllRebalanced(pages, next, parent, spare, first, n, nums, |nums|, apCell, cnt, lastRight, mid, top, sizeOf, u);
    DividedIs(next, parent, top, nums, apCell, cnt, PageOf(pages, p.right).leaf, p.leafData);
    RecycledIs(pages, next, parent, spare, first, n, nums, top);
  }

  class BtShared {
    var pages: Store

    /** Balance child idx of a parent with its siblings.  Rebalanced says what
        becomes of them, Divided which cells they get, and Recycled which pages are
        used and freed; sizeOf tells the size of a cell, u the space of a page, spare
        the pages that allocateBtreePage would return. */
    method BalanceNonroot(parent: Pgno, idx: nat, sizeOf: Cell -> nat, u: nat, spare: seq<Pgno>, ghost other: seq<nat>)
      returns (pgnoNew: seq<Pgno>, ghost cnt: seq<nat>)
      requires Ready(pages, parent, spare) && idx <= |pages[parent].cells|
      requires var p := pages[parent]; var nCell := |p.cells|;
        CanPack(GatherCells(pages, p, FirstSibling(nCell, idx), SiblingCount(nCell)), sizeOf, u,
                PageOf(pages, p.right).leaf && p.leafData, other)
      modifies this
      ensures var nCell := |old(pages)[parent].cells|;
        Rebalanced(old(pages), pages, parent, FirstSibling(nCell, idx), SiblingCount(nCell), pgnoNew, sizeOf, u)
      ensures var p := old(pages)[parent]; var nCell := |p.cells|;
        && Divided(old(pages), pages, p, FirstSibling(nCell, idx), SiblingCount(nCell), pgnoNew, sizeOf, u, cnt)
        && Recycled(old(pages), pages, p, FirstSibling(nCell, idx), SiblingCount(nCell), pgnoNew, spare)
    {
      SiblingsAroundIdx(|pages[parent].cells|, idx);
      pages, pgnoNew, cnt := Redistribute(pages, parent, idx, sizeOf, u, spare, other);
    }
  }

  method Redistribute(pages: Store, parent: Pgno, idx: nat, sizeOf: Cell -> nat, u: nat, spare: seq<Pgno>, ghost other: seq<nat>)
    returns (after: Store, pgnoNew: seq<Pgno>, ghost cut: seq<nat>)
    requires Ready(pages, parent, spare) && idx <= |pages[parent].cells|
    requires var p := pages[parent]; var nCell := |p.cells|;
      CanPack(GatherCells(pages, p, FirstSibling(nCell, idx), SiblingCount(nCell)), sizeOf, u,
              PageOf(pages, p.right).leaf && p.leafData, other)
    ensures var nCell := |pages[parent].cells|;
      Rebalanced(pages, after, parent, FirstSibling(nCell, idx), SiblingCount(nCell), pgnoNew, sizeOf, u)
    ensures var p := pages[parent]; var nCell := |p.cells|;
      && Divided(pages, after, p, FirstSibling(nCell, idx), SiblingCount(nCell), pgnoNew, sizeOf, u, cut)
      && Recycled(pages, after, p, FirstSibling(nCell, idx), SiblingCount(nCell), pgnoNew, spare)
  {
    var p := pages[parent];
    var first, n := FirstSibling(|p.cells|, idx), SiblingCount(|p.cells|);
    var leaf, table := PageOf(pages, p.right).leaf, p.leafData;
    SiblingsAroundIdx(|p.cells|, idx);
    SiblingsReady(pages, parent, spare, first, n);
    var apCell, lastRight, now := Gather(pages, parent, first, n, leaf, table);
    var cnt := PackCells(Sizes(apCell, sizeOf), u, leaf && table, other);
    pgnoNew := NewNumbers(pages, parent, p, first, n, spare, |cnt|);
    ghost var mid, before;
    var next, top;
    WithoutDividersIs(p, first, n - 1);
    next, top, mid, before := Scatter(pages - Freed(p, first, n, |cnt|), now, first, apCell, cnt, pgnoNew, leaf, table, lastRight);
    ExchangeMade(p, first, n, mid, before, top, pgnoNew[|mid|]);
    AllDone(pages, next, parent, spare, first, n, pgnoNew, apCell, cnt, lastRight, mid, top, sizeOf, u);
    after := next[parent := top];
    cut := cnt;
  }
}
