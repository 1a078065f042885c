/** The order of the keys in a B-tree, and what the search of one page leaves to
    look at (btree.c:3684-3765). */
module KeyOrder {
  import opened Balance
  import opened Rebalance
  import opened TreeOrder
  import opened Walks

  /** Every entry of a walk has a key strictly between lo and hi. */
  predicate Between(w: Walk, lo: int, hi: int) {
    w.Step? ==> w.item.Entry? && lo < w.item.key < hi && Between(w.rest, lo, hi)
  }

  predicate HasKey(w: Walk, k: int) {
    w.Step? && ((w.item.Entry? && w.item.key == k) || HasKey(w.rest, k))
  }

  /** Each entry's key is larger than the one before. */
  predicate Ascending(w: Walk) {
    w.Step? ==> w.item.Entry? && (w.rest.Step? ==> w.rest.item.Entry? && w.item.key < w.rest.item.key) && Ascending(w.rest)
  }

  lemma {:induction false} BetweenThen(a: Walk, b: Walk, lo: int, hi: int)
    ensures Between(Then(a, b), lo, hi) <==> Between(a, lo, hi) && Between(b, lo, hi)
  {
    if a.Step? { BetweenThen(a.rest, b, lo, hi); }
  }

  lemma {:induction false} BetweenWider(w: Walk, lo: int, hi: int, lo2: int, hi2: int)
    requires Between(w, lo, hi) && lo2 <= lo && hi <= hi2
    ensures Between(w, lo2, hi2)
  {
    if w.Step? { BetweenWider(w.rest, lo, hi, lo2, hi2); }
  }

  lemma {:induction false} HasKeyThen(a: Walk, b: Walk, k: int)
    ensures HasKey(Then(a, b), k) <==> HasKey(a, k) || HasKey(b, k)
  {
    if a.Step? { HasKeyThen(a.rest, b, k); }
  }

  lemma {:induction false} KeyBetween(w: Walk, lo: int, hi: int, k: int)
    requires Between(w, lo, hi) && HasKey(w, k)
    ensures lo < k < hi
  {
    if w.item.key != k { KeyBetween(w.rest, lo, hi, k); }
  }

  lemma {:induction false} AscendingThen(a: Walk, b: Walk, lo: int, m: int, hi: int)
    requires Ascending(a) && Ascending(b) && Between(a, lo, m) && Between(b, m - 1, hi)
    ensures Ascending(Then(a, b))
  {
    if a.Step? { AscendingThen(a.rest, b, lo, m, hi); }
  }

  /** Where a cell stands in the order of its tree: a separator of a table comes
      right after the entry with its key. */
  function Rank(key: int, sep: bool): int {
    if sep then 2 * key + 1 else 2 * key
  }

  function CellRank(p: Node, i: nat): int
    requires i < |p.cells|
  {
    Rank(p.cells[i].key, p.leafData && !p.leaf)
  }

  /** From child i on, what is in a subtree is in search order and stands between
      lo and hi: what is below a child stands before the cell that points to it and
      after the cell before that. */
  ghost predicate Sorted(pages: Store, p: Node, i: nat, h: nat, lo: int, hi: int)
    decreases h, |p.cells| - i
  {
    if i < |p.cells| then
      var r := CellRank(p, i);
      && lo < r < hi && Sorted(pages, p, i + 1, h, r, hi)
      && (p.leaf || h == 0 || Sorted(pages, NodeAt(pages, Child(p, i)), 0, h - 1, lo, r))
    else p.leaf || h == 0 || Sorted(pages, NodeAt(pages, Child(p, i)), 0, h - 1, lo, hi)
  }

  /** The bounds l and r are ranks, lo and hi keys that are at least as wide. */
  lemma {:induction false} SortedBetween(pages: Store, p: Node, i: nat, h: nat, l: int, r: int, lo: int, hi: int)
    requires Sorted(pages, p, i, h, l, r) && 2 * lo <= l && r <= 2 * hi
    ensures Between(From(pages, p, i, h), lo, hi) && Ascending(From(pages, p, i, h))
    decreases h, |p.cells| - i
  {
    var b := Beneath(pages, p, i, h);
    if i < |p.cells| {
      var k := p.cells[i].key;
      var e, f := EntryOf(p, i), From(pages, p, i + 1, h);
      var m := if p.leafData && !p.leaf then k + 1 else k;
      SortedBetween(pages, p, i + 1, h, CellRank(p, i), r, k, hi);
      if !p.leaf && h > 0 {
        SortedBetween(pages, NodeAt(pages, Child(p, i)), 0, h - 1, l, CellRank(p, i), lo, m);
        assert b == InOrder(pages, Child(p, i), h - 1);
      }
      BetweenWider(f, k, hi, m - 1, hi);
      BetweenThen(e, f, m - 1, hi);
      AscendingThen(b, Then(e, f), lo, m, hi);
      BetweenWider(b, lo, m, lo, hi);
      BetweenWider(Then(e, f), m - 1, hi, lo, hi);
      BetweenThen(b, Then(e, f), lo, hi);
    } else {
      ThenEnd(b);
      if !p.leaf && h > 0 {
        SortedBetween(pages, NodeAt(pages, Child(p, i)), 0, h - 1, l, r, lo, hi);
        assert b == InOrder(pages, Child(p, i), h - 1);
      }
    }
  }

  /** Where the last cell before child j stands. */
  function Low(p: Node, j: nat, lo: int): int
    requires j <= |p.cells|
  {
    if j == 0 then lo else CellRank(p, j - 1)
  }

  lemma {:induction false} SortedAt(pages: Store, p: Node, j: nat, h: nat, lo: int, hi: int)
    requires Sorted(pages, p, 0, h, lo, hi) && j <= |p.cells|
    ensures Sorted(pages, p, j, h, Low(p, j, lo), hi) && lo <= Low(p, j, lo) && (j > 0 ==> Low(p, j, lo) < hi)
  {
    if j > 0 { SortedAt(pages, p, j - 1, h, lo, hi); }
  }

  predicate KeysAscend(p: Node) {
    forall i: nat, j: nat | i < j < |p.cells| :: p.cells[i].key < p.cells[j].key
  }

  lemma {:induction false} KeysAfter(pages: Store, p: Node, i: nat, h: nat, lo: int, hi: int, j: nat)
    requires Sorted(pages, p, i, h, lo, hi) && i <= j < |p.cells|
    ensures lo < CellRank(p, j) < hi
    decreases j - i
  {
    if i < j { KeysAfter(pages, p, i + 1, h, CellRank(p, i), hi, j); }
  }

  lemma SortedKeys(pages: Store, p: Node, h: nat, lo: int, hi: int)
    requires Sorted(pages, p, 0, h, lo, hi)
    ensures KeysAscend(p)
  {
    forall i: nat, j: nat | i < j < |p.cells| ensures p.cells[i].key < p.cells[j].key {
      SortedAt(pages, p, i + 1, h, lo, hi);
      KeysAfter(pages, p, i + 1, h, CellRank(p, i), hi, j);
    }
  }

  /** Before child j all keys are at most that of the last cell there. */
  lemma {:induction false} UpToBetween(pages: Store, p: Node, j: nat, h: nat, l: int, r: int, lo: int)
    requires Sorted(pages, p, 0, h, l, r) && j <= |p.cells| && 2 * lo <= l
    ensures j == 0 || Between(UpTo(pages, p, j, h), lo, p.cells[j - 1].key + 1)
  {
    if j > 0 {
      var i: nat := j - 1;
      var k := p.cells[i].key;
      var u, b, e := UpTo(pages, p, i, h), Beneath(pages, p, i, h), EntryOf(p, i);
      UpToBetween(pages, p, i, h, l, r, lo);
      SortedAt(pages, p, i, h, l, r);
      if i > 0 { BetweenWider(u, lo, p.cells[i - 1].key + 1, lo, k + 1); }
      if !p.leaf && h > 0 {
        SortedBetween(pages, NodeAt(pages, Child(p, i)), 0, h - 1, Low(p, i, l), CellRank(p, i), lo, k + 1);
        assert b == InOrder(pages, Child(p, i), h - 1);
      }
      BetweenThen(b, e, lo, k + 1);
      BetweenThen(u, Then(b, e), lo, k + 1);
    }
  }

  /** After child j all keys are above k, when the cell there is; in a table's inner
      page also when it is k itself. */
  lemma PastBetween(pages: Store, p: Node, j: nat, h: nat, l: int, r: int, hi: int, k: int)
    requires Sorted(pages, p, 0, h, l, r) && j <= |p.cells| && r <= 2 * hi
    requires j < |p.cells| ==> k < p.cells[j].key || (k == p.cells[j].key && p.leafData && !p.leaf)
    ensures Between(Past(pages, p, j, h), k, hi)
  {
    if j < |p.cells| {
      SortedAt(pages, p, j, h, l, r);
      SortedBetween(pages, p, j + 1, h, CellRank(p, j), r, p.cells[j].key, hi);
      BetweenWider(From(pages, p, j + 1, h), p.cells[j].key, hi, k, hi);
      BetweenThen(EntryOf(p, j), From(pages, p, j + 1, h), k, hi);
    }
  }

  /** The bounds of child j. */
  lemma SortedChild(pages: Store, p: Node, j: nat, h: nat, lo: int, hi: int)
    requires Sorted(pages, p, 0, h, lo, hi) && j <= |p.cells| && !p.leaf && h > 0
    ensures Sorted(pages, NodeAt(pages, Child(p, j)), 0, h - 1, Low(p, j, lo), if j == |p.cells| then hi else CellRank(p, j))
    ensures lo <= Low(p, j, lo) && (j < |p.cells| ==> CellRank(p, j) < hi)
  {
    SortedAt(pages, p, j, h, lo, hi);
  }
}
