/** Cursors: moving through a B-tree and searching it (btree.c:3376-3951). */
module Cursor {
  import opened Balance
  import opened KeyOrder
  import opened Rebalance
  import opened TreeOrder
  import opened Walks

  // ---------------------------------------------------------------------
  // First and next
  // ---------------------------------------------------------------------

  /** moveToLeftmost. */
  method MoveToLeftmost(pages: Store, t0: Trail, ghost root: Pgno, ghost top: nat, ghost table: bool, ghost h: nat) returns (t: Trail)
    requires OnPath(pages, root, top, table, t0, h) && OnCell(pages, t0)
    ensures OnPath(pages, root, top, table, t, 0) && OnCell(pages, t) && pages[t.pgno].leaf
    ensures Rest(pages, t, 0) == Full(pages, t0, h)
  {
    t := t0;
    ghost var d := h;
    while !pages[t.pgno].leaf
      invariant OnPath(pages, root, top, table, t, d) && OnCell(pages, t)
      invariant Full(pages, t, d) == Full(pages, t0, h)
      decreases d
    {
      Down(pages, t, d);
      DownOnPath(pages, root, top, table, t, d);
      t := At(pages[t.pgno].cells[t.idx].child, 0, t);
      d := d - 1;
    }
    FullIsRest(pages, t, d);
  }

  /** sqlite3BtreeIsRootPage. */
  predicate IsRootPage(pages: Store, t: Trail)
    requires t.At?
  {
    if t.up.Top? then true
    else if t.up.pgno > 1 then false
    else |NodeAt(pages, t.up.pgno).cells| == 0
  }

  /** sqlite3BtreeNext, from an entry or from a cell of an inner page of a table. */
  method Next(pages: Store, t0: Trail, ghost root: Pgno, ghost top: nat, ghost table: bool, ghost h: nat)
    returns (t: Trail, more: bool, ghost d: nat)
    requires OnPath(pages, root, top, table, t0, h) && OnCell(pages, t0)
    ensures var after := Full(pages, At(t0.pgno, t0.idx + 1, t0.up), h);
      if more then OnPath(pages, root, top, table, t, d) && OnEntry(pages, t) && Rest(pages, t, d) == after
      else after == End
    decreases if pages[t0.pgno].leaf then 1 else 0
  {
    var p := pages[t0.pgno];
    t, d := At(t0.pgno, t0.idx + 1, t0.up), h;
    ghost var after := Full(pages, t, h);
    if t.idx >= |p.cells| {
      if !p.leaf {
        Down(pages, t, h);
        DownOnPath(pages, root, top, table, t, h);
        t := At(p.right, 0, t);
        t := MoveToLeftmost(pages, t, root, top, table, h - 1);
        return t, true, 0;
      }
      FullIsRest(pages, t, h);
      t, more, d := Climb(pages, t, root, top, table, h);
      if more && pages[t.pgno].leafData {
        AtEntry(pages, t, d);
        t, more, d := Next(pages, t, root, top, table, d);
      }
      return;
    }
    if p.leaf {
      FullIsRest(pages, t, h);
      return t, true, h;
    }
    t := MoveToLeftmost(pages, t, root, top, table, h);
    return t, true, 0;
  }

  /** The do-while loop of sqlite3BtreeNext: up to the first page with a cell
      left. */
  method Climb(pages: Store, t0: Trail, ghost root: Pgno, ghost top: nat, ghost table: bool, ghost h: nat)
    returns (t: Trail, more: bool, ghost d: nat)
    requires OnPath(pages, root, top, table, t0, h) && !OnCell(pages, t0)
    requires h == 0
    ensures if more then OnPath(pages, root, top, table, t, d) && OnCell(pages, t) && !pages[t.pgno].leaf && Rest(pages, t, d) == Rest(pages, t0, h)
            else Rest(pages, t0, h) == End
  {
    t, d := t0, h;
    while true
      invariant OnPath(pages, root, top, table, t, d) && !OnCell(pages, t) && Rest(pages, t, d) == Rest(pages, t0, h)
      decreases t
    {
      AtEnd(pages, t, d);
      if IsRootPage(pages, t) {
        if t.up.At? { AtEnd(pages, t.up, d + 1); }
        return t, false, d;
      }
      t, d := t.up, d + 1;
      if t.idx < |pages[t.pgno].cells| { return t, true, d; }
    }
  }

  // ---------------------------------------------------------------------
  // Last and previous
  // ---------------------------------------------------------------------

  /** moveToRightmost: the last entry beneath a page. */
  method MoveToRightmost(pages: Store, t0: Trail, ghost root: Pgno, ghost top: nat, ghost table: bool, ghost h: nat) returns (t: Trail)
    requires OnPath(pages, root, top, table, t0, h) && |pages[t0.pgno].cells| > 0
    ensures OnPath(pages, root, top, table, t, 0) && OnCell(pages, t) && pages[t.pgno].leaf
    ensures Rest(pages, t, 0) == Then(EntryOf(pages[t.pgno], t.idx), Rest(pages, t0.up, h + 1))
  {
    t := t0;
    ghost var d := h;
    while !pages[t.pgno].leaf
      invariant OnPath(pages, root, top, table, t, d) && |pages[t.pgno].cells| > 0
      invariant Rest(pages, t.up, d + 1) == Rest(pages, t0.up, h + 1)
      decreases d
    {
      t := At(t.pgno, |pages[t.pgno].cells|, t.up);
      AtEnd(pages, t, d);
      DownOnPath(pages, root, top, table, t, d);
      t := At(pages[t.pgno].right, 0, t);
      d := d - 1;
    }
    t := At(t.pgno, |pages[t.pgno].cells| - 1, t.up);
    AtEntry(pages, t, d);
    ghost var e := At(t.pgno, |pages[t.pgno].cells|, t.up);
    FullIsRest(pages, e, d);
    AtEnd(pages, e, d);
  }

  /** The step back to cell idx - 1 meets that cell, if it is an entry. */
  lemma BackOne(pages: Store, t: Trail, h: nat)
    requires t.At? && 0 < t.idx <= |NodeAt(pages, t.pgno).cells|
    ensures Rest(pages, At(t.pgno, t.idx - 1, t.up), h) == Then(EntryOf(NodeAt(pages, t.pgno), t.idx - 1), Full(pages, t, h))
  {
    AtEntry(pages, At(t.pgno, t.idx - 1, t.up), h);
  }

  /** sqlite3BtreePrevious, from an entry or from a cell of an inner page of a
      table. */
  method Previous(pages: Store, t0: Trail, ghost root: Pgno, ghost top: nat, ghost table: bool, ghost h: nat)
    returns (t: Trail, more: bool, ghost d: nat)
    requires OnPath(pages, root, top, table, t0, h) && OnCell(pages, t0)
    ensures !pages[t0.pgno].leaf ==> more
    ensures if more then OnPath(pages, root, top, table, t, d) && OnEntry(pages, t)
                         && Rest(pages, t, d) == Then(EntryOf(pages[t.pgno], t.idx), Rest(pages, t0, h))
            else Rest(pages, t0, h) == InOrder(pages, root, top)
    decreases if pages[t0.pgno].leaf then 1 else 0
  {
    t, d := t0, h;
    if !pages[t.pgno].leaf {
      DownOnPath(pages, root, top, table, t, h);
      t := At(pages[t.pgno].cells[t.idx].child, 0, t);
      t := MoveToRightmost(pages, t, root, top, table, h - 1);
      return t, true, 0;
    }
    FullIsRest(pages, t, d);
    while t.idx == 0
      invariant OnPath(pages, root, top, table, t, d) && Full(pages, t, d) == Rest(pages, t0, h)
      decreases t
    {
      if IsRootPage(pages, t) {
        if t.up.At? { Down(pages, t.up, d + 1); }
        LeftFull(pages, root, top, table, if t.up.At? then t.up else t, if t.up.At? then d + 1 else d);
        return t, false, d;
      }
      Down(pages, t.up, d + 1);
      t, d := t.up, d + 1;
    }
    BackOne(pages, t, d);
    t := At(t.pgno, t.idx - 1, t.up);
    if pages[t.pgno].leafData && !pages[t.pgno].leaf {
      t, more, d := Previous(pages, t, root, top, table, d);
    }
    more := true;
  }

  // ---------------------------------------------------------------------
  // Search
  // ---------------------------------------------------------------------

  /** How a key of the tree compares with the one looked for. */
  function Compare(cell: int, key: int): int {
    if cell == key then 0 else if cell < key then -1 else 1
  }

  /** What the search of a page found: the cell looked at last, and the child to go
      to, before which all keys are smaller. */
  ghost predicate Searched(p: Node, key: int, c: int, idx: nat, lwr: nat) {
    && idx < |p.cells| && c == Compare(p.cells[idx].key, key) && lwr == (if c < 0 then idx + 1 else idx)
    && (forall i: nat | i < lwr :: p.cells[i].key < key) && (c != 0 && lwr < |p.cells| ==> key < p.cells[lwr].key)
  }

  /** The inner loop of sqlite3BtreeMoveto. */
  method SearchPage(p: Node, key: int, biasRight: bool) returns (c: int, idx: nat, lwr: nat)
    requires KeysAscend(p) && |p.cells| > 0
    ensures Searched(p, key, c, idx, lwr)
  {
    lwr := 0;
    var upr: int := |p.cells| - 1;
    idx := if biasRight then upr else (upr + lwr) / 2;
    while true
      invariant lwr <= idx <= upr < |p.cells|
      invariant forall i: nat | i < lwr :: p.cells[i].key < key
      invariant forall i: nat | upr < i < |p.cells| :: key < p.cells[i].key
      decreases upr - lwr
    {
      c := Compare(p.cells[idx].key, key);
      if c == 0 {
        lwr := idx;
        return;
      }
      if c < 0 { lwr := idx + 1; } else { upr := idx - 1; }
      if lwr > upr { return; }
      idx := (lwr + upr) / 2;
    }
  }

  /** What is known of a page on the way down: what is before it is smaller than
      the key looked for, what is after it is larger. */
  ghost predicate Narrowed(pages: Store, t: Trail, d: nat, key: int, lo: int, hi: int) {
    && t.At? && Between(Left(pages, t.up, d + 1), lo, key) && Between(Rest(pages, t.up, d + 1), key, hi)
    && exists l: int, r: int :: 2 * lo <= l && r <= 2 * hi && Sorted(pages, NodeAt(pages, t.pgno), 0, d, l, r)
  }

  /** The search of a page narrows it down to one child. */
  lemma Narrow(pages: Store, t: Trail, d: nat, key: int, lo: int, hi: int, c: int, idx: nat, lwr: nat)
    requires Narrowed(pages, t, d, key, lo, hi)
    requires var p := NodeAt(pages, t.pgno); Searched(p, key, c, idx, lwr) && (c == 0 ==> p.leafData && !p.leaf)
    ensures var s := At(t.pgno, lwr, t.up);
      && Between(Left(pages, s, d), lo, key) && Between(Rest(pages, s, d), key, hi)
      && (d > 0 && !NodeAt(pages, t.pgno).leaf ==> Narrowed(pages, At(Child(NodeAt(pages, t.pgno), lwr), 0, s), d - 1, key, lo, hi))
  {
    var p := NodeAt(pages, t.pgno);
    var l: int, r: int :| 2 * lo <= l && r <= 2 * hi && Sorted(pages, p, 0, d, l, r);
    UpToBetween(pages, p, lwr, d, l, r, lo);
    if lwr > 0 { BetweenWider(UpTo(pages, p, lwr, d), lo, p.cells[lwr - 1].key + 1, lo, key); }
    BetweenThen(Left(pages, t.up, d + 1), UpTo(pages, p, lwr, d), lo, key);
    PastBetween(pages, p, lwr, d, l, r, hi, key);
    BetweenThen(Past(pages, p, lwr, d), Rest(pages, t.up, d + 1), key, hi);
    if d > 0 && !p.leaf { SortedChild(pages, p, lwr, d, l, r); }
  }

  /** Where no key is found, what is before the place is smaller and what comes
      there is larger, so the key is nowhere. */
  lemma NotThere(pages: Store, root: Pgno, top: nat, table: bool, t: Trail, d: nat, key: int, lo: int, hi: int)
    requires OnPath(pages, root, top, table, t, d) && pages[t.pgno].leaf
    requires Between(Left(pages, t, d), lo, key) && Between(Rest(pages, t, d), key, hi)
    ensures !HasKey(InOrder(pages, root, top), key)
  {
    LeftFull(pages, root, top, table, t, d);
    FullIsRest(pages, t, d);
    HasKeyThen(Left(pages, t, d), Rest(pages, t, d), key);
    if HasKey(Left(pages, t, d), key) { KeyBetween(Left(pages, t, d), lo, key, key); }
    if HasKey(Rest(pages, t, d), key) { KeyBetween(Rest(pages, t, d), key, hi, key); }
  }

  lemma There(pages: Store, root: Pgno, top: nat, table: bool, t: Trail, d: nat)
    requires OnPath(pages, root, top, table, t, d) && OnEntry(pages, t)
    ensures HasKey(InOrder(pages, root, top), pages[t.pgno].cells[t.idx].key)
  {
    var p := pages[t.pgno];
    var key := p.cells[t.idx].key;
    LeftFull(pages, root, top, table, t, d);
    FullIsRest(pages, t, d);
    AtEntry(pages, t, d);
    HasKeyThen(EntryOf(p, t.idx), Full(pages, At(t.pgno, t.idx + 1, t.up), d), key);
    HasKeyThen(Beneath(pages, p, t.idx, d), Rest(pages, t, d), key);
    HasKeyThen(Left(pages, t, d), Full(pages, t, d), key);
  }

  /** The outer loop of sqlite3BtreeMoveto. */
  method Search(pages: Store, t0: Trail, key: int, biasRight: bool, ghost root: Pgno, ghost top: nat, ghost table: bool, ghost h: nat,
                ghost lo: int, ghost hi: int) returns (t: Trail, c: int, ghost d: nat)
    requires OnPath(pages, root, top, table, t0, h) && |pages[t0.pgno].cells| > 0 && Narrowed(pages, t0, h, key, lo, hi)
    ensures OnPath(pages, root, top, table, t, d) && OnEntry(pages, t) && c == Compare(pages[t.pgno].cells[t.idx].key, key)
    ensures c == 0 <==> HasKey(InOrder(pages, root, top), key)
    ensures c != 0 ==> pages[t.pgno].leaf
    ensures c < 0 ==> Between(Full(pages, At(t.pgno, t.idx + 1, t.up), d), key, hi)
    ensures c > 0 ==> Between(Left(pages, t, d), lo, key)
  {
    t, d := t0, h;
    while true
      invariant OnPath(pages, root, top, table, t, d) && |pages[t.pgno].cells| > 0 && Narrowed(pages, t, d, key, lo, hi)
      decreases d
    {
      var p := pages[t.pgno];
      ghost var l: int, r: int :| 2 * lo <= l && r <= 2 * hi && Sorted(pages, p, 0, d, l, r);
      SortedKeys(pages, p, d, l, r);
      var idx, lwr;
      c, idx, lwr := SearchPage(p, key, biasRight);
      if c == 0 && !(p.leafData && !p.leaf) {
        t := At(t.pgno, idx, t.up);
        There(pages, root, top, table, t, d);
        return;
      }
      Narrow(pages, t, d, key, lo, hi, c, idx, lwr);
      ghost var s := At(t.pgno, lwr, t.up);
      if p.leaf {
        NotThere(pages, root, top, table, s, d, key, lo, hi);
        FullIsRest(pages, s, d);
        t := At(t.pgno, idx, t.up);
        return;
      }
      DownOnPath(pages, root, top, table, s, d);
      t := At(if lwr >= |p.cells| then p.right else p.cells[lwr].child, 0, At(t.pgno, lwr, t.up));
      d := d - 1;
    }
  }
}
