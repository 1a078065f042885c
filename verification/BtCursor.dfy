/** The cursor object (btree.c:3376-3951): where it points, and what it remembers
    of the entry there. */
module BtCursors {
  import opened Balance
  import opened Cursor
  import opened KeyOrder
  import opened Rebalance
  import opened TreeOrder
  import opened Walks

  class BtCursor {
    const pages: Store
    const pgnoRoot: Pgno
    /** The page and cell pointed to, and the parents on the way. */
    var place: Trail
    /** eState is CURSOR_VALID. */
    var valid: bool
    /** nKey is the key of the entry pointed to. */
    var validNKey: bool
    var nKey: int
    var atLast: bool

    ghost const top: nat
    ghost const table: bool
    ghost const lo: int
    ghost const hi: int
    ghost var level: nat

    ghost predicate Valid()
      reads this
    {
      && TreeOk()
      && (valid ==> OnPath(pages, pgnoRoot, top, table, place, level) && OnEntry(pages, place))
      && (valid && validNKey ==> nKey == Key())
      && (valid && atLast ==> Remaining() == Current())
    }

    ghost predicate TreeOk() {
      RootOk(pages, pgnoRoot, top, table) && Sorted(pages, NodeAt(pages, pgnoRoot), 0, top, 2 * lo, 2 * hi)
    }

    /** All entries of the tree, in order. */
    ghost function Entries(): Walk {
      InOrder(pages, pgnoRoot, top)
    }

    /** The entries from the one pointed to on. */
    ghost function Remaining(): Walk
      reads this
    {
      if valid then Rest(pages, place, level) else End
    }

    /** The entries before it. */
    ghost function Behind(): Walk
      reads this
    {
      if valid && place.At? then Then(Left(pages, place, level), Beneath(pages, NodeAt(pages, place.pgno), place.idx, level)) else End
    }

    function Key(): int
      requires OnEntry(pages, place)
      reads this
    {
      NodeAt(pages, place.pgno).cells[place.idx].key
    }

    function Current(): Walk
      requires OnEntry(pages, place)
      reads this
    {
      EntryOf(NodeAt(pages, place.pgno), place.idx)
    }

    constructor (pages: Store, pgnoRoot: Pgno, ghost top: nat, ghost table: bool, ghost lo: int, ghost hi: int)
      requires RootOk(pages, pgnoRoot, top, table) && Sorted(pages, NodeAt(pages, pgnoRoot), 0, top, 2 * lo, 2 * hi)
      ensures Valid() && !valid && this.pages == pages && this.pgnoRoot == pgnoRoot && this.top == top
    {
      this.pages, this.pgnoRoot, this.top, this.table, this.lo, this.hi := pages, pgnoRoot, top, table, lo, hi;
      place, valid, validNKey, nKey, atLast, level := Top, false, false, 0, false, 0;
    }

    /** moveToRoot.  The place is the first of the virtual root page. */
    method MoveToRoot()
      requires TreeOk()
      modifies this
      ensures !validNKey && !atLast && valid == (Entries() != End)
      ensures valid ==> && OnPath(pages, pgnoRoot, top, table, place, level) && OnCell(pages, place) && place.idx == 0
                        && Full(pages, place, level) == Entries() && Sorted(pages, NodeAt(pages, place.pgno), 0, level, 2 * lo, 2 * hi)
                        && Left(pages, place.up, level + 1) == Rest(pages, place.up, level + 1) == End
    {
      place, level := At(pgnoRoot, 0, Top), top;
      atLast, validNKey := false, false;
      LeftFull(pages, pgnoRoot, top, table, place, level);
      var pRoot := pages[pgnoRoot];
      if |pRoot.cells| == 0 && !pRoot.leaf {
        Down(pages, place, level);
        DownOnPath(pages, pgnoRoot, top, table, place, level);
        place := At(pRoot.right, 0, place);
        level := level - 1;
      }
      valid := |pages[place.pgno].cells| > 0;
      SomeEntry(pages, pgnoRoot, top, table, place, level);
    }
  
    /** sqlite3BtreeFirst; the result is that the table is empty. */
    method First() returns (res: bool)
      requires Valid()
      modifies this
      ensures Valid() && valid == !res && Remaining() == Entries()
      ensures res == (Entries() == End)
    {
      MoveToRoot();
      if !valid { return true; }
      place := MoveToLeftmost(pages, place, pgnoRoot, top, table, level);
      level := 0;
      return false;
    }

    /** sqlite3BtreeLast. */
    method Last() returns (res: bool)
      requires Valid()
      modifies this
      ensures Valid() && valid == !res && res == (Entries() == End)
      ensures !res ==> Remaining() == Current()
    {
      MoveToRoot();
      if !valid { return true; }
      place := MoveToRightmost(pages, place, pgnoRoot, top, table, level);
      level := 0;
      ThenEnd(Current());
      nKey, validNKey := Key(), true;
      atLast := true;
      return false;
    }

    /** sqlite3BtreeNext; the result is that there is no entry any more. */
    method NextEntry() returns (res: bool)
      requires Valid()
      modifies this
      ensures Valid() && valid == !res
      ensures Remaining() == if old(Remaining()).Step? then old(Remaining()).rest else End
    {
      if !valid { return true; }
      AtEntry(pages, place, level);
      validNKey := false;
      var t, more;
      ghost var d;
      t, more, d := Next(pages, place, pgnoRoot, top, table, level);
      if more { AtEntry(pages, t, d); }
      place, valid, level := t, more, d;
      return !more;
    }

    /** sqlite3BtreePrevious. */
    method PreviousEntry() returns (res: bool)
      requires Valid()
      modifies this
      ensures Valid() && valid == !res
      ensures old(valid) ==> if res then old(Remaining()) == Entries() else Remaining() == Then(Current(), old(Remaining()))
    {
      atLast := false;
      if !valid { return true; }
      validNKey := false;
      var t, more;
      ghost var d;
      t, more, d := Previous(pages, place, pgnoRoot, top, table, level);
      place, valid, level := t, more, d;
      return !more;
    }
  
    /** sqlite3BtreeMoveto.  The result is 0 when the key is there, and the cursor
        on it; else the cursor is on an entry next to where the key would be, and
        the result tells on which side. */
    method Moveto(key: int, biasRight: bool) returns (res: int)
      requires Valid()
      modifies this
      ensures Valid() && valid == (Entries() != End) && res == if valid then Compare(Key(), key) else -1
      ensures res == 0 <==> HasKey(Entries(), key)
      ensures valid && res < 0 ==> Remaining().Step? && Between(Remaining().rest, key, hi)
      ensures res > 0 ==> Between(Behind(), lo, key)
    {
      if valid && validNKey && pages[place.pgno].leafData {
        if nKey == key {
          There(pages, pgnoRoot, top, table, place, level);
          return 0;
        }
        if atLast && nKey < key {
          NothingAbove(pages, pgnoRoot, top, table, place, level, lo, hi, key);
          return -1;
        }
      }
      res := Seek(key, biasRight);
    }

    /** The search from the root. */
    method Seek(key: int, biasRight: bool) returns (res: int)
      requires Valid()
      modifies this
      ensures Valid() && valid == (Entries() != End) && res == if valid then Compare(Key(), key) else -1
      ensures res == 0 <==> HasKey(Entries(), key)
      ensures valid && res < 0 ==> Remaining().Step? && Between(Remaining().rest, key, hi)
      ensures res > 0 ==> Between(Behind(), lo, key)
    {
      MoveToRoot();
      if !valid { return -1; }
      var t;
      ghost var d;
      t, res, d := Search(pages, place, key, biasRight, pgnoRoot, top, table, level, lo, hi);
      AtEntry(pages, t, d);
      ThenEnd(Left(pages, t, d));
      place, level := t, d;
      nKey, validNKey := Key(), true;
    }
  }

  /** On the last entry, whose key is below the one looked for. */
  lemma NothingAbove(pages: Store, root: Pgno, top: nat, table: bool, t: Trail, d: nat, lo: int, hi: int, key: int)
    requires OnPath(pages, root, top, table, t, d) && OnEntry(pages, t) && Sorted(pages, NodeAt(pages, root), 0, top, 2 * lo, 2 * hi)
    requires var p := NodeAt(pages, t.pgno); Rest(pages, t, d) == EntryOf(p, t.idx) && p.cells[t.idx].key < key
    ensures !HasKey(InOrder(pages, root, top), key) && InOrder(pages, root, top) != End
  {
    Splits(pages, root, top, table, t, d);
    SortedBetween(pages, NodeAt(pages, root), 0, top, 2 * lo, 2 * hi, lo, hi);
    LastLargest(Then(Left(pages, t, d), Beneath(pages, NodeAt(pages, t.pgno), t.idx, d)), Rest(pages, t, d), key);
  }

  /** What is behind a place and what remains is everything. */
  lemma Splits(pages: Store, root: Pgno, top: nat, table: bool, t: Trail, h: nat)
    requires OnPath(pages, root, top, table, t, h)
    ensures Then(Then(Left(pages, t, h), Beneath(pages, NodeAt(pages, t.pgno), t.idx, h)), Rest(pages, t, h)) == InOrder(pages, root, top)
  {
    LeftFull(pages, root, top, table, t, h);
    FullIsRest(pages, t, h);
    ThenThen(Left(pages, t, h), Beneath(pages, NodeAt(pages, t.pgno), t.idx, h), Rest(pages, t, h));
  }

  /** Nothing is larger than the last key. */
  lemma {:induction false} LastLargest(a: Walk, e: Walk, key: int)
    requires e.Step? && e.rest == End && e.item.Entry? && e.item.key < key && Ascending(Then(a, e))
    ensures !HasKey(Then(a, e), key) && Then(a, e).Step? && Then(a, e).item.Entry? && Then(a, e).item.key < key
  {
    if a.Step? { LastLargest(a.rest, e, key); }
  }

  // ---------------------------------------------------------------------
  // Whole scans
  // ---------------------------------------------------------------------

  /** First, and Next until there is no entry any more: every entry is met once,
      in order. */
  method Scan(c: BtCursor) returns (w: Walk)
    requires c.Valid()
    modifies c
    ensures w == c.Entries() && c.Valid() && !c.valid
  {
    w := End;
    var res := c.First();
    while !res
      invariant c.Valid() && c.valid == !res && Then(w, c.Remaining()) == c.Entries()
      decreases c.Remaining()
    {
      AtEntry(c.pages, c.place, c.level);
      ghost var rest := c.Remaining().rest;
      ThenThen(w, c.Current(), rest);
      w := Then(w, c.Current());
      res := c.NextEntry();
    }
    ThenEnd(w);
  }

  function Len(w: Walk): nat {
    if w.End? then 0 else 1 + Len(w.rest)
  }

  lemma {:induction false} LenThen(a: Walk, b: Walk)
    ensures Len(Then(a, b)) == Len(a) + Len(b)
  {
    if a.Step? { LenThen(a.rest, b); }
  }

  /** Last, and Previous until there is no entry any more: every entry is met once,
      in reverse order. */
  method ScanBack(c: BtCursor) returns (w: Walk)
    requires c.Valid()
    modifies c
    ensures w == c.Entries() && c.Valid() && !c.valid
  {
    w := End;
    var res := c.Last();
    if res { return; }
    w := c.Current();
    while !res
      invariant c.Valid() && c.valid == !res && if res then w == c.Entries() else w == c.Remaining()
      decreases if res then 0 else 1 + Len(c.Behind())
    {
      Splits(c.pages, c.pgnoRoot, c.top, c.table, c.place, c.level);
      LenThen(c.Behind(), w);
      res := c.PreviousEntry();
      if !res {
        Splits(c.pages, c.pgnoRoot, c.top, c.table, c.place, c.level);
        LenThen(c.Behind(), c.Remaining());
        w := Then(c.Current(), w);
      }
    }
  }

  /** The subtree at a page that has cells has entries. */
  lemma SomeEntry(pages: Store, root: Pgno, top: nat, table: bool, t: Trail, h: nat)
    requires OnPath(pages, root, top, table, t, h) && t.idx == 0
    ensures |pages[t.pgno].cells| > 0 ==> Full(pages, t, h) != End
  {
    if |pages[t.pgno].cells| > 0 { HasEntry(pages, t.pgno, h, table); }
  }

  lemma {:induction false} HasEntry(pages: Store, g: Pgno, h: nat, table: bool)
    requires Subtree(pages, g, h, table)
    ensures InOrder(pages, g, h) != End
    decreases h
  {
    if h > 0 {
      assert Subtree(pages, Child(pages[g], 0), h - 1, table);
      HasEntry(pages, Child(pages[g], 0), h - 1, table);
      assert Beneath(pages, pages[g], 0, h) == InOrder(pages, Child(pages[g], 0), h - 1);
    }
  }
}
