/** Vacuuming: the last page in use moves to a free place, again and again, and
    no table's contents change (btree.c:2200-2287, 2334-2402). */
module IncrVacuum {
  import opened Relocation
  import opened VacuumSize
  import FreeList

  // ---------------------------------------------------------------------
  // Contents without page numbers
  // ---------------------------------------------------------------------

  /** What is reached from a page, n references deep. */
  datatype Content =
    | Nothing
    | Tree(leaf: bool, cells: seq<CellContent>, right: Content)
    | Chain(content: nat, next: Content)

  datatype CellContent = CellContent(child: Content, overflow: Content, content: nat)

  function Unfold(pages: map<Pgno, Page>, g: Pgno, n: nat): Content
    decreases n
  {
    if n == 0 || g !in pages then Nothing
    else match pages[g]
      case Btree(leaf, cells, right) =>
        Tree(leaf,
             seq(|cells|, i requires 0 <= i < |cells| =>
               CellContent(if leaf then Nothing else Unfold(pages, cells[i].child, n - 1),
                           if cells[i].overflow == 0 then Nothing else Unfold(pages, cells[i].overflow, n - 1),
                           cells[i].content)),
             if leaf then Nothing else Unfold(pages, right, n - 1))
      case Ovfl(next, content) => Chain(content, if next == 0 then Nothing else Unfold(pages, next, n - 1))
  }

  /** Renaming a page changes no contents, from wherever one looks and however
      deep. */
  lemma {:induction false} UnfoldRenamed(file: File, m: Pgno, f: Pgno, g: Pgno, n: nat)
    requires Mapped(file) && m in file.pages && f !in file.pages && f != 0 && g in file.pages
    ensures Unfold(Renamed(file.pages, m, f), Moved(g, m, f), n) == Unfold(file.pages, g, n)
    decreases n
  {
    var pages, after := file.pages, Renamed(file.pages, m, f);
    if n > 0 {
      assert after[Moved(g, m, f)] == RenamePage(pages[g], m, f);
      match pages[g]
      case Btree(leaf, cells, right) =>
        var q := RenamePage(pages[g], m, f);
        forall i | 0 <= i < |cells|
          ensures !leaf ==> Unfold(after, q.cells[i].child, n - 1) == Unfold(pages, cells[i].child, n - 1)
          ensures cells[i].overflow != 0 ==>
            q.cells[i].overflow != 0 && Unfold(after, q.cells[i].overflow, n - 1) == Unfold(pages, cells[i].overflow, n - 1)
        {
          if !leaf {
            OnlyReferrer(file, g, Left(i), cells[i].child);
            UnfoldRenamed(file, m, f, cells[i].child, n - 1);
          }
          if cells[i].overflow != 0 {
            OnlyReferrer(file, g, First(i), cells[i].overflow);
            UnfoldRenamed(file, m, f, cells[i].overflow, n - 1);
          }
        }
        if !leaf {
          OnlyReferrer(file, g, Right, right);
          UnfoldRenamed(file, m, f, right, n - 1);
        }
        assert Unfold(after, Moved(g, m, f), n).cells == Unfold(pages, g, n).cells;
      case Ovfl(next, content) =>
        if next != 0 {
          OnlyReferrer(file, g, Next, next);
          UnfoldRenamed(file, m, f, next, n - 1);
        }
    }
  }

  // ---------------------------------------------------------------------
  // One step
  // ---------------------------------------------------------------------

  /** The file, the free list as it is stored, and the last page that is not given
      up (nTrunc, or at first the page count). */
  datatype State = State(file: File, list: FreeList.Free, last: Pgno)

  /** The same, of the free list only the pages on it. */
  datatype Vac = Vac(file: File, free: set<Pgno>, last: Pgno)

  /** A page up to n that can hold data. */
  predicate DataPage(f: Layout, n: Pgno, g: Pgno)
    requires f.Valid()
  {
    1 <= g <= n && !IsPtrmap(f, g)
  }

  /** Page t is known to the pointer map as free. */
  ghost predicate KnownFree(v: Vac, t: Pgno) {
    t in v.file.ptrmap && v.file.ptrmap[t].kind == FreePage
  }

  /** Every data page up to the last is in use or known to be free; what the free
      list holds is free. */
  ghost predicate Inv(f: Layout, v: Vac) {
    && f.Valid() && 1 <= v.last < f.pending && !IsPtrmap(f, v.last) && Mapped(v.file) && 1 in v.file.pages
    && (forall g | g in v.file.pages :: DataPage(f, v.last, g))
    && (forall g | DataPage(f, v.last, g) :: g in v.file.pages || KnownFree(v, g))
    && (forall g | g in v.free :: g !in v.file.pages && DataPage(f, f.pending - 1, g))
    && (forall g | g in v.free && g <= v.last :: KnownFree(v, g))
  }

  /** What a step relies on.  Without a final size the free list holds just the
      free pages; with one, as many free pages are left below it as pages in use
      above it. */
  ghost predicate Budget(f: Layout, v: Vac, nFin: Pgno) {
    f.Valid() &&
    if nFin == 0 then forall g :: g in v.free <==> DataPage(f, v.last, g) && g !in v.file.pages
    else 1 <= nFin <= v.last && !IsPtrmap(f, nFin) && |UpTo(v.free, nFin)| == |Over(v.file.pages.Keys, nFin)|
  }

  datatype Rc = Ok | Done | Corrupt

  /** The last page before n that can hold data. */
  function PageBefore(f: Layout, n: Pgno): Pgno
    requires f.Valid() && n >= 1
  {
    if n - 1 == f.pending || IsPtrmap(f, n - 1) then PageBefore(f, n - 1) else n - 1
  }

  lemma {:induction false} PageBeforeIs(f: Layout, n: Pgno)
    requires f.Valid() && 1 <= n <= f.pending
    ensures var p := PageBefore(f, n); p < n && !IsPtrmap(f, p) && p != f.pending && (n >= 2 ==> p >= 1)
    ensures forall g :: DataPage(f, PageBefore(f, n), g) <==> DataPage(f, n - 1, g)
  {
    if IsPtrmap(f, n - 1) { PageBeforeIs(f, n - 1); }
  }

  function FreeSet(chain: seq<FreeList.Trunk>): set<Pgno> {
    set g | g in FreeList.Pages(chain)
  }

  /** The trunks of a sound free list. */
  ghost predicate ListOk(f: Layout, list: FreeList.Free, chain: seq<FreeList.Trunk>) {
    f.Valid() && FreeList.Valid(list, chain, f.usableSize)
  }

  ghost function Of(s: State, chain: seq<FreeList.Trunk>): Vac {
    Vac(s.file, FreeSet(chain), s.last)
  }

  /** What every step is to keep. */
  ghost predicate Kept(f: Layout, s: State, chain: seq<FreeList.Trunk>, nFin: Pgno) {
    ListOk(f, s.list, chain) && Inv(f, Of(s, chain)) && Budget(f, Of(s, chain), nFin)
  }

  lemma LessOne(s: set<Pgno>, t: set<Pgno>, m: multiset<Pgno>, x: Pgno)
    requires FreeList.NoRepeats(m) && x in m && (forall g :: g in s <==> g in m) && forall g :: g in t <==> g in m - multiset{x}
    ensures x in s && t == s - {x}
  {
    assert m[x] == 1;
    forall g ensures g in t <==> g in s && g != x {
      assert (m - multiset{x})[g] == if g == x then 0 else m[g];
    }
  }

  lemma FreeSetLess(chain: seq<FreeList.Trunk>, rest: seq<FreeList.Trunk>, x: Pgno)
    requires FreeList.NoRepeats(FreeList.Pages(chain)) && x in FreeList.Pages(chain)
    requires FreeList.Pages(rest) == FreeList.Pages(chain) - multiset{x}
    ensures x in FreeSet(chain) && FreeSet(rest) == FreeSet(chain) - {x}
  {
    LessOne(FreeSet(chain), FreeSet(rest), FreeList.Pages(chain), x);
  }

  lemma {:induction false} SetCount(s: set<Pgno>, m: multiset<Pgno>)
    requires FreeList.NoRepeats(m) && forall g :: g in s <==> g in m
    ensures |s| == |m|
    decreases |m|
  {
    if |m| == 0 {
      assert s == {};
    } else {
      var x :| x in m;
      var n := m - multiset{x};
      assert m[x] == 1;
      forall g | g in n ensures n[g] == 1 { assert m[g] == 1; }
      SetCount(s - {x}, n);
    }
  }

  lemma FreeCount(f: Layout, list: FreeList.Free, chain: seq<FreeList.Trunk>)
    requires ListOk(f, list, chain)
    ensures list.count == |FreeSet(chain)| && (list.count == 0 <==> FreeSet(chain) == {})
  {
    SetCount(FreeSet(chain), FreeList.Pages(chain));
  }

  /** allocateBtreePage with nothing to look for. */
  method Draw(f: Layout, list: FreeList.Free, ghost chain: seq<FreeList.Trunk>)
    returns (x: Pgno, left: FreeList.Free, ghost rest: seq<FreeList.Trunk>)
    requires ListOk(f, list, chain) && FreeSet(chain) != {}
    ensures ListOk(f, left, rest) && x in FreeSet(chain) && FreeSet(rest) == FreeSet(chain) - {x}
    ensures FreeList.Clean(list, chain) ==> FreeList.Clean(left, rest)
    ensures FreeList.FirstDrawn(list, f.usableSize, x)
  {
    FreeCount(f, list, chain);
    x, left, rest := FreeList.TakeFromList(list, 0, false, f.usableSize, chain);
    FreeSetLess(chain, rest, x);
  }

  /** Page x has been taken last, after pages above the final size. */
  ghost predicate Took(free: set<Pgno>, nFin: Pgno, x: Pgno, left: set<Pgno>) {
    && x in free && left <= free && x !in left
    && if nFin == 0 then left == free - {x} else UpTo(left, nFin) == UpTo(free, nFin) - {x}
  }

  lemma TookFirst(free: set<Pgno>, nFin: Pgno, x: Pgno)
    requires x in free
    ensures Took(free, nFin, x, free - {x})
  {
  }

  lemma TookMore(free: set<Pgno>, nFin: Pgno, x: Pgno, left: set<Pgno>)
    requires Took(free, nFin, x, left) && 0 < nFin < x && UpTo(free, nFin) != {}
    ensures left != {}
    ensures forall y | y in left :: Took(free, nFin, y, left - {y})
  {
    assert UpTo(left, nFin) == UpTo(free, nFin);
    var y :| y in UpTo(free, nFin);
    assert y in left;
    forall y | y in left ensures Took(free, nFin, y, left - {y}) {
      assert UpTo(left - {y}, nFin) == UpTo(left, nFin) - {y};
    }
  }

  lemma SomeFree(free: set<Pgno>, nFin: Pgno)
    requires if nFin == 0 then free != {} else UpTo(free, nFin) != {}
    ensures free != {}
  {
    if nFin != 0 {
      var y :| y in UpTo(free, nFin);
      assert y in free;
    }
  }

  /** The allocation loop: take pages off the free list until one lies below the
      final size; without a final size, take one. */
  method TakeFree(f: Layout, list: FreeList.Free, nFin: Pgno, ghost chain: seq<FreeList.Trunk>)
    returns (x: Pgno, left: FreeList.Free, ghost rest: seq<FreeList.Trunk>)
    requires ListOk(f, list, chain) && if nFin == 0 then FreeSet(chain) != {} else UpTo(FreeSet(chain), nFin) != {}
    ensures ListOk(f, left, rest) && (FreeList.Clean(list, chain) ==> FreeList.Clean(left, rest))
    ensures Took(FreeSet(chain), nFin, x, FreeSet(rest)) && (nFin != 0 ==> x <= nFin)
    ensures nFin == 0 ==> FreeList.FirstDrawn(list, f.usableSize, x)
  {
    SomeFree(FreeSet(chain), nFin);
    x, left, rest := Draw(f, list, chain);
    TookFirst(FreeSet(chain), nFin, x);
    while nFin != 0 && x > nFin
      invariant ListOk(f, left, rest) && (FreeList.Clean(list, chain) ==> FreeList.Clean(left, rest))
      invariant Took(FreeSet(chain), nFin, x, FreeSet(rest))
      invariant nFin == 0 ==> FreeList.FirstDrawn(list, f.usableSize, x)
      decreases |FreeSet(rest)|
    {
      TookMore(FreeSet(chain), nFin, x, FreeSet(rest));
      x, left, rest := Draw(f, left, rest);
    }
  }

  lemma SomeBelow(f: Layout, v: Vac, nFin: Pgno)
    requires Inv(f, v) && Budget(f, v, nFin) && v.last in v.file.pages && v.free != {} && nFin != v.last
    ensures if nFin == 0 then v.free != {} else UpTo(v.free, nFin) != {}
  {
    if nFin != 0 { assert v.last in Over(v.file.pages.Keys, nFin); }
  }

  /** After the move of the last page to x, and one page less. */
  lemma MoveKeepsInv(f: Layout, v: Vac, x: Pgno, left: set<Pgno>, after: File)
    requires Inv(f, v) && v.last >= 2 && v.last in v.file.pages && x in v.free && x < v.last && left <= v.free && x !in left
    requires Mapped(after) && 1 in v.file.pages && after.pages.Keys == v.file.pages.Keys - {v.last} + {x}
    requires forall t | t !in v.file.pages && t != x :: SameEntry(v.file.ptrmap, after.ptrmap, t)
    ensures Inv(f, Vac(after, left, PageBefore(f, v.last)))
  {
    var w := Vac(after, left, PageBefore(f, v.last));
    PageBeforeIs(f, v.last);
    forall g | DataPage(f, w.last, g) ensures g in after.pages || KnownFree(w, g) {
      if g !in after.pages { assert KnownFree(v, g) && SameEntry(v.file.ptrmap, after.ptrmap, g); }
    }
    forall g | g in left && g <= w.last ensures KnownFree(w, g) {
      assert KnownFree(v, g) && SameEntry(v.file.ptrmap, after.ptrmap, g);
    }
  }

  /** One page less above the final size, one free page less below it. */
  lemma OneLess(used: set<Pgno>, after: set<Pgno>, free: set<Pgno>, left: set<Pgno>, n: Pgno, m: Pgno, x: Pgno)
    requires after == used - {m} + {x} && m in used && x <= n < m && x in free && UpTo(left, n) == UpTo(free, n) - {x}
    ensures |Over(after, n)| == |Over(used, n)| - 1 && |UpTo(left, n)| == |UpTo(free, n)| - 1
  {
    assert Over(after, n) == Over(used, n) - {m};
    assert m in Over(used, n) && x in UpTo(free, n);
  }

  lemma MoveKeepsBudget(f: Layout, v: Vac, nFin: Pgno, x: Pgno, left: set<Pgno>, after: File)
    requires Inv(f, v) && Budget(f, v, nFin) && v.last >= 2 && v.last in v.file.pages && x in v.free && nFin != v.last
    requires after.pages.Keys == v.file.pages.Keys - {v.last} + {x} && (nFin != 0 ==> x <= nFin)
    requires if nFin == 0 then left == v.free - {x} else UpTo(left, nFin) == UpTo(v.free, nFin) - {x}
    ensures Budget(f, Vac(after, left, PageBefore(f, v.last)), nFin)
  {
    PageBeforeIs(f, v.last);
    if nFin != 0 {
      NotBefore(f, v.last, nFin);
      OneLess(v.file.pages.Keys, after.pages.Keys, v.free, left, nFin, v.last, x);
    } else {
      forall g ensures g in left <==> DataPage(f, PageBefore(f, v.last), g) && g !in after.pages {
        assert g in after.pages.Keys <==> (g in v.file.pages.Keys && g != v.last) || g == x;
      }
    }
  }

  /** Stepping back over pointer-map pages does not go past a data page. */
  lemma {:induction false} NotBefore(f: Layout, n: Pgno, p: Pgno)
    requires f.Valid() && 1 <= p < n <= f.pending && !IsPtrmap(f, p)
    ensures p <= PageBefore(f, n)
  {
    if IsPtrmap(f, n - 1) { NotBefore(f, n - 1, p); }
  }

  lemma SkipKeepsInv(f: Layout, v: Vac, nFin: Pgno, left: set<Pgno>)
    requires Inv(f, v) && Budget(f, v, nFin) && v.last >= 2 && v.last !in v.file.pages && nFin != v.last
    requires left == if nFin == 0 then v.free - {v.last} else v.free
    ensures var w := Vac(v.file, left, PageBefore(f, v.last)); Inv(f, w) && Budget(f, w, nFin)
  {
    var w := Vac(v.file, left, PageBefore(f, v.last));
    PageBeforeIs(f, v.last);
    forall g | DataPage(f, w.last, g) ensures g in v.file.pages || KnownFree(w, g) { assert g in v.file.pages || KnownFree(v, g); }
    forall g | g in left && g <= w.last ensures KnownFree(w, g) { assert KnownFree(v, g); }
    if nFin != 0 { NotBefore(f, v.last, nFin); }
  }

  /** What a step does when it does something: the last page is given up, after
      moving what it held to page to, if it was in use. */
  ghost predicate Stepped(v: Vac, w: Vac, to: Pgno) {
    && w.last < v.last
    && if v.last !in v.file.pages then w.file == v.file
       else to < v.last && to !in v.file.pages && to != 0 && w.file.pages == Renamed(v.file.pages, v.last, to)
            && v.last in v.file.ptrmap && v.file.ptrmap[v.last].kind != RootPage
  }

  lemma LastIsPast(f: Layout, v: Vac, nFin: Pgno)
    requires Inv(f, v) && Budget(f, v, nFin) && v.free != {} && nFin != v.last
    ensures v.last >= 2 && v.last in v.file.ptrmap
    ensures v.file.ptrmap[v.last].kind == FreePage <==> v.last !in v.file.pages
    ensures v.last !in v.file.pages && nFin == 0 ==> v.last in v.free
  {
    assert DataPage(f, v.last, v.last) && EntryOk(v.file, v.last);
    if nFin == 0 {
      var g :| g in v.free;
      assert DataPage(f, v.last, g);
    }
  }

  predicate IsRoot(file: File, g: Pgno) {
    g in file.pages && g in file.ptrmap && file.ptrmap[g].kind == RootPage
  }

  /** An incremental step searches the free list for the last page, and an old
      number misleads it. */
  ghost predicate Misled(s: State, chain: seq<FreeList.Trunk>, nFin: Pgno) {
    nFin == 0 && s.last !in s.file.pages && FreeList.Stale(s.list, chain, s.last)
  }

  /** The last page leaves the free list. */
  method TakeLast(f: Layout, list: FreeList.Free, iLast: Pgno, ghost chain: seq<FreeList.Trunk>)
    returns (left: FreeList.Free, ghost rest: seq<FreeList.Trunk>)
    requires ListOk(f, list, chain) && iLast in FreeSet(chain) && iLast > 0
    ensures !FreeList.Stale(list, chain, iLast) ==> ListOk(f, left, rest) && FreeSet(rest) == FreeSet(chain) - {iLast}
    ensures !FreeList.Stale(list, chain, iLast) && FreeList.Clean(list, chain) ==> FreeList.Clean(left, rest)
    ensures FreeList.Stale(list, chain, iLast) ==> FreeList.Misdrew(list, chain, f.usableSize, iLast, iLast, left)
  {
    FreeCount(f, list, chain);
    var x;
    x, left, rest := FreeList.TakeFromList(list, iLast, true, f.usableSize, chain);
    if !FreeList.Stale(list, chain, iLast) { FreeSetLess(chain, rest, x); }
  }

  /** What becomes of the free list in a step. */
  ghost predicate ListStep(f: Layout, s: State, chain: seq<FreeList.Trunk>, nFin: Pgno, w: State, rest: seq<FreeList.Trunk>) {
    if Misled(s, chain, nFin) then FreeList.Misdrew(s.list, chain, f.usableSize, s.last, s.last, w.list)
    else Kept(f, w, rest, nFin) && (FreeList.Clean(s.list, chain) ==> FreeList.Clean(w.list, rest))
  }

  ghost predicate Busy(s: State, nFin: Pgno) {
    s.list.count != 0 && nFin != s.last && s.last in s.file.ptrmap && s.file.ptrmap[s.last].kind != RootPage
  }

  /** The last page is free. */
  method SkipStep(f: Layout, s: State, nFin: Pgno, ghost chain: seq<FreeList.Trunk>) returns (w: State, ghost rest: seq<FreeList.Trunk>)
    requires Kept(f, s, chain, nFin) && Busy(s, nFin) && s.last !in s.file.pages
    ensures ListStep(f, s, chain, nFin, w, rest) && w.file == s.file && w.last < s.last
  {
    ghost var v := Of(s, chain);
    FreeCount(f, s.list, chain);
    LastIsPast(f, v, nFin);
    PageBeforeIs(f, s.last);
    var left := s.list;
    rest := chain;
    if nFin == 0 { left, rest := TakeLast(f, s.list, s.last, chain); }
    if !Misled(s, chain, nFin) { SkipKeepsInv(f, v, nFin, FreeSet(rest)); }
    w := State(s.file, left, PageBefore(f, s.last));
  }

  /** Page x has been taken for the last page to move to. */
  ghost predicate Drawn(v: Vac, nFin: Pgno, x: Pgno, left: set<Pgno>) {
    Took(v.free, nFin, x, left) && (nFin != 0 ==> x <= nFin)
  }

  ghost predicate Movable(f: Layout, v: Vac, nFin: Pgno) {
    Inv(f, v) && Budget(f, v, nFin) && nFin != v.last && v.last in v.file.pages && v.last in v.file.ptrmap && v.file.ptrmap[v.last].kind != RootPage
  }

  /** A page that has been taken lies below the last one, which can move there. */
  lemma DrawnBelow(f: Layout, v: Vac, nFin: Pgno, x: Pgno, left: set<Pgno>)
    requires Movable(f, v, nFin) && Drawn(v, nFin, x, left)
    ensures 0 < x < v.last && v.last >= 2 && x !in v.file.pages && EntryOk(v.file, v.last)
  {
    LastIsPast(f, v, nFin);
    assert DataPage(f, f.pending - 1, x) && EntryOk(v.file, v.last);
    if nFin == 0 { assert DataPage(f, v.last, x); }
  }

  /** The last page moves to x. */
  method MoveLast(f: Layout, file: File, last: Pgno, nFin: Pgno, x: Pgno, ghost free: set<Pgno>, ghost left: set<Pgno>) returns (after: File)
    requires var v := Vac(file, free, last); Movable(f, v, nFin) && Drawn(v, nFin, x, left)
    ensures var v, w := Vac(file, free, last), Vac(after, left, PageBefore(f, last));
      Inv(f, w) && Budget(f, w, nFin) && Stepped(v, w, x)
  {
    ghost var v := Vac(file, free, last);
    DrawnBelow(f, v, nFin, x, left);
    PageBeforeIs(f, last);
    var ok;
    ok, after := RelocatePage(file, last, file.ptrmap[last], x);
    MoveKeepsInv(f, v, x, left, after);
    MoveKeepsBudget(f, v, nFin, x, left, after);
  }

  /** The last page is in use and moves to a free page. */
  method MoveStep(f: Layout, s: State, nFin: Pgno, ghost chain: seq<FreeList.Trunk>) returns (w: State, x: Pgno, ghost rest: seq<FreeList.Trunk>)
    requires Kept(f, s, chain, nFin) && Busy(s, nFin) && s.last in s.file.pages
    ensures Kept(f, w, rest, nFin) && (FreeList.Clean(s.list, chain) ==> FreeList.Clean(w.list, rest))
    ensures Stepped(Of(s, chain), Of(w, rest), x) && (nFin == 0 ==> FreeList.FirstDrawn(s.list, f.usableSize, x))
  {
    FreeCount(f, s.list, chain);
    SomeBelow(f, Of(s, chain), nFin);
    var left;
    x, left, rest := TakeFree(f, s.list, nFin, chain);
    var after := MoveLast(f, s.file, s.last, nFin, x, FreeSet(chain), FreeSet(rest));
    w := State(after, left, PageBefore(f, s.last));
  }

  /** incrVacuumStep.  It fails only when the last page is the root of a table.  It
      keeps the file and the free list as they should be just when no old number
      misleads it; else no sound free list is left. */
  method IncrVacuumStep(f: Layout, s: State, nFin: Pgno, ghost chain: seq<FreeList.Trunk>)
    returns (rc: Rc, w: State, ghost to: Pgno, ghost rest: seq<FreeList.Trunk>)
    requires Kept(f, s, chain, nFin)
    ensures rc == Ok ==> ListStep(f, s, chain, nFin, w, rest) && Stepped(Of(s, chain), Of(w, rest), to)
    ensures rc == Ok ==> s.list.count != 0 && nFin != s.last && ((exists c :: Kept(f, w, c, nFin)) <==> !Misled(s, chain, nFin))
    ensures rc == Ok && nFin == 0 && s.last in s.file.pages ==> FreeList.FirstDrawn(s.list, f.usableSize, to)
    ensures rc == Done ==> w == s && rest == chain && (s.list.count == 0 || nFin == s.last)
    ensures rc == Rc.Corrupt ==> w == s && rest == chain && s.list.count != 0 && nFin != s.last && IsRoot(s.file, s.last)
  {
    to, rest := s.last, chain;
    if s.list.count == 0 || nFin == s.last { return Done, s, to, rest; }
    FreeCount(f, s.list, chain);
    LastIsPast(f, Of(s, chain), nFin);
    var kind := s.file.ptrmap[s.last].kind;
    if kind == RootPage { return Rc.Corrupt, s, to, rest; }
    rc := Ok;
    if kind == FreePage {
      w, rest := SkipStep(f, s, nFin, chain);
    } else {
      w, to, rest := MoveStep(f, s, nFin, chain);
    }
  }

  // ---------------------------------------------------------------------
  // A misled step
  // ---------------------------------------------------------------------

  /** After a step that the first trunk has misled, the next page taken to move
      the last page to is the one just given up, beyond the end of what is kept. */
  lemma NextMoveGoesPast(f: Layout, s: State, chain: seq<FreeList.Trunk>, w: State, rest: seq<FreeList.Trunk>)
    requires Kept(f, s, chain, 0) && ListStep(f, s, chain, 0, w, rest) && w.last < s.last
    requires s.last !in s.file.pages && FreeList.StaleAt(s.list, chain, s.last, 0)
    ensures FreeList.FirstDrawn(w.list, f.usableSize, s.last) && !DataPage(f, w.last, s.last)
  {
    FreeList.GivenTwice(s.list, chain, f.usableSize, s.last);
  }

  const EXAMPLE_LAYOUT := Layout(1024, 1024, 0x10_0001)

  /** Page 1 has an overflow page, 5; pages 4 and 6 are free.  Page 4, the first
      trunk, has no leaves, and an old 6 in its first place. */
  function ExampleState(): State {
    var pages: map<Pgno, Page> := map[1 := Btree(true, [Cell(0, 5, 0)], 0), 3 := Btree(true, [], 0), 5 := Ovfl(0, 0)];
    var ptrmap := map[1 := Entry(RootPage, 0), 3 := Entry(RootPage, 0), 4 := Entry(FreePage, 0), 5 := Entry(Overflow1, 1), 6 := Entry(FreePage, 0)];
    var bytes := seq(254, i => if i == 0 then 6 else 0);
    State(File(pages, ptrmap), FreeList.Free(4, 2, map[4 := FreeList.Page(6, 0, bytes), 6 := FreeList.Page(0, 0, bytes)]), 6)
  }

  function ExampleChain(): seq<FreeList.Trunk> {
    [FreeList.Trunk(4, []), FreeList.Trunk(6, [])]
  }

  lemma ExampleMapped()
    ensures Mapped(ExampleState().file)
  {
    var file := ExampleState().file;
    assert HasSlot(file.pages[1], First(0)) && Target(file.pages[1], First(0)) == 5;
    forall t ensures EntryOk(file, t) {
      if t == 5 { assert Refers(file, 1, Overflow1, 5); }
    }
  }

  lemma ExampleList()
    ensures ListOk(EXAMPLE_LAYOUT, ExampleState().list, ExampleChain()) && FreeSet(ExampleChain()) == {4, 6}
  {
    var chain, list := ExampleChain(), ExampleState().list;
    var all := FreeList.Pages(chain);
    assert chain[1..] == [FreeList.Trunk(6, [])] && chain[1..][1..] == [];
    assert all == multiset{4, 6};
    assert FreeList.Linked(list.pages, 0, chain[1..][1..], 0);
    assert FreeList.TrunkAt(list.pages, chain[1..][0], 0);
    assert FreeList.Linked(list.pages, 6, chain[1..], 0);
    assert FreeList.TrunkAt(list.pages, chain[0], 6);
  }

  lemma ExamplePlaces(g: Pgno)
    requires 1 <= g <= 6
    ensures EXAMPLE_LAYOUT.Valid() && (DataPage(EXAMPLE_LAYOUT, 6, g) <==> g != 2)
  {
    if g >= 2 { assert GroupStart(EXAMPLE_LAYOUT.Group(), g) == 2; }
  }

  lemma ExampleInv()
    ensures Inv(EXAMPLE_LAYOUT, Vac(ExampleState().file, {4, 6}, 6)) && Budget(EXAMPLE_LAYOUT, Vac(ExampleState().file, {4, 6}, 6), 0)
  {
    var f, v := EXAMPLE_LAYOUT, Vac(ExampleState().file, {4, 6}, 6);
    ExampleMapped();
    forall g | 1 <= g <= 6 ensures DataPage(f, 6, g) <==> g != 2 { ExamplePlaces(g); }
    assert v.file.pages.Keys == {1, 3, 5};
    forall g | DataPage(f, 6, g) ensures g in v.file.pages || KnownFree(v, g) { assert g == 1 || g == 3 || g == 4 || g == 5 || g == 6; }
    forall g ensures g in v.free <==> DataPage(f, 6, g) && g !in v.file.pages {}
  }

  /** Such a step can happen: all is as it should be, but the step is misled, and
      the next move would be past the end, to page 6. */
  lemma MisledCanHappen()
    ensures var f, s, chain := EXAMPLE_LAYOUT, ExampleState(), ExampleChain();
      Kept(f, s, chain, 0) && Misled(s, chain, 0) && FreeList.StaleAt(s.list, chain, s.last, 0)
  {
    ExampleInv();
    ExampleList();
    assert ExampleChain()[..0] == [];
    assert FreeList.StaleAt(ExampleState().list, ExampleChain(), 6, 0);
  }

  // ---------------------------------------------------------------------
  // Whole vacuums
  // ---------------------------------------------------------------------

  /** Some page has gone to x. */
  ghost predicate Hit(ren: map<Pgno, Pgno>, x: Pgno) {
    exists g :: g in ren && ren[g] == x
  }

  ghost predicate Together(ren: map<Pgno, Pgno>, g: Pgno, h: Pgno) {
    g in ren && h in ren && ren[g] == ren[h]
  }

  ghost predicate GoesIn(now: File, ren: map<Pgno, Pgno>, g: Pgno) {
    g in ren ==> ren[g] in now.pages
  }

  /** Each page in use has gone to a page in use, no two to the same one. */
  ghost predicate Bijective(orig: File, now: File, ren: map<Pgno, Pgno>) {
    && ren.Keys == orig.pages.Keys && (forall g :: GoesIn(now, ren, g))
    && (forall x :: x in now.pages ==> Hit(ren, x)) && (forall g, h | Together(ren, g, h) :: g == h)
  }

  ghost predicate SameContents(orig: File, now: File, ren: map<Pgno, Pgno>, g: Pgno, n: nat) {
    g in ren ==> Unfold(now.pages, ren[g], n) == Unfold(orig.pages, g, n)
  }

  /** The contents of each page are reached from where it has gone. */
  ghost predicate ContentsFollow(orig: File, now: File, ren: map<Pgno, Pgno>) {
    forall g, n: nat :: SameContents(orig, now, ren, g, n)
  }

  ghost predicate RootStaysAt(orig: File, now: File, ren: map<Pgno, Pgno>, g: Pgno) {
    g in ren ==> (IsRoot(orig, g) <==> IsRoot(now, ren[g])) && (IsRoot(orig, g) ==> ren[g] == g)
  }

  /** Roots have stayed, and no page has become one. */
  ghost predicate RootsStay(orig: File, now: File, ren: map<Pgno, Pgno>) {
    forall g :: RootStaysAt(orig, now, ren, g)
  }

  ghost predicate Follows(orig: File, now: File, ren: map<Pgno, Pgno>) {
    Bijective(orig, now, ren) && ContentsFollow(orig, now, ren) && RootsStay(orig, now, ren)
  }

  function Identity(file: File): map<Pgno, Pgno> {
    map g | g in file.pages :: g
  }

  lemma FollowsItself(file: File)
    ensures Follows(file, file, Identity(file))
  {
    var ren := Identity(file);
    forall x | x in file.pages ensures Hit(ren, x) { assert x in ren && ren[x] == x; }
  }

  /** A root page is still a root when another page has moved. */
  lemma RootStays(file: File, after: File, m: Pgno, f: Pgno, g: Pgno)
    requires Mapped(file) && Mapped(after) && m in file.pages && f !in file.pages && f != 0
    requires after.pages == Renamed(file.pages, m, f) && IsRoot(file, g) && g != m
    ensures IsRoot(after, g)
  {
    assert EntryOk(after, g);
    if after.ptrmap[g].kind != RootPage {
      var e := after.ptrmap[g];
      assert Refers(after, e.parent, e.kind, g);
      var s :| HasSlot(after.pages[e.parent], s) && KindOf(s) == e.kind && Target(after.pages[e.parent], s) == g;
      var x := if e.parent == f then m else e.parent;
      RenameSlots(file.pages[x], m, f, s);
      OnlyReferrer(file, x, s, g);
    }
  }

  /** No page becomes a root by moving. */
  lemma NoNewRoot(file: File, after: File, m: Pgno, f: Pgno, g: Pgno)
    requires Mapped(file) && Mapped(after) && m in file.pages && f !in file.pages && f != 0
    requires after.pages == Renamed(file.pages, m, f) && g in file.pages && IsRoot(after, Moved(g, m, f))
    ensures IsRoot(file, g)
  {
    assert EntryOk(file, g);
    if file.ptrmap[g].kind != RootPage {
      var e := file.ptrmap[g];
      assert Refers(file, e.parent, e.kind, g);
      var s :| HasSlot(file.pages[e.parent], s) && KindOf(s) == e.kind && Target(file.pages[e.parent], s) == g;
      RenameSlots(file.pages[e.parent], m, f, s);
      OnlyReferrer(after, Moved(e.parent, m, f), s, Moved(g, m, f));
    }
  }

  function MoveAll(ren: map<Pgno, Pgno>, m: Pgno, f: Pgno): map<Pgno, Pgno> {
    map g | g in ren :: Moved(ren[g], m, f)
  }

  lemma BijectiveMove(orig: File, now: File, ren: map<Pgno, Pgno>, after: File, m: Pgno, f: Pgno)
    requires Bijective(orig, now, ren) && m in now.pages && f !in now.pages && after.pages == Renamed(now.pages, m, f)
    ensures Bijective(orig, after, MoveAll(ren, m, f))
  {
    var next := MoveAll(ren, m, f);
    forall x | x in after.pages ensures Hit(next, x) {
      var y := if x == f then m else x;
      assert Hit(ren, y);
      var g :| g in ren && ren[g] == y;
      assert g in next && next[g] == x;
    }
    forall g, h | Together(next, g, h) ensures g == h {
      assert GoesIn(now, ren, g) && GoesIn(now, ren, h);
      assert Together(ren, g, h);
    }
    forall g ensures GoesIn(after, next, g) { assert GoesIn(now, ren, g); }
  }

  lemma ContentsMove(orig: File, now: File, ren: map<Pgno, Pgno>, after: File, m: Pgno, f: Pgno)
    requires Bijective(orig, now, ren) && ContentsFollow(orig, now, ren) && Mapped(now)
    requires m in now.pages && f !in now.pages && f != 0 && after.pages == Renamed(now.pages, m, f)
    ensures ContentsFollow(orig, after, MoveAll(ren, m, f))
  {
    var next := MoveAll(ren, m, f);
    forall g, n: nat ensures SameContents(orig, after, next, g, n) {
      if g in next {
        assert GoesIn(now, ren, g) && SameContents(orig, now, ren, g, n);
        UnfoldRenamed(now, m, f, ren[g], n);
      }
    }
  }

  lemma RootsMove(orig: File, now: File, ren: map<Pgno, Pgno>, after: File, m: Pgno, f: Pgno)
    requires Bijective(orig, now, ren) && RootsStay(orig, now, ren) && Mapped(now) && Mapped(after)
    requires m in now.pages && f !in now.pages && f != 0 && after.pages == Renamed(now.pages, m, f) && !IsRoot(now, m)
    ensures RootsStay(orig, after, MoveAll(ren, m, f))
  {
    var next := MoveAll(ren, m, f);
    forall g ensures RootStaysAt(orig, after, next, g) {
      if g in next {
        assert RootStaysAt(orig, now, ren, g) && GoesIn(now, ren, g);
        if IsRoot(orig, g) { RootStays(now, after, m, f, g); }
        if IsRoot(after, next[g]) { NoNewRoot(now, after, m, f, ren[g]); }
      }
    }
  }

  lemma FollowsStep(f: Layout, orig: File, v: Vac, ren: map<Pgno, Pgno>, w: Vac, to: Pgno) returns (next: map<Pgno, Pgno>)
    requires Follows(orig, v.file, ren) && Inv(f, v) && Inv(f, w) && Stepped(v, w, to)
    ensures Follows(orig, w.file, next)
  {
    next := ren;
    if v.last in v.file.pages {
      BijectiveMove(orig, v.file, ren, w.file, v.last, to);
      ContentsMove(orig, v.file, ren, w.file, v.last, to);
      RootsMove(orig, v.file, ren, w.file, v.last, to);
      next := MoveAll(ren, v.last, to);
    }
  }

  /** Where a vacuum that began at v is.  Without a final size it needs a free list
      that misleads no search. */
  ghost predicate Going(f: Layout, v: State, nFin: Pgno, w: State, chain: seq<FreeList.Trunk>, ren: map<Pgno, Pgno>) {
    && Kept(f, w, chain, nFin) && (nFin == 0 ==> FreeList.Clean(w.list, chain)) && Follows(v.file, w.file, ren)
    && w.last <= v.last && (w.last == v.last ==> w == v)
  }

  lemma NotMisled(f: Layout, s: State, chain: seq<FreeList.Trunk>, nFin: Pgno)
    requires Kept(f, s, chain, nFin) && (nFin == 0 ==> FreeList.Clean(s.list, chain)) && s.list.count != 0 && nFin != s.last
    ensures !Misled(s, chain, nFin)
  {
    FreeCount(f, s.list, chain);
    LastIsPast(f, Of(s, chain), nFin);
    if nFin == 0 && s.last !in s.file.pages { FreeList.CleanNotStale(s.list, chain, s.last); }
  }

  method StepFollowed(f: Layout, ghost v: State, nFin: Pgno, w: State, ghost chain: seq<FreeList.Trunk>, ghost ren: map<Pgno, Pgno>)
    returns (rc: Rc, x: State, ghost rest: seq<FreeList.Trunk>, ghost next: map<Pgno, Pgno>)
    requires Going(f, v, nFin, w, chain, ren)
    ensures Going(f, v, nFin, x, rest, next)
    ensures x.last <= w.last && (rc == Ok ==> x.last < w.last)
    ensures rc == Done ==> x.list.count == 0 || nFin == x.last
    ensures rc == Rc.Corrupt ==> IsRoot(x.file, x.last) && nFin != x.last
  {
    ghost var to;
    next := ren;
    rc, x, to, rest := IncrVacuumStep(f, w, nFin, chain);
    if rc == Ok {
      NotMisled(f, w, chain, nFin);
      next := FollowsStep(f, v.file, Of(w, chain), ren, Of(x, rest), to);
    }
  }

  /** Steps until there is nothing more to do. */
  method VacuumTo(f: Layout, v: State, nFin: Pgno, ghost chain: seq<FreeList.Trunk>)
    returns (rc: Rc, w: State, ghost rest: seq<FreeList.Trunk>, ghost ren: map<Pgno, Pgno>)
    requires Kept(f, v, chain, nFin) && (nFin == 0 ==> FreeList.Clean(v.list, chain))
    ensures rc == Done || (rc == Rc.Corrupt && IsRoot(w.file, w.last) && nFin != w.last)
    ensures Going(f, v, nFin, w, rest, ren)
    ensures rc == Done ==> w.list.count == 0 || nFin == w.last
  {
    FollowsItself(v.file);
    rc, w, rest, ren := Ok, v, chain, Identity(v.file);
    while rc == Ok
      invariant Going(f, v, nFin, w, rest, ren)
      invariant rc == Done ==> w.list.count == 0 || nFin == w.last
      invariant rc == Rc.Corrupt ==> IsRoot(w.file, w.last) && nFin != w.last
      decreases w.last, if rc == Ok then 1 else 0
    {
      rc, w, rest, ren := StepFollowed(f, v, nFin, w, rest, ren);
    }
  }

  /** sqlite3BtreeIncrVacuum until it reports that it is done: no free page is
      left and the pages in use are the data pages up to the last. */
  lemma IncrementalDone(f: Layout, w: Vac)
    requires Inv(f, w) && Budget(f, w, 0) && w.free == {}
    ensures forall g :: g in w.file.pages <==> DataPage(f, w.last, g)
  {
    forall g ensures g in w.file.pages <==> DataPage(f, w.last, g) {}
  }

  /** With a final size: no page in use is left beyond it. */
  lemma FinalDone(f: Layout, w: Vac, nFin: Pgno)
    requires Inv(f, w) && Budget(f, w, nFin) && nFin != 0 && (w.free == {} || nFin == w.last)
    ensures forall g | g in w.file.pages :: g <= nFin
  {
    if w.free == {} && nFin != w.last {
      assert UpTo(w.free, nFin) == {};
      assert Over(w.file.pages.Keys, nFin) == {};
      forall g | g in w.file.pages ensures g <= nFin { assert g !in Over(w.file.pages.Keys, nFin); }
    } else {
      forall g | g in w.file.pages ensures g <= nFin { assert DataPage(f, w.last, g); }
    }
  }

  lemma AllCounted(f: Layout, n: Pgno, used: set<Pgno>, free: set<Pgno>)
    requires f.Valid() && n < f.pending && used !! free && forall g :: g in used + free <==> DataPage(f, n, g)
    ensures used + free == DataSet(f, n)
  {
    DataSetIs(f, n);
  }

  /** Every root lies within the final size. */
  ghost predicate RootsBelow(v: State, nFin: Pgno) {
    forall g: Pgno | IsRoot(v.file, g) :: g <= nFin
  }

  lemma LastNotRoot(v: State, w: State, nFin: Pgno, ren: map<Pgno, Pgno>)
    requires RootsBelow(v, nFin) && Follows(v.file, w.file, ren) && w.last > nFin
    ensures !IsRoot(w.file, w.last)
  {
    if w.last in w.file.pages {
      assert Hit(ren, w.last);
      var g: Pgno :| g in ren && ren[g] == w.last;
      assert RootStaysAt(v.file, w.file, ren, g);
      assert IsRoot(v.file, g) ==> g <= nFin;
    }
  }

  /** The pages that some pages have gone to are as many. */
  lemma {:induction false} AsMany(ren: map<Pgno, Pgno>, s: set<Pgno>)
    requires s <= ren.Keys && forall g, h | Together(ren, g, h) :: g == h
    ensures |set g | g in s :: ren[g]| == |s|
  {
    if g :| g in s {
      var rest := s - {g};
      AsMany(ren, rest);
      var image, less := set h | h in s :: ren[h], set h | h in rest :: ren[h];
      assert ren[g] !in less by {
        forall h | h in rest ensures ren[h] != ren[g] { assert Together(ren, g, h) ==> g == h; }
      }
      assert image == less + {ren[g]};
    }
  }

  lemma SameCount(orig: File, now: File, ren: map<Pgno, Pgno>)
    requires Bijective(orig, now, ren)
    ensures |now.pages.Keys| == |orig.pages.Keys|
  {
    AsMany(ren, ren.Keys);
    var image := set g | g in ren.Keys :: ren[g];
    forall x ensures x in image <==> x in now.pages.Keys {
      if x in now.pages { assert Hit(ren, x); }
      if x in image { var g :| g in ren && ren[g] == x; assert GoesIn(now, ren, g); }
    }
    assert image == now.pages.Keys;
  }

  lemma SubsetAll(a: set<Pgno>, b: set<Pgno>)
    requires a <= b && |a| == |b|
    ensures a == b
  {
    assert b == a + (b - a);
  }

  /** As many pages are in use as there are data pages up to the exact size; so if they
      lie there, they are just those. */
  lemma FullUpTo(f: Layout, v: State, chain: seq<FreeList.Trunk>, now: File, ren: map<Pgno, Pgno>, nFin: Pgno)
    requires Kept(f, v, chain, 0) && Exact(f, v.last, v.list.count, nFin) && Bijective(v.file, now, ren)
    requires forall g | g in now.pages :: DataPage(f, nFin, g)
    ensures forall g :: g in now.pages <==> DataPage(f, nFin, g)
  {
    FreeCount(f, v.list, chain);
    AllCounted(f, v.last, v.file.pages.Keys, FreeSet(chain));
    DataSetIs(f, v.last);
    DataSetIs(f, nFin);
    SameCount(v.file, now, ren);
    SubsetAll(now.pages.Keys, DataSet(f, nFin));
  }

  /** The exact size is the present one when there is nothing free, and less otherwise. */
  lemma ExactLess(f: Layout, nOrig: Pgno, nFree: nat, nFin: Pgno)
    requires f.Valid() && Exact(f, nOrig, nFree, nFin) && 0 < nOrig && !IsPtrmap(f, nOrig)
    ensures nFin == nOrig <==> nFree == 0
  {
    if nFin < nOrig { MoreDataPages(f, nFin, nOrig); }
  }

  lemma {:induction false} MoreDataPages(f: Layout, n: Pgno, m: Pgno)
    requires f.Valid() && n < m && !IsPtrmap(f, m)
    ensures DataPages(f, n) < DataPages(f, m)
  {
    DataPagesGrow(f, n, m - 1);
  }

  lemma {:induction false} DataPagesGrow(f: Layout, n: Pgno, m: Pgno)
    requires f.Valid() && n <= m
    ensures DataPages(f, n) <= DataPages(f, m)
  {
    if n < m { DataPagesGrow(f, n, m - 1); }
  }

  /** Where the vacuum ends, no root lies beyond the final size, and where it fails one
      does. */
  lemma RootsDecide(f: Layout, v: State, w: State, rest: seq<FreeList.Trunk>, nFin: Pgno, ren: map<Pgno, Pgno>, done: bool)
    requires Going(f, v, nFin, w, rest, ren) && nFin != 0
    requires if done then w.list.count == 0 || nFin == w.last else IsRoot(w.file, w.last) && nFin != w.last
    ensures done <==> RootsBelow(v, nFin)
    ensures done ==> forall g | g in w.file.pages :: g <= nFin
  {
    FreeCount(f, w.list, rest);
    if done {
      FinalDone(f, Of(w, rest), nFin);
      forall g: Pgno | IsRoot(v.file, g) ensures g <= nFin {
        assert RootStaysAt(v.file, w.file, ren, g) && GoesIn(w.file, ren, g);
      }
    } else {
      if RootsBelow(v, nFin) { LastNotRoot(v, w, nFin, ren); }
    }
  }

  /** The commit of an auto-vacuum file.  It works if and only if the roots lie up to
      nFin, the size with the free pages left out, and fails with the file as it was
      otherwise.  With nothing free it changes nothing and nTrunc is 0; else nTrunc is
      that size, every page up to it is in use, and the free list is empty. */
  method AutoVacuumCommit(f: Layout, v: State, ghost chain: seq<FreeList.Trunk>)
    returns (rc: Rc, w: State, nTrunc: Pgno, ghost ren: map<Pgno, Pgno>, ghost size: Pgno)
    requires Kept(f, v, chain, 0) && FileAt(f, v.last, v.list.count) && f.pageSize / 5 == f.Entries()
    ensures Exact(f, v.last, v.list.count, size)
    ensures if RootsBelow(v, size) then rc == Done else rc == Rc.Corrupt && w == v
    ensures rc == Done ==> Mapped(w.file) && Follows(v.file, w.file, ren)
    ensures rc == Done && v.list.count == 0 ==> w == v && nTrunc == 0
    ensures rc == Done && v.list.count != 0 ==>
      && 0 < nTrunc == size < v.last && w.last == size && (forall g :: g in w.file.pages <==> DataPage(f, size, g))
      && FreeList.Valid(w.list, [], f.usableSize)
  {
    FreeCount(f, v.list, chain);
    SizeIsExact(f, v.last, v.list.count);
    var r := FinalSize(f, v.last, v.list.count);
    var nFin := r.nFin;
    size := nFin;
    ExactLess(f, v.last, v.list.count, nFin);
    AllCounted(f, v.last, v.file.pages.Keys, FreeSet(chain));
    RoomForEveryPage(f, v.last, nFin, v.file.pages.Keys, FreeSet(chain));
    ghost var rest;
    rc, w, rest, ren := VacuumTo(f, v, nFin, chain);
    RootsDecide(f, v, w, rest, nFin, ren, rc == Done);
    if rc != Done { return rc, v, 0, ren, size; }
    nTrunc := 0;
    if w.last != v.last {
      nTrunc := nFin;
      forall g | g in w.file.pages ensures DataPage(f, nFin, g) { assert DataPage(f, w.last, g); }
      FullUpTo(f, v, chain, w.file, ren, nFin);
      w := State(w.file, FreeList.Free(0, 0, w.list.pages), nTrunc);
    }
  }
}
