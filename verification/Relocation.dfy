/** Pages that refer to pages, the pointer map that says who refers to each of
    them, and moving a page to another place in the file (btree.c:2002-2180). */
module Relocation {
  type Pgno = nat

  datatype Kind = RootPage | FreePage | Overflow1 | Overflow2 | BtreePage

  /** A pointer-map entry. */
  datatype Entry = Entry(kind: Kind, parent: Pgno)

  /** A cell: its left child (meaningless on a leaf), its first overflow page or
      0, and the rest of it. */
  datatype Cell = Cell(child: Pgno, overflow: Pgno, content: nat)

  datatype Page = Btree(leaf: bool, cells: seq<Cell>, right: Pgno) | Ovfl(next: Pgno, content: nat)

  /** Where a page holds the number of another page. */
  datatype Slot = Left(i: nat) | First(i: nat) | Right | Next

  predicate HasSlot(p: Page, s: Slot) {
    match s
    case Left(i) => p.Btree? && !p.leaf && i < |p.cells|
    case First(i) => p.Btree? && i < |p.cells| && p.cells[i].overflow != 0
    case Right => p.Btree? && !p.leaf
    case Next => p.Ovfl? && p.next != 0
  }

  function Target(p: Page, s: Slot): Pgno
    requires HasSlot(p, s)
  {
    match s
    case Left(i) => p.cells[i].child
    case First(i) => p.cells[i].overflow
    case Right => p.right
    case Next => p.next
  }

  function KindOf(s: Slot): Kind {
    match s
    case Left(_) => BtreePage
    case Right => BtreePage
    case First(_) => Overflow1
    case Next => Overflow2
  }

  function SetTarget(p: Page, s: Slot, t: Pgno): Page
    requires HasSlot(p, s)
  {
    match s
    case Left(i) => p.(cells := p.cells[i := p.cells[i].(child := t)])
    case First(i) => p.(cells := p.cells[i := p.cells[i].(overflow := t)])
    case Right => p.(right := t)
    case Next => p.(next := t)
  }

  /** The pages in use, and the pointer map. */
  datatype File = File(pages: map<Pgno, Page>, ptrmap: map<Pgno, Entry>)

  // ---------------------------------------------------------------------
  // A true pointer map
  // ---------------------------------------------------------------------

  /** If slot s of page g holds a page number, that page is in use and its entry
      names g. */
  ghost predicate RefOk(file: File, g: Pgno, s: Slot) {
    g in file.pages && HasSlot(file.pages[g], s) ==>
      var t := Target(file.pages[g], s);
      t != 0 && t in file.pages && t != g && t in file.ptrmap && file.ptrmap[t] == Entry(KindOf(s), g)
  }

  /** Two slots of a page never hold the same number. */
  ghost predicate SlotsDiffer(p: Page) {
    forall s, u | HasSlot(p, s) && HasSlot(p, u) && s != u :: Target(p, s) != Target(p, u)
  }

  ghost predicate Refers(file: File, g: Pgno, k: Kind, t: Pgno) {
    g in file.pages && exists s :: HasSlot(file.pages[g], s) && KindOf(s) == k && Target(file.pages[g], s) == t
  }

  /** The entry of a page in use names its true referrer and what kind of page it
      is. */
  ghost predicate EntryOk(file: File, t: Pgno) {
    t in file.pages ==>
      && t in file.ptrmap && t != 0
      && var e := file.ptrmap[t];
         && e.kind != FreePage && (file.pages[t].Btree? <==> e.kind == RootPage || e.kind == BtreePage)
         && (e.kind != RootPage ==> Refers(file, e.parent, e.kind, t))
  }

  ghost predicate Mapped(file: File) {
    && (forall g, s :: RefOk(file, g, s))
    && (forall g | g in file.pages :: SlotsDiffer(file.pages[g]))
    && (forall t :: EntryOk(file, t))
  }

  /** Only the page its entry names refers to a page. */
  lemma OnlyReferrer(file: File, g: Pgno, s: Slot, t: Pgno)
    requires Mapped(file) && g in file.pages && HasSlot(file.pages[g], s) && Target(file.pages[g], s) == t
    ensures t in file.ptrmap && file.ptrmap[t] == Entry(KindOf(s), g) && g != t && t in file.pages && t != 0
  {
    assert RefOk(file, g, s);
  }

  // ---------------------------------------------------------------------
  // Renaming
  // ---------------------------------------------------------------------

  function Moved(t: Pgno, m: Pgno, f: Pgno): Pgno {
    if t == m then f else t
  }

  function RenameCell(c: Cell, leaf: bool, m: Pgno, f: Pgno): Cell {
    Cell(if leaf then c.child else Moved(c.child, m, f), if c.overflow == 0 then 0 else Moved(c.overflow, m, f), c.content)
  }

  /** A page with every number m that it holds changed to f. */
  function RenamePage(p: Page, m: Pgno, f: Pgno): (q: Page)
  {
    match p
    case Btree(leaf, cells, right) =>
      Btree(leaf, seq(|cells|, i requires 0 <= i < |cells| => RenameCell(cells[i], leaf, m, f)), if leaf then right else Moved(right, m, f))
    case Ovfl(next, content) => Ovfl(if next == 0 then 0 else Moved(next, m, f), content)
  }

  lemma RenameSlots(p: Page, m: Pgno, f: Pgno, s: Slot)
    requires f != 0
    ensures HasSlot(RenamePage(p, m, f), s) <==> HasSlot(p, s)
    ensures HasSlot(p, s) ==> Target(RenamePage(p, m, f), s) == Moved(Target(p, s), m, f)
  {
  }

  lemma RenameNothing(p: Page, m: Pgno, f: Pgno)
    requires forall s | HasSlot(p, s) :: Target(p, s) != m
    ensures RenamePage(p, m, f) == p
  {
    match p
    case Btree(leaf, cells, right) =>
      forall i | 0 <= i < |cells| ensures RenameCell(cells[i], leaf, m, f) == cells[i] {
        assert HasSlot(p, Left(i)) ==> Target(p, Left(i)) != m;
        assert HasSlot(p, First(i)) ==> Target(p, First(i)) != m;
      }
      assert HasSlot(p, Right) ==> Target(p, Right) != m;
      assert RenamePage(p, m, f).cells == cells;
    case Ovfl(next, content) => assert HasSlot(p, Next) ==> Target(p, Next) != m;
  }

  /** Where one slot holds m, renaming is setting that slot. */
  lemma RenameOne(p: Page, m: Pgno, f: Pgno, s: Slot)
    requires f != 0 && m != 0 && HasSlot(p, s) && Target(p, s) == m && SlotsDiffer(p)
    ensures RenamePage(p, m, f) == SetTarget(p, s, f)
  {
    var q := SetTarget(p, s, f);
    match p
    case Btree(leaf, cells, right) =>
      forall i | 0 <= i < |cells| ensures RenameCell(cells[i], leaf, m, f) == q.cells[i] {
        assert HasSlot(p, Left(i)) && s != Left(i) ==> Target(p, Left(i)) != m;
        assert HasSlot(p, First(i)) && s != First(i) ==> Target(p, First(i)) != m;
      }
      assert HasSlot(p, Right) && s != Right ==> Target(p, Right) != m;
      assert RenamePage(p, m, f).cells == q.cells;
    case Ovfl(next, content) =>
  }

  /** The pages with page m moved to f and every reference to it following. */
  function Renamed(pages: map<Pgno, Page>, m: Pgno, f: Pgno): map<Pgno, Page>
    requires m in pages
  {
    map x | x in pages.Keys - {m} + {f} :: RenamePage(if x == f then pages[m] else pages[x], m, f)
  }

  // ---------------------------------------------------------------------
  // setChildPtrmaps and modifyPagePointer
  // ---------------------------------------------------------------------

  /** Slots of the cells before cell i. */
  predicate Before(s: Slot, i: nat) {
    (s.Left? || s.First?) && s.i < i
  }

  /** The entry of the page in slot s names page g. */
  ghost predicate EntryNames(p: Page, g: Pgno, ptrmap: map<Pgno, Entry>, s: Slot)
    requires HasSlot(p, s)
  {
    Target(p, s) in ptrmap && ptrmap[Target(p, s)] == Entry(KindOf(s), g)
  }

  ghost predicate SameEntry(was: map<Pgno, Entry>, now: map<Pgno, Entry>, t: Pgno) {
    (t in was <==> t in now) && (t in was ==> now[t] == was[t])
  }

  /** The entries of the pages in the given slots name g; no other has changed. */
  ghost predicate Repointed(p: Page, g: Pgno, was: map<Pgno, Entry>, now: map<Pgno, Entry>, some: set<Slot>) {
    && (forall s | s in some && HasSlot(p, s) :: EntryNames(p, g, now, s))
    && forall t :: SameEntry(was, now, t) || exists s :: s in some && HasSlot(p, s) && Target(p, s) == t
  }

  lemma RepointMore(p: Page, g: Pgno, was: map<Pgno, Entry>, now: map<Pgno, Entry>, some: set<Slot>, s: Slot)
    requires SlotsDiffer(p) && HasSlot(p, s) && s !in some && Repointed(p, g, was, now, some)
    ensures Repointed(p, g, was, now[Target(p, s) := Entry(KindOf(s), g)], some + {s})
  {
    var next := now[Target(p, s) := Entry(KindOf(s), g)];
    forall u | u in some + {s} && HasSlot(p, u) ensures EntryNames(p, g, next, u) {
      if u != s { assert EntryNames(p, g, now, u) && Target(p, u) != Target(p, s); }
    }
    forall t ensures SameEntry(was, next, t) || exists u :: u in some + {s} && HasSlot(p, u) && Target(p, u) == t {
      if t == Target(p, s) {
        assert s in some + {s};
      } else if !SameEntry(was, now, t) {
        var u :| u in some && HasSlot(p, u) && Target(p, u) == t;
        assert u in some + {s};
      } else {
        assert SameEntry(was, next, t);
      }
    }
  }

  lemma RepointSame(p: Page, g: Pgno, was: map<Pgno, Entry>, now: map<Pgno, Entry>, some: set<Slot>, s: Slot)
    requires !HasSlot(p, s) && Repointed(p, g, was, now, some)
    ensures Repointed(p, g, was, now, some + {s})
  {
    forall t ensures SameEntry(was, now, t) || exists u :: u in some + {s} && HasSlot(p, u) && Target(p, u) == t {
      if !SameEntry(was, now, t) {
        var u :| u in some && HasSlot(p, u) && Target(p, u) == t;
        assert u in some + {s};
      }
    }
  }

  /** The slots of the first i cells. */
  function SlotsTo(i: nat): set<Slot> {
    if i == 0 then {} else SlotsTo(i - 1) + {First(i - 1)} + {Left(i - 1)}
  }

  lemma {:induction false} SlotsToIs(i: nat)
    ensures forall s :: s in SlotsTo(i) <==> Before(s, i)
  {
    if i > 0 { SlotsToIs(i - 1); }
  }

  /** setChildPtrmaps: page g now holds p, so the entries of all pages p refers
      to must name g.  Fails on a reference to page 0. */
  method SetChildPtrmaps(p: Page, g: Pgno, ptrmap: map<Pgno, Entry>) returns (ok: bool, r: map<Pgno, Entry>)
    requires p.Btree? && SlotsDiffer(p)
    ensures ok ==> Repointed(p, g, ptrmap, r, SlotsTo(|p.cells|) + {Right})
    ensures !ok ==> exists s :: HasSlot(p, s) && Target(p, s) == 0
  {
    r := ptrmap;
    var i: nat := 0;
    while i < |p.cells|
      invariant i <= |p.cells| && Repointed(p, g, ptrmap, r, SlotsTo(i))
    {
      SlotsToIs(i);
      var c := p.cells[i];
      if c.overflow != 0 {
        RepointMore(p, g, ptrmap, r, SlotsTo(i), First(i));
        r := r[c.overflow := Entry(Overflow1, g)];
      } else {
        RepointSame(p, g, ptrmap, r, SlotsTo(i), First(i));
      }
      if !p.leaf {
        if c.child == 0 { assert HasSlot(p, Left(i)); return false, r; }
        RepointMore(p, g, ptrmap, r, SlotsTo(i) + {First(i)}, Left(i));
        r := r[c.child := Entry(BtreePage, g)];
      } else {
        RepointSame(p, g, ptrmap, r, SlotsTo(i) + {First(i)}, Left(i));
      }
      i := i + 1;
    }
    SlotsToIs(i);
    if !p.leaf {
      if p.right == 0 { assert HasSlot(p, Right); return false, r; }
      RepointMore(p, g, ptrmap, r, SlotsTo(i), Right);
      r := r[p.right := Entry(BtreePage, g)];
    } else {
      RepointSame(p, g, ptrmap, r, SlotsTo(i), Right);
    }
    ok := true;
  }

  /** All slots of a B-tree page. */
  lemma AllSlots(p: Page, s: Slot)
    requires p.Btree? && HasSlot(p, s)
    ensures s in SlotsTo(|p.cells|) + {Right}
  {
    SlotsToIs(|p.cells|);
  }

  /** modifyPagePointer: find the reference of the given kind to page iFrom and
      make it one to iTo.  Fails when there is none. */
  method ModifyPagePointer(p: Page, iFrom: Pgno, iTo: Pgno, kind: Kind) returns (ok: bool, q: Page)
    requires kind == Overflow2 || kind == Overflow1 || kind == BtreePage
    requires iFrom != 0 && if kind == Overflow2 then p.Ovfl? else p.Btree? && (kind == BtreePage ==> !p.leaf)
    ensures ok ==> exists s :: HasSlot(p, s) && KindOf(s) == kind && Target(p, s) == iFrom && q == SetTarget(p, s, iTo)
    ensures !ok ==> q == p && forall s | HasSlot(p, s) && KindOf(s) == kind :: Target(p, s) != iFrom
  {
    if kind == Overflow2 {
      if p.next != iFrom { return false, p; }
      assert HasSlot(p, Next) && Target(p, Next) == iFrom && SetTarget(p, Next, iTo) == p.(next := iTo);
      return true, p.(next := iTo);
    }
    var i: nat := 0;
    while i < |p.cells|
      invariant i <= |p.cells|
      invariant forall s | HasSlot(p, s) && Before(s, i) && KindOf(s) == kind :: Target(p, s) != iFrom
    {
      var c := p.cells[i];
      if kind == Overflow1 {
        if c.overflow != 0 && c.overflow == iFrom {
          assert HasSlot(p, First(i)) && Target(p, First(i)) == iFrom;
          q := p.(cells := p.cells[i := c.(overflow := iTo)]);
          assert q == SetTarget(p, First(i), iTo);
          return true, q;
        }
      } else if c.child == iFrom {
        assert HasSlot(p, Left(i)) && Target(p, Left(i)) == iFrom;
        q := p.(cells := p.cells[i := c.(child := iTo)]);
        assert q == SetTarget(p, Left(i), iTo);
        return true, q;
      }
      i := i + 1;
    }
    if kind != BtreePage || p.right != iFrom { return false, p; }
    assert HasSlot(p, Right) && Target(p, Right) == iFrom && SetTarget(p, Right, iTo) == p.(right := iTo);
    return true, p.(right := iTo);
  }

  // ---------------------------------------------------------------------
  // relocatePage
  // ---------------------------------------------------------------------

  /** Page m is in use, f is not, and the entry of m is e. */
  ghost predicate CanMove(file: File, m: Pgno, f: Pgno, e: Entry) {
    && m in file.pages && f !in file.pages && f != 0
    && m in file.ptrmap && file.ptrmap[m] == e && SlotsDiffer(file.pages[m])
    && e.kind != FreePage && (file.pages[m].Btree? <==> e.kind == RootPage || e.kind == BtreePage)
  }

  function AllOf(p: Page): set<Slot> {
    if p.Btree? then SlotsTo(|p.cells|) + {Right} else {Next}
  }

  lemma InAllOf(p: Page, s: Slot)
    requires HasSlot(p, s)
    ensures s in AllOf(p)
  {
    if p.Btree? { AllSlots(p, s); }
  }

  /** The first half: page m becomes page f, and the pages it refers to learn
      who refers to them now. */
  method MovePage(file: File, m: Pgno, e: Entry, f: Pgno) returns (ok: bool, r: File)
    requires CanMove(file, m, f, e)
    ensures ok ==> r.pages == (file.pages - {m})[f := file.pages[m]]
    ensures ok ==> Repointed(file.pages[m], f, file.ptrmap, r.ptrmap, AllOf(file.pages[m]))
    ensures Mapped(file) ==> ok
  {
    var page := file.pages[m];
    var pages, ptrmap := (file.pages - {m})[f := page], file.ptrmap;
    if e.kind == BtreePage || e.kind == RootPage {
      ok, ptrmap := SetChildPtrmaps(page, f, ptrmap);
      if !ok {
        if Mapped(file) {
          var s :| HasSlot(page, s) && Target(page, s) == 0;
          OnlyReferrer(file, m, s, 0);
        }
        return false, file;
      }
    } else if page.next != 0 {
      RepointMore(page, f, ptrmap, ptrmap, {}, Next);
      assert AllOf(page) == {} + {Next};
      ptrmap := ptrmap[page.next := Entry(Overflow2, f)];
    }
    ok, r := true, File(pages, ptrmap);
  }

  /** relocatePage: move page m to f, make its referrer follow, and record the
      entry of f; a root page has no referrer and the caller records its entry. */
  method RelocatePage(file: File, m: Pgno, e: Entry, f: Pgno) returns (ok: bool, r: File)
    requires CanMove(file, m, f, e) && m != 0
    ensures Mapped(file) ==> ok && r.pages == Renamed(file.pages, m, f)
    ensures Mapped(file) ==> Mapped(File(r.pages, r.ptrmap[f := e]))
    ensures Mapped(file) && e.kind != RootPage ==> Mapped(r)
    ensures Mapped(file) ==> forall t | t !in file.pages && t != f :: SameEntry(file.ptrmap, r.ptrmap, t)
  {
    ok, r := MovePage(file, m, e, f);
    if !ok { return; }
    ghost var half := r;
    if e.kind != RootPage {
      var g := e.parent;
      if g !in r.pages || r.pages[g].Ovfl? != (e.kind == Overflow2) || (e.kind == BtreePage && r.pages[g].leaf) {
        if Mapped(file) { ReferrerStays(file, m, f, e); }
        return false, r;
      }
      var q;
      ok, q := ModifyPagePointer(r.pages[g], m, f, e.kind);
      if !ok {
        if Mapped(file) { ReferrerStays(file, m, f, e); }
        return false, r;
      }
      ghost var s :| HasSlot(half.pages[g], s) && KindOf(s) == e.kind && Target(half.pages[g], s) == m && q == SetTarget(half.pages[g], s, f);
      r := File(r.pages[g := q], r.ptrmap[f := e]);
      if Mapped(file) {
        ReferrerStays(file, m, f, e);
        FollowsReferrer(file, m, f, e, s, r.pages);
      }
    } else if Mapped(file) {
      NobodyRefers(file, m, f, e);
    }
    if Mapped(file) {
      RenamedMapped(file, m, f, e, half.ptrmap, File(r.pages, r.ptrmap[f := e]));
      OthersStay(file, m, f, half.ptrmap, r.ptrmap);
      assert e.kind != RootPage ==> r.ptrmap[f := e] == r.ptrmap;
    }
  }

  /** The referrer of m is another page, and has the right slot. */
  lemma ReferrerStays(file: File, m: Pgno, f: Pgno, e: Entry)
    requires Mapped(file) && CanMove(file, m, f, e) && e.kind != RootPage
    ensures e.parent in file.pages && e.parent != m && e.parent != f
    ensures (file.pages - {m})[f := file.pages[m]][e.parent] == file.pages[e.parent]
    ensures exists s :: HasSlot(file.pages[e.parent], s) && KindOf(s) == e.kind && Target(file.pages[e.parent], s) == m
    ensures e.kind == Overflow2 ==> file.pages[e.parent].Ovfl?
    ensures e.kind != Overflow2 ==> file.pages[e.parent].Btree? && (e.kind == BtreePage ==> !file.pages[e.parent].leaf)
  {
    assert EntryOk(file, m) && Refers(file, e.parent, e.kind, m);
    var s :| HasSlot(file.pages[e.parent], s) && KindOf(s) == e.kind && Target(file.pages[e.parent], s) == m;
    OnlyReferrer(file, e.parent, s, m);
  }

  /** A page that does not refer to m is not changed by renaming. */
  lemma NotTheReferrer(file: File, m: Pgno, f: Pgno, e: Entry, x: Pgno)
    requires Mapped(file) && CanMove(file, m, f, e) && x in file.pages && (e.kind == RootPage || x != e.parent)
    ensures RenamePage(file.pages[x], m, f) == file.pages[x]
  {
    forall s | HasSlot(file.pages[x], s) ensures Target(file.pages[x], s) != m {
      if Target(file.pages[x], s) == m { OnlyReferrer(file, x, s, m); }
    }
    RenameNothing(file.pages[x], m, f);
  }

  lemma FollowsReferrer(file: File, m: Pgno, f: Pgno, e: Entry, s: Slot, pages: map<Pgno, Page>)
    requires Mapped(file) && CanMove(file, m, f, e) && e.kind != RootPage && e.parent in file.pages && m != 0
    requires var p := (file.pages - {m})[f := file.pages[m]];
      && e.parent in p && HasSlot(p[e.parent], s) && Target(p[e.parent], s) == m
      && pages == p[e.parent := SetTarget(p[e.parent], s, f)]
    ensures pages == Renamed(file.pages, m, f)
  {
    ReferrerStays(file, m, f, e);
    var g := e.parent;
    RenameOne(file.pages[g], m, f, s);
    forall x | x in pages ensures pages[x] == Renamed(file.pages, m, f)[x] {
      if x == f {
        NotTheReferrer(file, m, f, e, m);
      } else if x != g {
        NotTheReferrer(file, m, f, e, x);
      }
    }
  }

  lemma NobodyRefers(file: File, m: Pgno, f: Pgno, e: Entry)
    requires Mapped(file) && CanMove(file, m, f, e) && e.kind == RootPage
    ensures (file.pages - {m})[f := file.pages[m]] == Renamed(file.pages, m, f)
  {
    var pages := (file.pages - {m})[f := file.pages[m]];
    forall x | x in pages ensures pages[x] == Renamed(file.pages, m, f)[x] {
      NotTheReferrer(file, m, f, e, if x == f then m else x);
    }
  }

  /** The entry of a page after the move. */
  lemma EntryAfter(file: File, m: Pgno, f: Pgno, e: Entry, half: map<Pgno, Entry>, t: Pgno)
    requires Mapped(file) && CanMove(file, m, f, e) && Repointed(file.pages[m], f, file.ptrmap, half, AllOf(file.pages[m]))
    requires t in file.pages && t != m
    ensures t in file.ptrmap && t in half && half[t] == Entry(file.ptrmap[t].kind, if RefersTo(file.pages[m], t) then f else file.ptrmap[t].parent)
    ensures RefersTo(file.pages[m], t) ==> file.ptrmap[t].parent == m
  {
    assert EntryOk(file, t);
    if s :| HasSlot(file.pages[m], s) && Target(file.pages[m], s) == t {
      OnlyReferrer(file, m, s, t);
      InAllOf(file.pages[m], s);
      assert EntryNames(file.pages[m], f, half, s);
    } else {
      assert SameEntry(file.ptrmap, half, t);
    }
  }

  ghost predicate RefersTo(p: Page, t: Pgno) {
    exists s :: HasSlot(p, s) && Target(p, s) == t
  }

  lemma OthersStay(file: File, m: Pgno, f: Pgno, half: map<Pgno, Entry>, now: map<Pgno, Entry>)
    requires Mapped(file) && m in file.pages && Repointed(file.pages[m], f, file.ptrmap, half, AllOf(file.pages[m]))
    requires forall t | t != f :: SameEntry(half, now, t)
    ensures forall t | t !in file.pages && t != f :: SameEntry(file.ptrmap, now, t)
  {
    forall t | t !in file.pages && t != f ensures SameEntry(file.ptrmap, now, t) {
      if !SameEntry(file.ptrmap, half, t) {
        var s :| s in AllOf(file.pages[m]) && HasSlot(file.pages[m], s) && Target(file.pages[m], s) == t;
        OnlyReferrer(file, m, s, t);
      }
      assert SameEntry(half, now, t);
    }
  }

  lemma RenamedRefOk(file: File, m: Pgno, f: Pgno, e: Entry, half: map<Pgno, Entry>, g: Pgno, s: Slot)
    requires Mapped(file) && CanMove(file, m, f, e) && Repointed(file.pages[m], f, file.ptrmap, half, AllOf(file.pages[m]))
    ensures RefOk(File(Renamed(file.pages, m, f), half[f := e]), g, s)
  {
    var pages := Renamed(file.pages, m, f);
    if g in pages && HasSlot(pages[g], s) {
      var x := if g == f then m else g;
      RenameSlots(file.pages[x], m, f, s);
      var t := Target(file.pages[x], s);
      OnlyReferrer(file, x, s, t);
      if t != m { EntryAfter(file, m, f, e, half, t); }
    }
  }

  lemma RenamedEntryOk(file: File, m: Pgno, f: Pgno, e: Entry, half: map<Pgno, Entry>, t: Pgno)
    requires Mapped(file) && CanMove(file, m, f, e) && Repointed(file.pages[m], f, file.ptrmap, half, AllOf(file.pages[m]))
    ensures EntryOk(File(Renamed(file.pages, m, f), half[f := e]), t)
  {
    var after := File(Renamed(file.pages, m, f), half[f := e]);
    if t in after.pages {
      var x := if t == f then m else t;
      assert EntryOk(file, x);
      if t != f { EntryAfter(file, m, f, e, half, t); }
      var was := file.ptrmap[x];
      if was.kind != RootPage {
        assert Refers(file, was.parent, was.kind, x);
        var s :| HasSlot(file.pages[was.parent], s) && KindOf(s) == was.kind && Target(file.pages[was.parent], s) == x;
        OnlyReferrer(file, was.parent, s, x);
        RenameSlots(file.pages[was.parent], m, f, s);
        var g := Moved(was.parent, m, f);
        assert HasSlot(after.pages[g], s) && Target(after.pages[g], s) == t;
        assert after.ptrmap[t] == Entry(was.kind, g);
        assert Refers(after, g, was.kind, t);
      }
    }
  }

  /** After the move the pointer map is true again. */
  lemma RenamedMapped(file: File, m: Pgno, f: Pgno, e: Entry, half: map<Pgno, Entry>, after: File)
    requires Mapped(file) && CanMove(file, m, f, e) && Repointed(file.pages[m], f, file.ptrmap, half, AllOf(file.pages[m]))
    requires after == File(Renamed(file.pages, m, f), half[f := e])
    ensures Mapped(after)
  {
    forall g, s ensures RefOk(after, g, s) { RenamedRefOk(file, m, f, e, half, g, s); }
    forall t ensures EntryOk(after, t) { RenamedEntryOk(file, m, f, e, half, t); }
    forall g | g in after.pages ensures SlotsDiffer(after.pages[g]) {
      var x := if g == f then m else g;
      var p := file.pages[x];
      forall s, u | HasSlot(after.pages[g], s) && HasSlot(after.pages[g], u) && s != u
        ensures Target(after.pages[g], s) != Target(after.pages[g], u)
      {
        RenameSlots(p, m, f, s);
        RenameSlots(p, m, f, u);
        OnlyReferrer(file, x, s, Target(p, s));
        OnlyReferrer(file, x, u, Target(p, u));
      }
    }
  }
}
