/** Where pointer-map pages stand, and the size an auto-vacuumed file will have
    (btree.c:408-418, 2348-2371). */
module VacuumSize {
  import opened Division
  type Pgno = nat

  const U32: nat := 0x1_0000_0000

  /** Unsigned 32-bit arithmetic. */
  function Wrap(x: int): nat {
    x % U32
  }

  /** A file: bytes of a page, bytes of it that are used, and the page that holds
      the lock byte. */
  datatype Layout = Layout(pageSize: nat, usableSize: nat, pending: Pgno)
  {
    predicate Valid() {
      && 512 <= pageSize <= 32768 && 480 <= usableSize <= pageSize && 2 < pending < U32
    }

    /** Entries of five bytes on a pointer-map page. */
    function Entries(): nat { usableSize / 5 }

    /** A pointer-map page and the pages it has entries for. */
    function Group(): nat { usableSize / 5 + 1 }
  }

  /** The first page of the group of n pages that a page is in; groups start
      at page 2. */
  function GroupStart(n: nat, pgno: Pgno): (r: Pgno)
    requires 0 < n && 2 <= pgno
    ensures 2 <= r <= pgno < r + n
  {
    if pgno < n + 2 then 2 else n + GroupStart(n, pgno - n)
  }

  /** The pointer-map page with the entry for a page. */
  function PtrmapPageno(f: Layout, pgno: Pgno): Pgno
    requires f.Valid() && 2 <= pgno
  {
    var ret := GroupStart(f.Group(), pgno);
    if ret == f.pending then ret + 1 else ret
  }

  lemma DivTimes(x: nat, n: nat) returns (q: nat, r: nat)
    requires 0 < n
    ensures q == x / n && x == Times(q, n) + r && r < n
  {
    q, r := x / n, x % n;
    TimesIs(q, n);
  }

  lemma {:induction false} GroupAt(n: nat, p: Pgno, q: nat, r: nat)
    requires 0 < n && r < n && p == Times(q, n) + 2 + r
    ensures GroupStart(n, p) == p - r
  {
    if q > 0 { GroupAt(n, p - n, q - 1, r); }
  }

  /** The start of a group as it is computed. */
  lemma StartOf(n: nat, pgno: Pgno)
    requires 0 < n && 2 <= pgno
    ensures GroupStart(n, pgno) == (pgno - 2) / n * n + 2
  {
    var q, r := DivTimes(pgno - 2, n);
    TimesIs(q, n);
    GroupAt(n, pgno, q, r);
  }

  /** ptrmapPageno as it is computed. */
  method FindPtrmapPage(f: Layout, pgno: Pgno) returns (ret: Pgno)
    requires f.Valid() && 2 <= pgno
    ensures ret == PtrmapPageno(f, pgno)
  {
    var nPagesPerMapPage := f.usableSize / 5 + 1;
    var iPtrMap := (pgno - 2) / nPagesPerMapPage;
    ret := iPtrMap * nPagesPerMapPage + 2;
    StartOf(f.Group(), pgno);
    if ret == f.pending { ret := ret + 1; }
  }

  predicate IsPtrmap(f: Layout, pgno: Pgno)
    requires f.Valid()
  {
    2 <= pgno && PtrmapPageno(f, pgno) == pgno
  }

  /** Pages up to n that can hold data. */
  function DataPages(f: Layout, n: nat): nat
    requires f.Valid()
  {
    if n == 0 then 0 else DataPages(f, n - 1) + if IsPtrmap(f, n) then 0 else 1
  }

  lemma {:induction false} GroupStartOfStart(n: nat, p: Pgno)
    requires 0 < n && 2 <= p
    ensures GroupStart(n, GroupStart(n, p)) == GroupStart(n, p)
  {
    if p >= n + 2 { GroupStartOfStart(n, p - n); }
  }

  /** Each entry of a pointer-map page belongs to one page, and fits on it. */
  lemma PtrmapOffsets(f: Layout, p: Pgno)
    requires f.Valid() && 2 <= p < f.pending && !IsPtrmap(f, p)
    ensures var m := PtrmapPageno(f, p); 2 <= m < p && IsPtrmap(f, m) && 0 <= 5 * (p - m - 1) && 5 * (p - m - 1) + 5 <= f.usableSize
  {
    GroupStartOfStart(f.Group(), p);
    assert 5 * (f.usableSize / 5) <= f.usableSize;
  }

  lemma {:induction false} FirstGroup(f: Layout, p: Pgno)
    requires f.Valid() && 2 <= p < f.Group() + 2 && p < f.pending
    ensures DataPages(f, p) == p - 1 && (IsPtrmap(f, p) <==> p == 2)
  {
    if p > 2 {
      FirstGroup(f, p - 1);
    } else {
      assert DataPages(f, 1) == DataPages(f, 0) + 1;
    }
  }

  /** Each group adds one data page less than it has pages. */
  lemma {:induction false} GroupMore(f: Layout, p: Pgno)
    requires f.Valid() && 2 <= p && p + f.Group() < f.pending
    ensures DataPages(f, p + f.Group()) == DataPages(f, p) + f.Group() - 1
    ensures IsPtrmap(f, p + f.Group()) <==> IsPtrmap(f, p)
  {
    if p > 2 {
      GroupMore(f, p - 1);
    } else {
      FirstGroup(f, f.Group() + 1);
      FirstGroup(f, 2);
    }
  }

  /** How many data pages a file of q groups and r + 1 pages of the next has. */
  lemma {:induction false} DataPagesAt(f: Layout, p: Pgno, q: nat, r: nat)
    requires f.Valid() && 2 <= p < f.pending && p == Times(q, f.Group()) + 2 + r && r < f.Group()
    ensures DataPages(f, p) == p - 1 - q && (IsPtrmap(f, p) <==> r == 0) && PtrmapPageno(f, p) == p - r
    decreases q
  {
    GroupAt(f.Group(), p, q, r);
    if q > 0 {
      DataPagesAt(f, p - f.Group(), q - 1, r);
      GroupMore(f, p - f.Group());
    } else {
      FirstGroup(f, p);
    }
  }

  /** The pages that data pages and their pointer-map pages occupy. */
  predicate Exact(f: Layout, nOrig: Pgno, nFree: nat, nFin: Pgno)
    requires f.Valid()
  {
    nFin <= nOrig && DataPages(f, nFin) + nFree == DataPages(f, nOrig) && !IsPtrmap(f, nFin)
  }

  function Quotient(x: nat, n: nat): nat
    requires 0 < n
  {
    x / n
  }

  /** The pointer-map pages that nFree pages less need no more; the source
      divides by the page size here, not by its used part. */
  function PtrmapsGiven(f: Layout, nOrig: Pgno, nFree: nat): nat
    requires f.Valid() && 2 <= nOrig
  {
    Quotient(Wrap(nFree - nOrig + PtrmapPageno(f, nOrig) + f.pageSize / 5), f.pageSize / 5)
  }

  /** What the first assignments compute, before the loop steps back over
      pointer-map pages. */
  function FirstGuess(f: Layout, nOrig: Pgno, nFree: nat): Pgno
    requires f.Valid() && 2 <= nOrig
  {
    Wrap(nOrig - nFree - PtrmapsGiven(f, nOrig, nFree))
  }

  function StepBack(f: Layout, n: Pgno): Pgno
    requires f.Valid()
  {
    if n > 0 && (IsPtrmap(f, n) || n == f.pending) then StepBack(f, n - 1) else n
  }

  datatype Outcome = Corrupt | Size(nFin: Pgno)

  /** The size computed at the start of autoVacuumCommit. */
  method FinalSize(f: Layout, pageCount: Pgno, nFree: nat) returns (r: Outcome)
    requires f.Valid() && 2 <= pageCount < U32
    ensures r == SizeOf(f, pageCount, nFree)
  {
    var nOrig := pageCount;
    if IsPtrmap(f, nOrig) { return Corrupt; }
    if nOrig == f.pending { nOrig := nOrig - 1; }
    var nPtrmap := PtrmapsGiven(f, nOrig, nFree);
    var nFin: Pgno := Wrap(nOrig - nFree - nPtrmap);
    if nOrig > f.pending && nFin <= f.pending { nFin := Wrap(nFin - 1); }
    ghost var start := nFin;
    while nFin > 0 && (IsPtrmap(f, nFin) || nFin == f.pending)
      invariant StepBack(f, nFin) == StepBack(f, start)
    {
      nFin := nFin - 1;
    }
    r := Size(nFin);
  }

  function SizeOf(f: Layout, pageCount: Pgno, nFree: nat): Outcome
    requires f.Valid() && 2 <= pageCount
  {
    if IsPtrmap(f, pageCount) then Corrupt
    else
      var nOrig := if pageCount == f.pending then pageCount - 1 else pageCount;
      var guess := FirstGuess(f, nOrig, nFree);
      Size(StepBack(f, if nOrig > f.pending && guess <= f.pending then Wrap(guess - 1) else guess))
  }

  lemma WrapSame(x: int)
    requires 0 <= x < U32
    ensures Wrap(x) == x
  {
  }

  lemma GuessInt(nOrig: nat, nFree: nat, p: nat, j: nat, d: nat, t: nat, fin: nat)
    requires p + d == nOrig && 0 < j && d <= j <= 6554 && nFree < nOrig < 0x8000_0000
    requires t == (nFree + j - d) / j && fin + nFree + t == nOrig
    ensures Wrap(nFree - nOrig + p + j) / j == t && Wrap(nOrig - nFree - t) == fin
  {
    var x := nFree + j - d;
    assert nFree - nOrig + p + j == x;
    WrapSame(x);
    WrapSame(fin);
  }

  lemma GuessCounts(f: Layout, nOrig: Pgno, nFree: nat, fin: nat, q: nat, t: nat, m: nat, e: nat)
    requires f.Valid() && fin + nFree + t == nOrig < f.pending && DataPages(f, nOrig) == nOrig - 1 - q
    requires m + t == q && fin == Times(m, f.Group()) + 2 + e && 1 <= e < f.Group()
    ensures Exact(f, nOrig, nFree, fin)
  {
    DataPagesAt(f, fin, m, e);
  }

  lemma GuessOne(f: Layout, nOrig: Pgno, nFree: nat, q: nat, t: nat)
    requires f.Valid() && 1 + nFree + t == nOrig < f.pending && DataPages(f, nOrig) == nOrig - 1 - q && t == q + 1
    ensures Exact(f, nOrig, nFree, 1)
  {
    assert DataPages(f, 1) == DataPages(f, 0) + 1;
  }

  /** t groups go, and what is left ends inside a group or is page 1 alone. */
  lemma GuessGroups(f: Layout, nOrig: Pgno, nFree: nat, q: nat, d: nat, t: nat, r: nat)
    requires f.Valid() && 2 <= nOrig < f.pending && nFree < DataPages(f, nOrig)
    requires nOrig == Times(q, f.Group()) + 2 + d && 1 <= d < f.Group() && DataPages(f, nOrig) == nOrig - 1 - q
    requires nFree + f.Entries() - d == Times(t, f.Entries()) + r && r < f.Entries()
    ensures 1 <= nOrig - nFree - t && Exact(f, nOrig, nFree, nOrig - nFree - t)
  {
    if q < t {
      AllGroupsGo(q, d, f.Entries(), nFree, t, r);
      GuessOne(f, nOrig, nFree, q, t);
    } else {
      GroupsLeft(q, d, f.Entries(), nFree, t, r);
      GuessCounts(f, nOrig, nFree, nOrig - nFree - t, q, t, q - t, f.Entries() - r);
    }
  }

  lemma PositiveTimes(q: nat, j: nat)
    requires j > 0
    ensures q > 0 ==> Times(q, j) > 0
  {
  }

  lemma AllGroupsGo(q: nat, d: nat, j: nat, nFree: nat, t: nat, r: nat)
    requires 1 <= d <= j && nFree + j - d == Times(t, j) + r && q < t
    requires nFree < Times(q, j + 1) + 2 + d - 1 - q
    ensures t == q + 1 && Times(q, j + 1) + 2 + d - nFree - t == 1
  {
    TimesPlus(q, j);
    TimesAdd(q, t - q, j);
    assert Times(t - q, j) == j + Times(t - q - 1, j);
    PositiveTimes(t - q - 1, j);
  }

  lemma GroupsLeft(q: nat, d: nat, j: nat, nFree: nat, t: nat, r: nat)
    requires 1 <= d <= j && nFree + j - d == Times(t, j) + r && t <= q
    ensures Times(q, j + 1) + 2 + d - nFree - t == Times(q - t, j + 1) + 2 + (j - r)
  {
    TimesPlus(q, j);
    TimesAdd(t, q - t, j);
    TimesPlus(q - t, j);
  }

  /** With page size and used size giving the same number of entries, the size
      computed is exact. */
  lemma GuessExact(f: Layout, nOrig: Pgno, nFree: nat)
    requires f.Valid() && 2 <= nOrig < f.pending <= 0x8000_0000 && !IsPtrmap(f, nOrig) && nFree < DataPages(f, nOrig)
    requires f.pageSize / 5 == f.Entries()
    ensures Exact(f, nOrig, nFree, FirstGuess(f, nOrig, nFree)) && 1 <= FirstGuess(f, nOrig, nFree)
  {
    var q, d := DivTimes(nOrig - 2, f.Group());
    DataPagesAt(f, nOrig, q, d);
    var t, r := DivTimes(nFree + f.Entries() - d, f.Entries());
    GuessGroups(f, nOrig, nFree, q, d, t, r);
    GuessInt(nOrig, nFree, PtrmapPageno(f, nOrig), f.Entries(), d, t, nOrig - nFree - t);
  }

  // ---------------------------------------------------------------------
  // What the size means
  // ---------------------------------------------------------------------

  /** A file and a number of free pages in it, with the file ending before the
      lock-byte page. */
  predicate FileAt(f: Layout, nOrig: Pgno, nFree: nat) {
    f.Valid() && 2 <= nOrig < f.pending <= 0x8000_0000 && !IsPtrmap(f, nOrig) && nFree < DataPages(f, nOrig)
  }

  predicate ExactAt(f: Layout, nOrig: Pgno, nFree: nat)
    requires FileAt(f, nOrig, nFree)
  {
    var r := SizeOf(f, nOrig, nFree);
    r.Size? && Exact(f, nOrig, nFree, r.nFin)
  }

  /** autoVacuumCommit computes the exact size of every file, as long as bytes
      reserved on each page do not change the number of entries. */
  lemma SizeIsExact(f: Layout, nOrig: Pgno, nFree: nat)
    requires FileAt(f, nOrig, nFree) && f.pageSize / 5 == f.Entries()
    ensures ExactAt(f, nOrig, nFree)
  {
    GuessExact(f, nOrig, nFree);
  }

  /** A file of three groups and two pages, and where it should end. */
  lemma WrongFile(f: Layout)
    requires f.Valid() && 3 * f.Group() + 3 < f.pending
    ensures var nOrig := 3 * f.Group() + 3;
      && DataPages(f, nOrig) == nOrig - 4 && !IsPtrmap(f, nOrig) && PtrmapPageno(f, nOrig) == nOrig - 1
      && DataPages(f, f.Entries() + 2) == f.Entries() + 1 && !IsPtrmap(f, f.Entries() + 2) && IsPtrmap(f, f.Entries() + 3)
  {
    TimesIs(3, f.Group());
    DataPagesAt(f, 3 * f.Group() + 3, 3, 1);
    DataPagesAt(f, f.Entries() + 2, 0, f.Entries());
    assert Times(1, f.Group()) == f.Group() + Times(0, f.Group());
    DataPagesAt(f, f.Entries() + 3, 1, 0);
  }

  /** Otherwise there is a file for which it computes one page too many. */
  lemma SizeGoesWrong(f: Layout)
    requires f.Valid() && f.pageSize / 5 != f.Entries() && 3 * f.Group() + 3 < f.pending <= 0x8000_0000
    ensures var nOrig, nFree := 3 * f.Group() + 3, 2 * f.Entries() + 2;
      FileAt(f, nOrig, nFree) && !ExactAt(f, nOrig, nFree) && SizeOf(f, nOrig, nFree) == Size(f.Entries() + 2)
  {
    WrongFile(f);
    WrongSize(f, 3 * f.Group() + 3, 2 * f.Entries() + 2);
  }

  lemma WrongSize(f: Layout, nOrig: Pgno, nFree: nat)
    requires f.Valid() && f.pageSize / 5 > f.Entries() && nOrig == 3 * f.Group() + 3 < f.pending && nFree == 2 * f.Entries() + 2
    requires PtrmapPageno(f, nOrig) == nOrig - 1 && !IsPtrmap(f, nOrig)
    requires !IsPtrmap(f, f.Entries() + 2) && IsPtrmap(f, f.Entries() + 3)
    ensures SizeOf(f, nOrig, nFree) == Size(f.Entries() + 2)
  {
    WrongGuess(f.Entries(), f.pageSize / 5, nOrig, nFree, nOrig - 1);
    var guess := FirstGuess(f, nOrig, nFree);
    StepsBackTo(f, guess);
  }

  lemma StepsBackTo(f: Layout, guess: Pgno)
    requires f.Valid() && f.Entries() + 3 < f.pending && (guess == f.Entries() + 2 || guess == f.Entries() + 3)
    requires !IsPtrmap(f, f.Entries() + 2) && IsPtrmap(f, f.Entries() + 3)
    ensures StepBack(f, guess) == f.Entries() + 2
  {
    assert StepBack(f, f.Entries() + 2) == f.Entries() + 2;
  }

  lemma WrongGuess(j: nat, k: nat, nOrig: nat, nFree: nat, p: nat)
    requires 90 <= j < k <= 6554 && nOrig == 3 * (j + 1) + 3 && nFree == 2 * j + 2 && p == nOrig - 1
    ensures var t := Wrap(nFree - nOrig + p + k) / k;
      1 <= t <= 2 && Wrap(nOrig - nFree - t) == nOrig - nFree - t
  {
    var x := 2 * j + 1 + k;
    assert nFree - nOrig + p + k == x;
    WrapSame(x);
    var t, r := DivTimes(x, k);
    assert Times(3, k) == 3 * k by { TimesIs(3, k); }
    if t >= 3 { TimesAdd(3, t - 3, k); }
    WrapSame(nOrig - nFree - t);
  }

  ghost predicate AlwaysExact(f: Layout) {
    forall nOrig: nat, nFree: nat | FileAt(f, nOrig, nFree) :: ExactAt(f, nOrig, nFree)
  }

  /** The exact condition: the size is right for all files if and only if the
      page size and the used size give the same number of entries. */
  lemma ExactCondition(f: Layout)
    requires f.Valid() && 3 * f.Group() + 3 < f.pending <= 0x8000_0000
    ensures AlwaysExact(f) <==> f.pageSize / 5 == f.usableSize / 5
  {
    if f.pageSize / 5 == f.Entries() {
      forall nOrig: nat, nFree: nat | FileAt(f, nOrig, nFree) ensures ExactAt(f, nOrig, nFree) {
        SizeIsExact(f, nOrig, nFree);
      }
    } else {
      SizeGoesWrong(f);
      assert FileAt(f, 3 * f.Group() + 3, 2 * f.Entries() + 2);
    }
  }

  // ---------------------------------------------------------------------
  // Free pages below, used pages above
  // ---------------------------------------------------------------------

  /** The data pages up to n. */
  function DataSet(f: Layout, n: nat): set<Pgno>
    requires f.Valid()
  {
    if n == 0 then {} else DataSet(f, n - 1) + if IsPtrmap(f, n) then {} else {n}
  }

  lemma {:induction false} InDataSet(f: Layout, n: nat, g: Pgno)
    requires f.Valid()
    ensures g in DataSet(f, n) <==> 1 <= g <= n && !IsPtrmap(f, g)
  {
    if n > 0 { InDataSet(f, n - 1, g); }
  }

  lemma {:induction false} DataSetCount(f: Layout, n: nat)
    requires f.Valid()
    ensures |DataSet(f, n)| == DataPages(f, n)
  {
    if n > 0 {
      DataSetCount(f, n - 1);
      InDataSet(f, n - 1, n);
    }
  }

  lemma DataSetIs(f: Layout, n: nat)
    requires f.Valid()
    ensures |DataSet(f, n)| == DataPages(f, n)
    ensures forall g :: g in DataSet(f, n) <==> 1 <= g <= n && !IsPtrmap(f, g)
  {
    DataSetCount(f, n);
    forall g: Pgno ensures g in DataSet(f, n) <==> 1 <= g <= n && !IsPtrmap(f, g) { InDataSet(f, n, g); }
  }

  function UpTo(s: set<Pgno>, n: nat): set<Pgno> {
    set g | g in s && g <= n
  }

  function Over(s: set<Pgno>, n: nat): set<Pgno> {
    set g | g in s && g > n
  }

  lemma CountSplit(s: set<Pgno>, n: nat)
    ensures |UpTo(s, n)| + |Over(s, n)| == |s|
  {
    assert s == UpTo(s, n) + Over(s, n);
    assert UpTo(s, n) !! Over(s, n);
  }

  lemma CountUnion(a: set<Pgno>, b: set<Pgno>, n: nat)
    requires a !! b
    ensures |UpTo(a + b, n)| == |UpTo(a, n)| + |UpTo(b, n)|
  {
    assert UpTo(a + b, n) == UpTo(a, n) + UpTo(b, n);
    assert UpTo(a, n) !! UpTo(b, n);
  }

  /** With an exact size, the free pages below it are as many as the used pages
      above it: every used page beyond the end has a place to go to. */
  lemma RoomForEveryPage(f: Layout, nOrig: Pgno, nFin: Pgno, used: set<Pgno>, free: set<Pgno>)
    requires f.Valid() && Exact(f, nOrig, |free|, nFin) && used !! free && used + free == DataSet(f, nOrig)
    ensures |UpTo(free, nFin)| == |Over(used, nFin)|
  {
    DataSetIs(f, nOrig);
    DataSetIs(f, nFin);
    assert UpTo(DataSet(f, nOrig), nFin) == DataSet(f, nFin);
    CountUnion(used, free, nFin);
    CountSplit(used, nFin);
    assert |used + free| == |used| + |free|;
  }
}
