/** The payload of a cell: its first bytes are on the page of the cell, the rest on
    a chain of overflow pages (btree.c:576-612, 2975-3242). */
module Payload {
  import opened CellFormat
  import opened Division

  type Pgno = nat

  /** An overflow page: the number of the next one, and the bytes after that. */
  datatype Ovfl = Ovfl(next: Pgno, data: seq<Byte>)

  type Store = map<Pgno, Ovfl>

  datatype Cell = Cell(nPayload: nat, local: seq<Byte>, first: Pgno)

  // ---------------------------------------------------------------------
  // Chains
  // ---------------------------------------------------------------------

  /** Page i of the chain that starts at page g. */
  function Nth(pages: Store, g: Pgno, i: nat): Pgno
    decreases i
  {
    if i == 0 then g else if g in pages then Nth(pages, pages[g].next, i - 1) else 0
  }

  lemma {:induction false} NthNext(pages: Store, g: Pgno, i: nat)
    ensures Nth(pages, g, i) in pages && Nth(pages, g, i) != 0 ==> Nth(pages, g, i + 1) == pages[Nth(pages, g, i)].next
    decreases i
  {
    if i > 0 {
      if g in pages { NthNext(pages, pages[g].next, i - 1); }
    }
  }

  /** How many overflow pages a cell has, each with room for s bytes. */
  function Count(c: Cell, s: nat): nat
    requires s > 0
  {
    if |c.local| <= c.nPayload then Pieces(c.nPayload - |c.local|, s) else 0
  }

  predicate PageOk(pages: Store, g: Pgno, s: nat) {
    g in pages && g != 0 && |pages[g].data| == s
  }

  ghost predicate ChainOk(pages: Store, c: Cell, s: nat)
    requires s > 0
  {
    && |c.local| <= c.nPayload
    && (forall i: nat | i < Count(c, s) :: PageOk(pages, Nth(pages, c.first, i), s))
    && (forall i: nat, j: nat | i < j < Count(c, s) :: Nth(pages, c.first, i) != Nth(pages, c.first, j))
  }

  /** Byte k of the payload. */
  function ByteAt(pages: Store, c: Cell, s: nat, k: nat): Byte
    requires s > 0
  {
    if k < |c.local| then c.local[k] else FarByte(pages, c.first, s, k - |c.local|)
  }

  /** The byte j places after offset. */
  function ByteFrom(pages: Store, c: Cell, s: nat, offset: nat, j: nat): Byte
    requires s > 0
  {
    ByteAt(pages, c, s, offset + j)
  }

  function FarByte(pages: Store, first: Pgno, s: nat, k: nat): Byte
    requires s > 0
  {
    var g := Nth(pages, first, Quot(k, s));
    if g in pages then CellFormat.At(pages[g].data, Rem(k, s)) else 0
  }

  /** All of it. */
  function Bytes(pages: Store, c: Cell, s: nat): seq<Byte>
    requires s > 0
  {
    seq(c.nPayload, k => if k >= 0 then ByteAt(pages, c, s, k) else 0)
  }

  // ---------------------------------------------------------------------
  // The next page of a chain
  // ---------------------------------------------------------------------

  /** What the pointer map tells: entry[x] == g when page x is put down as the
      overflow page after page g.  Pages in skip hold no content. */
  datatype Ptrmap = Ptrmap(autoVacuum: bool, skip: set<Pgno>, entry: map<Pgno, Pgno>, pageCount: nat)

  ghost predicate PtrmapOk(pages: Store, m: Ptrmap) {
    m.autoVacuum ==> forall x | x in m.entry && m.entry[x] in pages :: pages[m.entry[x]].next == x
  }

  /** getOverflowPage: guess the page that follows in the file, if the pointer map
      confirms it. */
  method GetOverflowPage(pages: Store, m: Ptrmap, ovfl: Pgno) returns (next: Pgno)
    requires PtrmapOk(pages, m) && ovfl in pages
    ensures next == pages[ovfl].next
  {
    next := 0;
    if m.autoVacuum {
      var iGuess: Pgno := ovfl + 1;
      ghost var left := m.skip;
      while iGuess in m.skip
        invariant left <= m.skip && forall x | x in m.skip && x >= iGuess :: x in left
        decreases left
      {
        left := left - {iGuess};
        iGuess := iGuess + 1;
      }
      if iGuess <= m.pageCount && iGuess in m.entry && m.entry[iGuess] == ovfl {
        next := iGuess;
      }
    }
    if next == 0 { next := pages[ovfl].next; }
  }

  // ---------------------------------------------------------------------
  // Reading and writing
  // ---------------------------------------------------------------------

  /** n bytes of b from place q, put into d at place p. */
  function Copied(d: seq<Byte>, p: nat, b: seq<Byte>, q: nat, n: nat): (r: seq<Byte>)
    requires p + n <= |d| && q + n <= |b|
    ensures |r| == |d| && forall k: nat | k < |d| :: r[k] == if p <= k < p + n then b[q + (k - p)] else d[k]
  {
    d[..p] + b[q..q + n] + d[p + n..]
  }

  /** The page list cache: entry 0 means not known. */
  datatype Cache = NoCache | Cache(aOverflow: seq<Pgno>)

  ghost predicate CacheOk(pages: Store, c: Cell, s: nat, cache: Cache)
    requires s > 0
  {
    cache.Cache? ==> |cache.aOverflow| == Count(c, s)
                     && forall i: nat | i < |cache.aOverflow| :: cache.aOverflow[i] == 0 || cache.aOverflow[i] == Nth(pages, c.first, i)
  }

  /** The buffer or the payload after n bytes from offset on went to or from it. */
  ghost predicate Moved(pages0: Store, c0: Cell, buf0: seq<Byte>, pages: Store, c: Cell, buf: seq<Byte>, s: nat,
                        offset: nat, n: nat, write: bool)
    requires s > 0 && n <= |buf0|
  {
    && c.nPayload == c0.nPayload && c.first == c0.first && |c.local| == |c0.local| && |buf| == |buf0|
    && if write then
         buf == buf0 && SameChain(pages0, pages)
         && forall k: nat | k < c0.nPayload :: ByteAt(pages, c, s, k) == if offset <= k < offset + n then buf0[k - offset] else ByteAt(pages0, c0, s, k)
       else
         pages == pages0 && c == c0
         && forall j: nat | j < |buf0| :: buf[j] == if j < n then ByteFrom(pages0, c0, s, offset, j) else buf0[j]
  }

  /** Only the bytes of pages differ. */
  ghost predicate SameChain(pages0: Store, pages: Store) {
    pages.Keys == pages0.Keys && forall g | g in pages0 :: pages[g].next == pages0[g].next && |pages[g].data| == |pages0[g].data|
  }

  lemma {:induction false} SameNth(pages0: Store, pages: Store, g: Pgno, i: nat)
    requires SameChain(pages0, pages)
    ensures Nth(pages, g, i) == Nth(pages0, g, i)
    decreases i
  {
    if i > 0 && g in pages { SameNth(pages0, pages, pages[g].next, i - 1); }
  }

  lemma SameChainOk(pages0: Store, pages: Store, c0: Cell, c: Cell, s: nat)
    requires s > 0 && SameChain(pages0, pages) && c.nPayload == c0.nPayload && c.first == c0.first && |c.local| == |c0.local|
    requires ChainOk(pages0, c0, s)
    ensures ChainOk(pages, c, s)
  {
    forall i: nat ensures Nth(pages, c.first, i) == Nth(pages0, c.first, i) { SameNth(pages0, pages, c.first, i); }
    forall i: nat | i < Count(c, s) ensures PageOk(pages, Nth(pages, c.first, i), s) {
      assert PageOk(pages0, Nth(pages0, c.first, i), s);
    }
  }

  /** a bytes from place o of page i of the chain, which is where the transfer has
      got to. */
  lemma WrittenOn(p0: Store, c0: Cell, buf: seq<Byte>, pages: Store, c: Cell, s: nat, offset: nat, n: nat, i: nat, o: nat, a: nat)
    requires s > 0 && ChainOk(p0, c0, s) && n + a <= |buf| && Moved(p0, c0, buf, pages, c, buf, s, offset, n, true)
    requires i < Count(c, s) && o + a <= s && offset + n == |c.local| + Times(i, s) + o
    ensures var g := Nth(pages, c.first, i);
      PageOk(pages, g, s) && Moved(p0, c0, buf, pages[g := pages[g].(data := Copied(pages[g].data, o, buf, n, a))], c, buf, s, offset, n + a, true)
  {
    SameChainOk(p0, pages, c0, c, s);
    var g := Nth(pages, c.first, i);
    assert PageOk(pages, g, s);
    var after := pages[g := pages[g].(data := Copied(pages[g].data, o, buf, n, a))];
    forall k: nat | k < c0.nPayload
      ensures ByteAt(after, c, s, k) == if offset <= k < offset + n + a then buf[k - offset] else ByteAt(p0, c0, s, k)
    {
      if k >= |c.local| {
        WrittenFar(pages, c, s, i, o, buf, n, a, k - |c.local|);
        assert ByteAt(pages, c, s, k) == FarByte(pages, c.first, s, k - |c.local|);
      } else {
        assert ByteAt(after, c, s, k) == ByteAt(pages, c, s, k);
      }
    }
  }

  lemma WrittenFar(pages: Store, c: Cell, s: nat, i: nat, o: nat, buf: seq<Byte>, n: nat, a: nat, k: nat)
    requires s > 0 && ChainOk(pages, c, s) && i < Count(c, s) && o + a <= s && n + a <= |buf| && k < c.nPayload - |c.local|
    ensures var g := Nth(pages, c.first, i);
      && PageOk(pages, g, s)
      && var after := pages[g := pages[g].(data := Copied(pages[g].data, o, buf, n, a))];
         var at := Times(i, s) + o;
         FarByte(after, c.first, s, k) == if at <= k < at + a then buf[n + (k - at)] else FarByte(pages, c.first, s, k)
  {
    var g, q, r := Nth(pages, c.first, i), Quot(k, s), Rem(k, s);
    assert PageOk(pages, g, s);
    var after := pages[g := pages[g].(data := Copied(pages[g].data, o, buf, n, a))];
    TimesQuot(k, s);
    QuotBelow(k, c.nPayload - |c.local|, s);
    SameNth(pages, after, c.first, q);
    assert PageOk(pages, Nth(pages, c.first, q), s);
    if q < i {
      TimesGrow(q + 1, i, s);
      assert Nth(pages, c.first, q) != g;
    } else if q > i {
      TimesGrow(i + 1, q, s);
      assert Nth(pages, c.first, q) != g;
    }
  }

  lemma ReadOn(p0: Store, c0: Cell, buf0: seq<Byte>, buf: seq<Byte>, s: nat, offset: nat, n: nat, i: nat, o: nat, a: nat)
    requires s > 0 && ChainOk(p0, c0, s) && n + a <= |buf0| && Moved(p0, c0, buf0, p0, c0, buf, s, offset, n, false)
    requires i < Count(c0, s) && o + a <= s && offset + n == |c0.local| + Times(i, s) + o
    ensures var g := Nth(p0, c0.first, i);
      PageOk(p0, g, s) && Moved(p0, c0, buf0, p0, c0, Copied(buf, n, p0[g].data, o, a), s, offset, n + a, false)
  {
    assert PageOk(p0, Nth(p0, c0.first, i), s);
    forall j: nat | n <= j < n + a ensures ByteFrom(p0, c0, s, offset, j) == p0[Nth(p0, c0.first, i)].data[o + (j - n)] {
      QuotTimes(i, o + (j - n), s);
    }
  }

  /** The next byte to transfer is byte o of page i of the chain and on. */
  ghost predicate Position(p0: Store, c: Cell, s: nat, next: nat, i: nat, o: nat, g: Pgno)
    requires s > 0
  {
    next == |c.local| + Times(i, s) + o && g == Nth(p0, c.first, i) && i < Count(c, s) && g != 0
  }

  lemma NextPosition(p0: Store, c: Cell, s: nat, next: nat, i: nat, o: nat, g: Pgno)
    requires s > 0 && ChainOk(p0, c, s) && Position(p0, c, s, next, i, o, g) && o >= s && next < c.nPayload
    ensures g in p0 && Position(p0, c, s, next, i + 1, o - s, p0[g].next)
  {
    var k: nat := next - |c.local|;
    assert PageOk(p0, g, s);
    NthNext(p0, c.first, i);
    TimesQuot(k, s);
    QuotBelow(k, c.nPayload - |c.local|, s);
    if Quot(k, s) <= i { TimesGrow(Quot(k, s), i, s); }
    assert PageOk(p0, Nth(p0, c.first, i + 1), s);
  }

  /** Where the page list cache lets the transfer start. */
  method Start(ghost p0: Store, ghost c: Cell, first: Pgno, s: nat, cache: Cache, offset1: nat) returns (i: nat, offset: nat, next: Pgno)
    requires s > 0 && ChainOk(p0, c, s) && CacheOk(p0, c, s, cache) && |c.local| + offset1 < c.nPayload && first == c.first
    ensures Position(p0, c, s, |c.local| + offset1, i, offset, next)
  {
    i, offset, next := 0, offset1, first;
    DivIsQuot(offset, s);
    TimesQuot(offset, s);
    QuotBelow(offset, c.nPayload - |c.local|, s);
    assert PageOk(p0, Nth(p0, c.first, 0), s);
    if cache.Cache? && cache.aOverflow[offset / s] != 0 {
      i := offset / s;
      next := cache.aOverflow[i];
      offset := offset % s;
    }
  }

  /** The next page, from the cache if it is there. */
  method Follow(ghost p0: Store, pages: Store, m: Ptrmap, ghost c: Cell, ghost s: nat, cache: Cache, i: nat, g: Pgno) returns (next: Pgno)
    requires s > 0 && PtrmapOk(p0, m) && (pages == p0 || SameChain(p0, pages)) && CacheOk(p0, c, s, cache) && i + 1 < Count(c, s)
    requires g in p0 && Nth(p0, c.first, i + 1) == p0[g].next
    ensures next == p0[g].next
  {
    if cache.Cache? && cache.aOverflow[i + 1] != 0 {
      next := cache.aOverflow[i + 1];
    } else {
      SamePtrmap(p0, pages, m);
      next := GetOverflowPage(pages, m, g);
    }
  }

  /** Transfer bytes of one page. */
  method CopyPage(ghost p0: Store, ghost c0: Cell, buf0: seq<Byte>, pages1: Store, ghost c: Cell, buf1: seq<Byte>, ghost s: nat,
                  ghost offset0: nat, n: nat, ghost i: nat, g: Pgno, o: nat, a: nat, write: bool)
    returns (pages: Store, buf: seq<Byte>, next: Pgno)
    requires s > 0 && ChainOk(p0, c0, s) && n + a <= |buf0| && o + a <= s && Position(p0, c0, s, offset0 + n, i, o, g)
    requires Moved(p0, c0, buf0, pages1, c, buf1, s, offset0, n, write)
    ensures Moved(p0, c0, buf0, pages, c, buf, s, offset0, n + a, write)
    ensures g in p0 && next == p0[g].next
  {
    assert PageOk(p0, g, s);
    pages, buf, next := pages1, buf1, pages1[g].next;
    if write {
      SameNth(p0, pages, c.first, i);
      WrittenOn(p0, c0, buf0, pages, c, s, offset0, n, i, o, a);
      pages := pages[g := pages[g].(data := Copied(pages[g].data, o, buf, n, a))];
    } else {
      ReadOn(p0, c0, buf0, buf, s, offset0, n, i, o, a);
      buf := Copied(buf, n, pages[g].data, o, a);
    }
  }

  /** The loop of accessPayload over the overflow pages: the next byte to transfer
      is byte offset of the overflow part, n bytes have been transferred. */
  method AccessOverflow(ghost p0: Store, ghost c0: Cell, buf0: seq<Byte>, pages1: Store, m: Ptrmap, c: Cell, buf1: seq<Byte>, s: nat,
                        ghost offset0: nat, n1: nat, offset1: nat, write: bool, cache1: Cache)
    returns (pages: Store, buf: seq<Byte>, cache: Cache)
    requires s > 0 && ChainOk(p0, c0, s) && PtrmapOk(p0, m) && CacheOk(p0, c0, s, cache1)
    requires n1 < |buf0| && Moved(p0, c0, buf0, pages1, c, buf1, s, offset0, n1, write)
    requires offset0 + n1 == |c.local| + offset1 && offset0 + |buf0| <= c.nPayload
    ensures Moved(p0, c0, buf0, pages, c, buf, s, offset0, |buf0|, write) && CacheOk(p0, c0, s, cache)
  {
    pages, buf, cache := pages1, buf1, cache1;
    var n: nat := n1;
    var iIdx: nat, offset: nat, nextPage: Pgno := Start(p0, c0, c.first, s, cache, offset1);
    while n < |buf0| && nextPage != 0
      invariant n <= |buf0| && Moved(p0, c0, buf0, pages, c, buf, s, offset0, n, write) && CacheOk(p0, c0, s, cache)
      invariant n < |buf0| ==> Position(p0, c0, s, offset0 + n, iIdx, offset, nextPage)
      decreases |buf0| - n, offset
    {
      if cache.Cache? { cache := Cache(cache.aOverflow[iIdx := nextPage]); }
      if offset >= s {
        NextPosition(p0, c0, s, offset0 + n, iIdx, offset, nextPage);
        nextPage := Follow(p0, pages, m, c0, s, cache, iIdx, nextPage);
        offset := offset - s;
      } else {
        var a: nat := |buf0| - n;
        if a + offset > s { a := s - offset; }
        if n + a < |buf0| { NextPosition(p0, c0, s, offset0 + n + a, iIdx, s, nextPage); }
        pages, buf, nextPage := CopyPage(p0, c0, buf0, pages, c, buf, s, offset0, n, iIdx, nextPage, offset, a, write);
        offset := 0;
        n := n + a;
      }
      iIdx := iIdx + 1;
    }
  }

  lemma SamePtrmap(p0: Store, pages: Store, m: Ptrmap)
    requires PtrmapOk(p0, m) && (pages == p0 || SameChain(p0, pages))
    ensures PtrmapOk(pages, m)
  {
  }

  /** Transfer the bytes that are on the page of the cell. */
  method CopyLocal(ghost p0: Store, c0: Cell, buf0: seq<Byte>, ghost s: nat, offset: nat, write: bool) returns (c: Cell, buf: seq<Byte>, n: nat)
    requires s > 0 && offset + |buf0| <= c0.nPayload
    ensures n <= |buf0| && Moved(p0, c0, buf0, p0, c, buf, s, offset, n, write)
    ensures n < |buf0| ==> |c0.local| <= offset + n && (if n > 0 then offset + n == |c0.local| else offset >= |c0.local|)
  {
    c, buf, n := c0, buf0, 0;
    if offset < |c.local| {
      n := |buf0|;
      if n + offset > |c.local| { n := |c.local| - offset; }
      if write {
        c := c.(local := Copied(c.local, offset, buf, 0, n));
      } else {
        buf := Copied(buf, 0, c.local, offset, n);
      }
    }
  }

  method EmptyCache(ghost pages: Store, c: Cell, s: nat) returns (cache: Cache)
    requires s > 0 && |c.local| <= c.nPayload
    ensures CacheOk(pages, c, s, cache)
  {
    DivIsPieces(c.nPayload - |c.local|, s);
    cache := Cache(seq((c.nPayload - |c.local| + s - 1) / s, _ => 0));
  }

  datatype Rc = Ok | Error | NoMem

  /** accessPayload.  For incremental blob handles the page list cache is made when
      it is needed first. */
  method AccessPayload(pages0: Store, m: Ptrmap, c0: Cell, s: nat, nKey: nat, offset1: nat, buf0: seq<Byte>, skipKey: bool,
                       write: bool, isIncrblobHandle: bool, cache0: Cache)
    returns (rc: Rc, pages: Store, c: Cell, buf: seq<Byte>, cache: Cache)
    requires s > 0 && ChainOk(pages0, c0, s) && PtrmapOk(pages0, m) && CacheOk(pages0, c0, s, cache0)
    ensures var offset := offset1 + if skipKey then nKey else 0;
      && (rc == Error <==> offset + |buf0| > c0.nPayload)
      && (rc == Ok ==> Moved(pages0, c0, buf0, pages, c, buf, s, offset, |buf0|, write) && CacheOk(pages, c, s, cache))
    ensures rc == Error ==> pages == pages0 && c == c0 && buf == buf0
    ensures rc == NoMem ==> isIncrblobHandle && cache0.NoCache?
    ensures ChainOk(pages, c, s)
  {
    rc, pages, c, buf, cache := Ok, pages0, c0, buf0, cache0;
    var offset: nat := offset1;
    if skipKey { offset := offset + nKey; }
    if offset + |buf0| > c.nPayload { return Error, pages, c, buf, cache; }
    var n: nat;
    c, buf, n := CopyLocal(pages0, c0, buf0, s, offset, write);
    if n < |buf0| {
      if isIncrblobHandle && cache.NoCache? {
        var gotMemory: bool := *;
        if !gotMemory {
          SameChainOk(pages0, pages, c0, c, s);
          return NoMem, pages, c, buf, cache;
        }
        cache := EmptyCache(pages, c0, s);
      }
      pages, buf, cache := AccessOverflow(pages0, c0, buf0, pages, m, c, buf, s, offset, n, if n > 0 then 0 else offset - |c.local|, write, cache);
    }
    SameChainOk(pages0, pages, c0, c, s);
    SameCache(pages0, pages, c0, c, s, cache);
  }

  lemma SameCache(pages0: Store, pages: Store, c0: Cell, c: Cell, s: nat, cache: Cache)
    requires s > 0 && SameChain(pages0, pages) && c.nPayload == c0.nPayload && c.first == c0.first && |c.local| == |c0.local|
    ensures CacheOk(pages, c, s, cache) <==> CacheOk(pages0, c0, s, cache)
  {
    forall i: nat ensures Nth(pages, c.first, i) == Nth(pages0, c.first, i) { SameNth(pages0, pages, c.first, i); }
  }

  // ---------------------------------------------------------------------
  // How much stays on the page
  // ---------------------------------------------------------------------

  /** The local part is within its bounds, and no other size within them needs
      fewer overflow pages. */
  lemma LocalSizeBest(k: PageKind, nPayload: nat, local: nat)
    requires k.Valid() && nPayload > k.maxLocal && k.minLocal <= local <= k.maxLocal
    ensures k.minLocal <= LocalSize(k, nPayload) <= k.maxLocal
    ensures Pieces(nPayload - LocalSize(k, nPayload), k.usableSize - 4) <= Pieces(nPayload - local, k.usableSize - 4)
  {
    var s: nat := k.usableSize - 4;
    var d: nat := nPayload - k.minLocal;
    var q, r := Quot(d, s), Rem(d, s);
    TimesQuot(d, s);
    if k.minLocal + r <= k.maxLocal {
      if q > 0 {
        PiecesTimes(q - 1, s, s);
        PiecesTimes(q - 1, 1, s);
        PiecesGrow(Times(q - 1, s) + 1, nPayload - local, s);
      }
    } else {
      PiecesTimes(q, r, s);
      PiecesTimes(q, 1, s);
      PiecesGrow(Times(q, s) + 1, nPayload - local, s);
    }
  }

  /** Where the surplus fits on the page, the overflow pages are all full. */
  lemma LocalSizeFull(k: PageKind, nPayload: nat)
    requires k.Valid() && nPayload > k.maxLocal && LocalSize(k, nPayload) != k.minLocal
    ensures Rem(nPayload - LocalSize(k, nPayload), k.usableSize - 4) == 0
  {
    var s: nat := k.usableSize - 4;
    var d: nat := nPayload - k.minLocal;
    TimesQuot(d, s);
    QuotTimes(Quot(d, s), 0, s);
  }
}
