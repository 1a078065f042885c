/** Storing the payload of a new cell, and freeing the pages of an old one
    (btree.c:4301-4469). */
module FillCell {
  import opened CellFormat
  import opened Division
  import opened Payload

  /** What the caller of sqlite3BtreeInsert gives: in a table the key is not part of
      the payload. */
  datatype Content = Content(intKey: bool, hasData: bool, key: seq<Byte>, data: seq<Byte>, nZero: nat)
  {
    function Data(): seq<Byte> { if hasData then data else [] }
    function Zeros(): nat { if hasData then nZero else 0 }
    function Key(): seq<Byte> { if intKey then [] else key }
    function Size(): nat { |Key()| + |Data()| + Zeros() }
  }

  /** Byte k of what should be stored: the key, the data and the zero bytes. */
  function Intended(x: Content, k: nat): Byte {
    if k < |x.Key()| then x.Key()[k]
    else if k < |x.Key()| + |x.Data()| then x.Data()[k - |x.Key()|]
    else 0
  }

  /** Byte k of what is stored.  For an index the data is taken again and again, and
      without a key there are only zeros. */
  function Stored(x: Content, k: nat): Byte {
    if x.intKey then if k < |x.Data()| then x.Data()[k] else 0
    else if |x.key| == 0 then 0
    else if k < |x.key| then x.key[k]
    else if |x.Data()| == 0 then 0
    else x.Data()[Rem(k - |x.key|, |x.Data()|)]
  }

  predicate AllZero(d: seq<Byte>, n: nat) {
    forall j: nat | j < n && j < |d| :: d[j] == 0
  }

  /** When an index cell is stored right: it has a key, or nothing but zeros for
      data; and either no zero bytes are asked for, or the data starts with as
      many. */
  predicate StoredRight(x: Content) {
    x.intKey || if |x.key| == 0 then AllZero(x.Data(), |x.Data()|) else AllZero(x.Data(), x.Zeros())
  }

  lemma StoredAt(x: Content, k: nat)
    requires k < x.Size() && StoredRight(x)
    ensures Stored(x, k) == Intended(x, k)
  {
    if !x.intKey && |x.key| > 0 && |x.Data()| > 0 && k >= |x.key| {
      var d: nat, n := k - |x.key|, |x.Data()|;
      TimesQuot(d, n);
      QuotTimes(0, if d < n then d else 0, n);
      if d >= n {
        RemBelow(d - n, n);
      }
    }
  }

  lemma {:induction false} RemBelow(a: nat, n: nat)
    requires n > 0
    ensures Rem(a + n, n) == Rem(a, n) <= a
  {
    if a >= n { RemBelow(a - n, n); }
  }

  /** Exactly then what is stored is what should be. */
  lemma StoredExactly(x: Content)
    ensures StoredRight(x) <==> forall k: nat | k < x.Size() :: Stored(x, k) == Intended(x, k)
  {
    if StoredRight(x) {
      forall k: nat | k < x.Size() ensures Stored(x, k) == Intended(x, k) { StoredAt(x, k); }
    } else if forall k: nat | k < x.Size() :: Stored(x, k) == Intended(x, k) {
      StoredWrong(x);
      assert false;
    }
  }

  lemma StoredWrong(x: Content)
    requires !StoredRight(x)
    ensures exists k: nat :: k < x.Size() && Stored(x, k) != Intended(x, k)
  {
    var n := |x.Data()|;
    if |x.key| == 0 {
      var j: nat :| j < n && x.Data()[j] != 0;
      assert Stored(x, j) != Intended(x, j);
    } else {
      var j: nat :| j < x.Zeros() && j < n && x.Data()[j] != 0;
      var k: nat := |x.key| + n + j;
      RemBelow(j, n);
      assert Stored(x, k) != Intended(x, k);
    }
  }

  // ---------------------------------------------------------------------
  // The source of the bytes
  // ---------------------------------------------------------------------

  /** Where fillInCell takes the next bytes from: nSrc bytes from place pos of src,
      or zeros when nSrc is not positive. */
  ghost predicate SrcAt(x: Content, done: nat, src: seq<Byte>, pos: nat, nSrc: int, round: nat) {
    if nSrc > 0 then
      && pos + nSrc == |src|
      && if x.intKey then src == x.Data() && pos == done
         else |x.key| > 0 && if done < |x.key| then src == x.key && pos == done
                             else src == x.Data() && done == |x.key| + Times(round, |src|) + pos
    else if x.intKey then done >= |x.Data()|
    else |x.key| == 0 || (|x.Data()| == 0 && done >= |x.key|)
  }

  lemma SrcByte(x: Content, done: nat, src: seq<Byte>, pos: nat, nSrc: int, round: nat, j: nat)
    requires SrcAt(x, done, src, pos, nSrc, round) && (nSrc > 0 ==> j < nSrc)
    ensures Stored(x, done + j) == if nSrc > 0 then src[pos + j] else 0
  {
    if nSrc > 0 && !x.intKey && done >= |x.key| { QuotTimes(round, pos + j, |src|); }
  }

  /** The chunk that is copied: n bytes. */
  function Chunk(src: seq<Byte>, pos: nat, nSrc: int, n: nat): (c: seq<Byte>)
    requires nSrc > 0 ==> pos + n <= |src|
    ensures |c| == n
  {
    if nSrc > 0 then src[pos..pos + n] else seq(n, _ => 0)
  }

  method TakeChunk(ghost x: Content, ghost done: nat, src: seq<Byte>, pos: nat, nSrc: int, ghost round: nat, n: nat) returns (c: seq<Byte>)
    requires SrcAt(x, done, src, pos, nSrc, round) && (nSrc > 0 ==> n <= nSrc)
    ensures |c| == n && forall j: nat | j < n :: StoredFrom(x, done, j) == c[j]
  {
    c := Chunk(src, pos, nSrc, n);
    forall j: nat | j < n ensures StoredFrom(x, done, j) == c[j] { SrcByte(x, done, src, pos, nSrc, round, j); }
  }

  /** Go on in the source, or to the data when it is used up. */
  method Advance(ghost x: Content, ghost done: nat, src0: seq<Byte>, pos0: nat, nSrc0: int, ghost round0: nat, n: nat, data: seq<Byte>)
    returns (src: seq<Byte>, pos: nat, nSrc: int, ghost round: nat)
    requires SrcAt(x, done, src0, pos0, nSrc0, round0) && n > 0 && (nSrc0 > 0 ==> n <= nSrc0)
    requires data == if x.intKey then [] else x.Data()
    ensures SrcAt(x, done + n, src, pos, nSrc, round)
  {
    src, pos, nSrc, round := src0, pos0 + n, nSrc0 - n, round0;
    if nSrc == 0 {
      round := if done < |x.key| then 0 else round0 + 1;
      nSrc := |data|;
      src, pos := data, 0;
    }
  }

  // ---------------------------------------------------------------------
  // The pages
  // ---------------------------------------------------------------------

  /** The pages the allocator has to give. */
  ghost predicate Allocatable(pages: Store, alloc: seq<Pgno>, s: nat) {
    && (forall i: nat | i < |alloc| :: PageOk(pages, alloc[i], s))
    && (forall i: nat, j: nat | i < |alloc| && j < |alloc| && i != j :: Differ(alloc, i, j))
  }

  predicate Differ(alloc: seq<Pgno>, i: nat, j: nat)
    requires i < |alloc| && j < |alloc|
  {
    alloc[i] != alloc[j]
  }

  function NextOf(alloc: seq<Pgno>, used: nat, i: nat): Pgno
    requires used <= |alloc|
  {
    if i + 1 < used then alloc[i + 1] else 0
  }

  /** The first pages are linked in a chain. */
  ghost predicate Linked(pages: Store, alloc: seq<Pgno>, used: nat) {
    used <= |alloc| && forall i: nat | i < used :: LinkAt(pages, alloc, used, i)
  }

  predicate LinkAt(pages: Store, alloc: seq<Pgno>, used: nat, i: nat)
    requires i < used <= |alloc|
  {
    alloc[i] in pages && pages[alloc[i]].next == NextOf(alloc, used, i)
  }

  /** Byte k of the pages. */
  function OnPages(pages: Store, alloc: seq<Pgno>, s: nat, k: nat): Byte
    requires s > 0
  {
    var i := Quot(k, s);
    if i < |alloc| && alloc[i] in pages then CellFormat.At(pages[alloc[i]].data, Rem(k, s)) else 0
  }

  /** The bytes before done are stored. */
  ghost predicate Filled(x: Content, pages: Store, alloc: seq<Pgno>, local: seq<Byte>, nLocal: nat, s: nat, done: nat)
    requires s > 0
  {
    && |local| == (if done < nLocal then done else nLocal)
    && forall k: nat | k < done :: Stored(x, k) == if k < nLocal then CellFormat.At(local, k) else OnPages(pages, alloc, s, k - nLocal)
  }

  ghost predicate OnlyThese(pages0: Store, pages: Store, alloc: seq<Pgno>) {
    pages.Keys == pages0.Keys && forall g | g in pages0 && g !in alloc :: pages[g] == pages0[g]
  }

  lemma OnlyTrans(a: Store, b: Store, c: Store, alloc: seq<Pgno>)
    requires OnlyThese(a, b, alloc) && OnlyThese(b, c, alloc)
    ensures OnlyThese(a, c, alloc)
  {
  }

  /** The pointer map after the first pages have been allocated: the first has a
      partial entry, which names no page before it; each other names the page
      before it. */
  ghost predicate MapFor(m0: Ptrmap, m: Ptrmap, alloc: seq<Pgno>, used: nat) {
    && used <= |alloc| && m == m0.(entry := m.entry)
    && if !m0.autoVacuum then m == m0
       else
         (&& (forall x | x !in alloc :: (x in m.entry <==> x in m0.entry) && (x in m.entry ==> m.entry[x] == m0.entry[x]))
          && (forall i: nat | i < used :: EntryFor(m, alloc, i)) && forall i: nat | used <= i < |alloc| :: Unnamed(m, alloc[i]))
  }

  predicate EntryFor(m: Ptrmap, alloc: seq<Pgno>, i: nat)
    requires i < |alloc|
  {
    if i == 0 then alloc[0] !in m.entry else alloc[i] in m.entry && m.entry[alloc[i]] == alloc[i - 1]
  }

  predicate Unnamed(m: Ptrmap, g: Pgno) {
    g !in m.entry
  }

  /** Free pages come after no page, and no page comes after them. */
  ghost predicate FreeInMap(m: Ptrmap, alloc: seq<Pgno>) {
    m.autoVacuum ==> (forall i: nat | i < |alloc| :: Unnamed(m, alloc[i])) && forall x | x in m.entry :: m.entry[x] !in alloc
  }

  /** ptrmapPut for a page just allocated, with the one before it, or 0. */
  method PutEntry(m1: Ptrmap, ghost m0: Ptrmap, alloc: seq<Pgno>, used: nat, ghost s: nat, ghost pages: Store) returns (m: Ptrmap)
    requires used < |alloc| && MapFor(m0, m1, alloc, used) && Allocatable(pages, alloc, s)
    ensures MapFor(m0, m, alloc, used + 1)
  {
    m := m1;
    if m.autoVacuum {
      var g := alloc[used];
      m := m.(entry := if used > 0 then m.entry[g := alloc[used - 1]] else m.entry - {g});
      var more := used + 1;
      forall i: nat | i < more ensures EntryFor(m, alloc, i) {
        if i < used { assert EntryFor(m1, alloc, i) && Differ(alloc, i, used); } else { assert Unnamed(m1, alloc[used]); }
      }
      forall i: nat | more <= i < |alloc| ensures Unnamed(m, alloc[i]) { assert Unnamed(m1, alloc[i]) && Differ(alloc, i, used); }
    }
  }

  /** The pointer map tells the truth about the new chain, and about all others. */
  lemma MapTrue(pages0: Store, m0: Ptrmap, pages: Store, m: Ptrmap, alloc: seq<Pgno>, used: nat)
    requires PtrmapOk(pages0, m0) && FreeInMap(m0, alloc) && MapFor(m0, m, alloc, used)
    requires Linked(pages, alloc, used) && OnlyThese(pages0, pages, alloc)
    ensures PtrmapOk(pages, m)
  {
    if m.autoVacuum {
      forall x | x in m.entry && m.entry[x] in pages ensures pages[m.entry[x]].next == x {
        if x in alloc {
          var i: nat :| i < |alloc| && alloc[i] == x;
          assert i >= used ==> Unnamed(m, alloc[i]);
          assert EntryFor(m, alloc, i);
          assert LinkAt(pages, alloc, used, i - 1);
        }
      }
    }
  }

  /** Another page at the end of the chain. */
  method Extend(pages0: Store, alloc: seq<Pgno>, used: nat, ghost s: nat, ghost x: Content, ghost local: seq<Byte>, ghost nLocal: nat, ghost done: nat)
    returns (pages: Store)
    requires s > 0 && Allocatable(pages0, alloc, s) && used < |alloc| && Linked(pages0, alloc, used)
    requires Filled(x, pages0, alloc, local, nLocal, s, done)
    ensures Allocatable(pages, alloc, s) && Linked(pages, alloc, used + 1) && OnlyThese(pages0, pages, alloc)
    ensures Filled(x, pages, alloc, local, nLocal, s, done)
  {
    assert PageOk(pages0, alloc[used], s);
    pages := pages0;
    if used > 0 {
      var prior := alloc[used - 1];
      assert PageOk(pages0, prior, s);
      pages := pages[prior := pages[prior].(next := alloc[used])];
    }
    pages := pages[alloc[used] := pages[alloc[used]].(next := 0)];
    var more := used + 1;
    forall i: nat | i < used ensures LinkAt(pages, alloc, more, i) {
      assert LinkAt(pages0, alloc, used, i);
      assert Differ(alloc, i, used) && (i < used - 1 ==> Differ(alloc, i, used - 1));
      assert PageOk(pages0, alloc[i], s);
    }
    forall i: nat | i < |alloc| ensures PageOk(pages, alloc[i], s) { assert PageOk(pages0, alloc[i], s); }
    forall k: nat ensures OnPages(pages, alloc, s, k) == OnPages(pages0, alloc, s, k) {}
  }

  /** A chunk on the last page of the chain. */
  lemma FilledMore(x: Content, pages: Store, alloc: seq<Pgno>, local: seq<Byte>, nLocal: nat, s: nat, done: nat, i: nat, p: nat, c: seq<Byte>)
    requires s > 0 && Allocatable(pages, alloc, s) && Filled(x, pages, alloc, local, nLocal, s, done)
    requires i < |alloc| && p + |c| <= s && done == nLocal + Times(i, s) + p
    requires forall j: nat | j < |c| :: StoredFrom(x, done, j) == c[j]
    ensures alloc[i] in pages && |pages[alloc[i]].data| == s
    ensures var after := pages[alloc[i] := pages[alloc[i]].(data := Copied(pages[alloc[i]].data, p, c, 0, |c|))];
      Allocatable(after, alloc, s) && OnlyThese(pages, after, alloc) && Filled(x, after, alloc, local, nLocal, s, done + |c|)
  {
    assert PageOk(pages, alloc[i], s);
    var after := pages[alloc[i] := pages[alloc[i]].(data := Copied(pages[alloc[i]].data, p, c, 0, |c|))];
    forall j: nat | j < |alloc| ensures PageOk(after, alloc[j], s) { assert PageOk(pages, alloc[j], s); }
    forall k: nat | k < done + |c|
      ensures Stored(x, k) == if k < nLocal then CellFormat.At(local, k) else OnPages(after, alloc, s, k - nLocal)
    {
      if k >= nLocal { ByteOnPage(pages, alloc, s, i, p, c, k - nLocal); }
      if k >= done { assert StoredFrom(x, done, k - done) == c[k - done]; }
    }
  }

  function StoredFrom(x: Content, done: nat, j: nat): Byte {
    Stored(x, done + j)
  }

  lemma ByteOnPage(pages: Store, alloc: seq<Pgno>, s: nat, i: nat, p: nat, c: seq<Byte>, k: nat)
    requires s > 0 && Allocatable(pages, alloc, s) && i < |alloc| && p + |c| <= s && k < Times(i, s) + p + |c|
    ensures alloc[i] in pages && |pages[alloc[i]].data| == s
    ensures var after := pages[alloc[i] := pages[alloc[i]].(data := Copied(pages[alloc[i]].data, p, c, 0, |c|))];
      var at := Times(i, s) + p;
      OnPages(after, alloc, s, k) == if at <= k then c[k - at] else OnPages(pages, alloc, s, k)
  {
    assert PageOk(pages, alloc[i], s);
    var q, r := Quot(k, s), Rem(k, s);
    TimesQuot(k, s);
    if q > i {
      TimesGrow(i + 1, q, s);
      assert false;
    }
    if q < i {
      TimesGrow(q + 1, i, s);
      assert q < |alloc| ==> Differ(alloc, q, i);
    }
  }

  /** Room for what is left on the page in use. */
  ghost predicate Space(nLocal: nat, s: nat, done: nat, used: nat, spaceLeft: nat) {
    done + spaceLeft == nLocal + Times(used, s) && (used > 0 ==> spaceLeft <= s)
  }

  /** Copy the chunk to the cell, or to the last page of the chain. */
  method Put(pages0: Store, alloc: seq<Pgno>, used: nat, s: nat, ghost x: Content, local0: seq<Byte>, ghost nLocal: nat, ghost done: nat,
             spaceLeft: nat, c: seq<Byte>) returns (pages: Store, local: seq<Byte>)
    requires s > 0 && Allocatable(pages0, alloc, s) && Linked(pages0, alloc, used) && Filled(x, pages0, alloc, local0, nLocal, s, done)
    requires Space(nLocal, s, done, used, spaceLeft) && 0 < |c| <= spaceLeft && forall j: nat | j < |c| :: StoredFrom(x, done, j) == c[j]
    ensures Allocatable(pages, alloc, s) && Linked(pages, alloc, used) && Filled(x, pages, alloc, local, nLocal, s, done + |c|)
    ensures OnlyThese(pages0, pages, alloc)
  {
    pages, local := pages0, local0;
    if used == 0 {
      local := local + c;
      forall k: nat | k < done + |c| ensures Stored(x, k) == CellFormat.At(local, k) {
        if k >= done { assert StoredFrom(x, done, k - done) == c[k - done]; } else { assert CellFormat.At(local0, k) == local[k]; }
      }
    } else {
      var g := alloc[used - 1];
      FilledMore(x, pages, alloc, local, nLocal, s, done, used - 1, s - spaceLeft, c);
      pages := pages[g := pages[g].(data := Copied(pages[g].data, s - spaceLeft, c, 0, |c|))];
      forall i: nat | i < used ensures LinkAt(pages, alloc, used, i) { assert LinkAt(pages0, alloc, used, i); }
    }
  }

  /** The cell that is made. */
  ghost predicate Made(s: nat, nLocal: nat, x: Content, pages: Store, c: Cell, alloc: seq<Pgno>)
    requires s > 0
  {
    && c.nPayload == x.Size() && |c.local| == nLocal && Count(c, s) <= |alloc| && ChainOk(pages, c, s)
    && IsChain(pages, c.first, alloc, Count(c, s))
    && (forall i: nat | i < x.Size() :: ByteAt(pages, c, s, i) == Stored(x, i))
  }

  /** fillInCell.  alloc is what the allocator gives, one page after the other; when
      there is no page any more, the cell is not made.  In an auto-vacuum file the
      pointer map stays true, for the new chain as for all others. */
  method FillInCell(k: PageKind, pages0: Store, m0: Ptrmap, x: Content, alloc: seq<Pgno>) returns (ok: bool, pages: Store, m: Ptrmap, c: Cell)
    requires k.Valid() && Allocatable(pages0, alloc, k.usableSize - 4) && PtrmapOk(pages0, m0) && FreeInMap(m0, alloc)
    ensures ok ==> Made(k.usableSize - 4, LocalSize(k, x.Size()), x, pages, c, alloc)
    ensures ok == (|alloc| >= Pieces(x.Size() - LocalSize(k, x.Size()), k.usableSize - 4)) && OnlyThese(pages0, pages, alloc)
    ensures PtrmapOk(pages, m) && m == m0.(entry := m.entry)
    ensures ok ==> MapFor(m0, m, alloc, Pieces(x.Size() - LocalSize(k, x.Size()), k.usableSize - 4))
  {
    ok, pages, m, c := FillPayload(k.usableSize - 4, LocalSize(k, x.Size()), pages0, m0, x, alloc);
  }

  /** How far fillInCell is: the pages and their pointer map, the cell, the pages
      used, the room on the last one, and the source of the next bytes. */
  datatype Fill = Fill(pages: Store, m: Ptrmap, local: seq<Byte>, used: nat, spaceLeft: nat, src: seq<Byte>, pos: nat, nSrc: int)

  ghost predicate FillOk(f: Fill, pages0: Store, m0: Ptrmap, x: Content, alloc: seq<Pgno>, s: nat, nLocal: nat, done: nat, round: nat)
    requires s > 0
  {
    && SrcAt(x, done, f.src, f.pos, f.nSrc, round) && Space(nLocal, s, done, f.used, f.spaceLeft)
    && Allocatable(f.pages, alloc, s) && Linked(f.pages, alloc, f.used) && Filled(x, f.pages, alloc, f.local, nLocal, s, done)
    && OnlyThese(pages0, f.pages, alloc) && MapFor(m0, f.m, alloc, f.used)
  }

  /** Another page for a payload that goes on. */
  method NewPage(f: Fill, ghost pages0: Store, ghost m0: Ptrmap, ghost x: Content, alloc: seq<Pgno>, s: nat, ghost nLocal: nat, ghost done: nat,
                 ghost round: nat) returns (g: Fill)
    requires s > 0 && FillOk(f, pages0, m0, x, alloc, s, nLocal, done, round) && f.spaceLeft == 0 && f.used < |alloc|
    ensures FillOk(g, pages0, m0, x, alloc, s, nLocal, done, round) && g.used == f.used + 1 && g.spaceLeft == s && g.nSrc == f.nSrc
  {
    var m := PutEntry(f.m, m0, alloc, f.used, s, f.pages);
    var pages := Extend(f.pages, alloc, f.used, s, x, f.local, nLocal, done);
    OnlyTrans(pages0, f.pages, pages, alloc);
    g := f.(pages := pages, m := m, used := f.used + 1, spaceLeft := s);
  }

  /** Copy n bytes. */
  method CopyChunk(f: Fill, ghost pages0: Store, ghost m0: Ptrmap, ghost x: Content, alloc: seq<Pgno>, s: nat, ghost nLocal: nat, ghost done: nat,
                   ghost round0: nat, n: nat, data: seq<Byte>) returns (g: Fill, ghost round: nat)
    requires s > 0 && FillOk(f, pages0, m0, x, alloc, s, nLocal, done, round0) && 0 < n <= f.spaceLeft && (f.nSrc > 0 ==> n <= f.nSrc)
    requires data == if x.intKey then [] else x.Data()
    ensures FillOk(g, pages0, m0, x, alloc, s, nLocal, done + n, round) && g.used == f.used && g.spaceLeft == f.spaceLeft - n
  {
    var chunk := TakeChunk(x, done, f.src, f.pos, f.nSrc, round0, n);
    var pages, local := Put(f.pages, alloc, f.used, s, x, f.local, nLocal, done, f.spaceLeft, chunk);
    OnlyTrans(pages0, f.pages, pages, alloc);
    var src, pos, nSrc;
    src, pos, nSrc, round := Advance(x, done, f.src, f.pos, f.nSrc, round0, n, data);
    g := Fill(pages, f.m, local, f.used, f.spaceLeft - n, src, pos, nSrc);
  }

  /** The last page in use is needed. */
  ghost predicate Needed(x: Content, nLocal: nat, s: nat, used: nat) {
    used > 0 ==> nLocal + Times(used - 1, s) < x.Size()
  }

  /** A page with room for the next bytes. */
  method MakeRoom(f: Fill, ghost pages0: Store, ghost m0: Ptrmap, ghost x: Content, alloc: seq<Pgno>, s: nat, ghost nLocal: nat, ghost done: nat,
                  ghost round: nat) returns (ok: bool, g: Fill)
    requires s > 0 && FillOk(f, pages0, m0, x, alloc, s, nLocal, done, round) && nLocal <= x.Size() && done < x.Size()
    requires Needed(x, nLocal, s, f.used)
    ensures FillOk(g, pages0, m0, x, alloc, s, nLocal, done, round) && Needed(x, nLocal, s, g.used) && g.nSrc == f.nSrc
    ensures if ok then g.spaceLeft > 0 else |alloc| < Pieces(x.Size() - nLocal, s)
  {
    ok, g := true, f;
    if f.spaceLeft == 0 {
      if f.used == |alloc| {
        NoRoom(x.Size() - nLocal, f.used, s);
        return false, f;
      }
      g := NewPage(f, pages0, m0, x, alloc, s, nLocal, done, round);
    }
  }

  /** Where the loop of fillInCell starts. */
  lemma FillStart(pages0: Store, m0: Ptrmap, x: Content, alloc: seq<Pgno>, s: nat, nLocal: nat)
    requires s > 0 && nLocal <= x.Size() && Allocatable(pages0, alloc, s) && FreeInMap(m0, alloc)
    ensures var src := if x.intKey then x.Data() else x.key;
      FillOk(Fill(pages0, m0, [], 0, nLocal, src, 0, |src|), pages0, m0, x, alloc, s, nLocal, 0, 0)
  {
  }

  /** The loop of fillInCell. */
  method FillLoop(s: nat, nLocal: nat, pages0: Store, m0: Ptrmap, x: Content, alloc: seq<Pgno>)
    returns (ok: bool, f: Fill, ghost done: nat, ghost round: nat)
    requires s > 0 && nLocal <= x.Size() && Allocatable(pages0, alloc, s) && FreeInMap(m0, alloc)
    ensures FillOk(f, pages0, m0, x, alloc, s, nLocal, done, round)
    ensures if ok then done == x.Size() && Needed(x, nLocal, s, f.used) else |alloc| < Pieces(x.Size() - nLocal, s)
  {
    var nPayload: nat := x.Size();
    var pSrc, pData := x.key, x.Data();
    if x.intKey { pSrc, pData := x.Data(), []; }
    FillStart(pages0, m0, x, alloc, s, nLocal);
    f, round, done := Fill(pages0, m0, [], 0, nLocal, pSrc, 0, |pSrc|), 0, 0;
    while nPayload > 0
      invariant done + nPayload == x.Size() && FillOk(f, pages0, m0, x, alloc, s, nLocal, done, round) && Needed(x, nLocal, s, f.used)
    {
      ok, f := MakeRoom(f, pages0, m0, x, alloc, s, nLocal, done, round);
      if !ok { return; }
      var n: nat := ChunkSize(f, nPayload);
      f, round := CopyChunk(f, pages0, m0, x, alloc, s, nLocal, done, round, n, pData);
      nPayload := nPayload - n;
      done := done + n;
    }
    ok := true;
  }

  /** As much as is left, as there is room for, and as the source has. */
  function ChunkSize(f: Fill, nPayload: nat): (n: nat)
    requires nPayload > 0 && f.spaceLeft > 0
    ensures 0 < n <= f.spaceLeft && n <= nPayload && (f.nSrc > 0 ==> n <= f.nSrc)
  {
    var n := if nPayload > f.spaceLeft then f.spaceLeft else nPayload;
    if f.nSrc > 0 && n > f.nSrc then f.nSrc else n
  }

  /** fillInCell with nLocal bytes on the page of the cell. */
  method FillPayload(s: nat, nLocal: nat, pages0: Store, m0: Ptrmap, x: Content, alloc: seq<Pgno>)
    returns (ok: bool, pages: Store, m: Ptrmap, c: Cell)
    requires s > 0 && nLocal <= x.Size() && Allocatable(pages0, alloc, s) && PtrmapOk(pages0, m0) && FreeInMap(m0, alloc)
    ensures ok ==> Made(s, nLocal, x, pages, c, alloc)
    ensures ok == (|alloc| >= Pieces(x.Size() - nLocal, s)) && OnlyThese(pages0, pages, alloc)
    ensures PtrmapOk(pages, m) && m == m0.(entry := m.entry) && (ok ==> MapFor(m0, m, alloc, Pieces(x.Size() - nLocal, s)))
  {
    var f;
    ghost var done, round;
    ok, f, done, round := FillLoop(s, nLocal, pages0, m0, x, alloc);
    pages, m, c := f.pages, f.m, Cell(x.Size(), f.local, if ok && f.used > 0 then alloc[0] else 0);
    MapTrue(pages0, m0, pages, m, alloc, f.used);
    if ok {
      UsedAll(x.Size() - nLocal, f.used, s, f.spaceLeft);
      MadeOf(s, nLocal, x, pages, c, alloc, f.used);
    }
  }

  /** All pages are full and there is more. */
  lemma NoRoom(size: nat, used: nat, s: nat)
    requires s > 0 && size > Times(used, s)
    ensures Pieces(size, s) > used
  {
    PiecesTimes(used, 1, s);
    PiecesGrow(Times(used, s) + 1, size, s);
  }

  lemma UsedAll(size: nat, used: nat, s: nat, spaceLeft: nat)
    requires s > 0 && size + spaceLeft == Times(used, s) && (used > 0 ==> spaceLeft <= s && Times(used - 1, s) < size)
    ensures Pieces(size, s) == used
  {
    if used > 0 { PiecesTimes(used - 1, s - spaceLeft, s); }
  }

  lemma {:induction false} NthOf(pages: Store, alloc: seq<Pgno>, used: nat, i: nat)
    requires Linked(pages, alloc, used) && i <= used && forall j: nat | j < used :: alloc[j] != 0
    ensures Nth(pages, if used > 0 then alloc[0] else 0, i) == if i < used then alloc[i] else 0
  {
    if i > 0 {
      NthOf(pages, alloc, used, i - 1);
      assert LinkAt(pages, alloc, used, i - 1);
      NthNext(pages, alloc[0], i - 1);
    }
  }

  ghost predicate IsChain(pages: Store, first: Pgno, alloc: seq<Pgno>, used: nat) {
    used <= |alloc| && (forall i: nat | i < used :: Nth(pages, first, i) == alloc[i]) && Nth(pages, first, used) == 0
  }

  lemma LinkedChain(pages: Store, alloc: seq<Pgno>, used: nat, s: nat)
    requires Linked(pages, alloc, used) && Allocatable(pages, alloc, s)
    ensures IsChain(pages, if used > 0 then alloc[0] else 0, alloc, used)
  {
    forall i: nat | i < |alloc| ensures alloc[i] != 0 { assert PageOk(pages, alloc[i], s); }
    var first := if used > 0 then alloc[0] else 0;
    forall i: nat | i < used ensures Nth(pages, first, i) == alloc[i] { NthOf(pages, alloc, used, i); }
    NthOf(pages, alloc, used, used);
  }

  lemma ChainMade(pages: Store, c: Cell, alloc: seq<Pgno>, used: nat, s: nat)
    requires s > 0 && |c.local| <= c.nPayload && Count(c, s) == used && IsChain(pages, c.first, alloc, used) && Allocatable(pages, alloc, s)
    ensures ChainOk(pages, c, s)
  {
    forall i: nat | i < used ensures PageOk(pages, Nth(pages, c.first, i), s) { assert PageOk(pages, alloc[i], s); }
    forall i: nat, j: nat | i < j < used ensures Nth(pages, c.first, i) != Nth(pages, c.first, j) { assert Differ(alloc, i, j); }
  }

  lemma ByteMade(x: Content, pages: Store, c: Cell, alloc: seq<Pgno>, used: nat, s: nat, k: nat)
    requires s > 0 && |c.local| <= c.nPayload == x.Size() && Count(c, s) == used && IsChain(pages, c.first, alloc, used)
    requires Filled(x, pages, alloc, c.local, |c.local|, s, x.Size()) && k < x.Size()
    ensures ByteAt(pages, c, s, k) == Stored(x, k)
  {
    if k >= |c.local| { QuotBelow(k - |c.local|, x.Size() - |c.local|, s); }
  }

  lemma MadeOf(s: nat, nLocal: nat, x: Content, pages: Store, c: Cell, alloc: seq<Pgno>, used: nat)
    requires s > 0 && nLocal <= x.Size() && Allocatable(pages, alloc, s) && Linked(pages, alloc, used)
    requires Filled(x, pages, alloc, c.local, nLocal, s, x.Size())
    requires c.nPayload == x.Size() && c.first == (if used > 0 then alloc[0] else 0) && Pieces(x.Size() - nLocal, s) == used
    ensures Made(s, nLocal, x, pages, c, alloc)
  {
    LinkedChain(pages, alloc, used, s);
    ChainMade(pages, c, alloc, used, s);
    forall i: nat | i < x.Size() ensures ByteAt(pages, c, s, i) == Stored(x, i) { ByteMade(x, pages, c, alloc, used, s, i); }
  }

  // ---------------------------------------------------------------------
  // Freeing
  // ---------------------------------------------------------------------

  /** clearCell: the pages freed, in order.  A page number that the file does not
      have stops it. */
  method ClearCell(pages: Store, m: Ptrmap, c: Cell, s: nat) returns (ok: bool, freed: seq<Pgno>)
    requires s > 0 && ChainOk(pages, c, s) && PtrmapOk(pages, m)
    ensures |freed| <= Count(c, s) && forall i: nat | i < |freed| :: freed[i] == Nth(pages, c.first, i) <= m.pageCount
    ensures if ok then |freed| == Count(c, s) else |freed| < Count(c, s) && Nth(pages, c.first, |freed|) > m.pageCount
  {
    freed := [];
    if c.nPayload == |c.local| { return true, freed; }
    var ovflPgno := c.first;
    DivIsPieces(c.nPayload - |c.local|, s);
    var nOvfl: nat := (c.nPayload - |c.local| + s - 1) / s;
    while nOvfl > 0
      invariant |freed| + nOvfl == Count(c, s) && (nOvfl > 0 ==> ovflPgno == Nth(pages, c.first, |freed|))
      invariant forall i: nat | i < |freed| :: freed[i] == Nth(pages, c.first, i) <= m.pageCount
    {
      nOvfl := nOvfl - 1;
      assert PageOk(pages, Nth(pages, c.first, |freed|), s);
      if ovflPgno == 0 || ovflPgno > m.pageCount { return false, freed; }
      NthNext(pages, c.first, |freed|);
      var g := ovflPgno;
      if nOvfl != 0 { ovflPgno := GetOverflowPage(pages, m, g); }
      freed := freed + [g];
    }
    ok := true;
  }

  // ---------------------------------------------------------------------
  // Round trip
  // ---------------------------------------------------------------------

  /** What is stored is read again, at any offset, whether or not the cell is given
      a page list cache, and in an auto-vacuum file also where the pointer map is
      asked for the next page. */
  method StoreAndRead(k: PageKind, pages0: Store, m0: Ptrmap, x: Content, alloc: seq<Pgno>, offset: nat, amt: nat, incr: bool)
    returns (rc: Rc, buf: seq<Byte>)
    requires k.Valid() && Allocatable(pages0, alloc, k.usableSize - 4) && PtrmapOk(pages0, m0) && FreeInMap(m0, alloc)
    requires |alloc| >= Pieces(x.Size() - LocalSize(k, x.Size()), k.usableSize - 4) && StoredRight(x) && offset + amt <= x.Size()
    ensures rc == Ok || (incr && rc == NoMem)
    ensures rc == Ok ==> |buf| == amt && forall j: nat | j < amt :: buf[j] == IntendedFrom(x, offset, j)
  {
    var ok, pages, m, c := FillInCell(k, pages0, m0, x, alloc);
    var after, cell, cache;
    buf := seq(amt, _ => 0);
    rc, after, cell, buf, cache := AccessPayload(pages, m, c, k.usableSize - 4, 0, offset, buf, false, false, incr, NoCache);
    forall j: nat | rc == Ok && j < amt ensures buf[j] == IntendedFrom(x, offset, j) {
      assert buf[j] == ByteFrom(pages, c, k.usableSize - 4, offset, j);
      StoredAt(x, offset + j);
    }
  }

  function IntendedFrom(x: Content, offset: nat, j: nat): Byte {
    Intended(x, offset + j)
  }
}
