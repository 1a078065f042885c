/** The space of one b-tree page, managed in place in the page's own bytes
    (defragmentPage, allocateSpace, freeSpace, insertCell, dropCell, btree.c). */
module MemPages {
  import opened CellFormat
  import opened PageSpace

  /** A cell that did not fit on its page, to be put in front of cell idx. */
  datatype OvflCell = OvflCell(pCell: seq<Byte>, idx: nat)

  function Slices(d: seq<Byte>, rs: seq<Region>): (s: seq<seq<Byte>>)
    ensures |s| == |rs| && forall i | 0 <= i < |rs| :: s[i] == Slice(d, rs[i])
  {
    seq(|rs|, i requires 0 <= i < |rs| => Slice(d, rs[i]))
  }

  /** The i-th cell pointer points at a cell of the stated size. */
  ghost predicate CellAt(k: PageKind, d: seq<Byte>, cellOffset: nat, cells: seq<Region>, i: nat)
    requires k.Valid() && i < |cells|
  {
    && cellOffset + 2 * i + 1 < |d| && cells[i].End() <= |d|
    && Get2(d, cellOffset + 2 * i) == cells[i].start
    && CellSize(k, d[cells[i].start..]) == cells[i].size
  }

  function CellOffsetOf(k: PageKind, hdr: nat): nat { hdr + 8 + k.ChildPtrSize() }

  /** The bytes d hold a well-formed page: its first nCell cells, in this order,
      are the ones its cell pointers point at. */
  ghost predicate Page(k: PageKind, d: seq<Byte>, hdr: nat, cells: seq<Region>, blocks: seq<Region>, nCell: nat) {
    && k.Valid() && |d| == k.usableSize && nCell <= |cells|
    && Space(d, hdr, cells, blocks, |blocks|)
    && Get2(d, hdr + 3) == nCell
    && CellOffsetOf(k, hdr) + 2 * nCell <= Get2(d, hdr + 5)
    && (forall i: nat | i < nCell :: CellAt(k, d, CellOffsetOf(k, hdr), cells, i))
  }

  /** A cell moved or left alone has the same size wherever its bytes are. */
  lemma SizeMoved(k: PageKind, d: seq<Byte>, r: Region, e: seq<Byte>, s: Region, skip: nat)
    requires k.Valid() && r.End() <= |d| && s.End() <= |e| && r.size == s.size
    requires skip <= k.ChildPtrSize()
    requires forall j | skip <= j < r.size :: Slice(d, r)[j] == Slice(e, s)[j]
    requires CellSize(k, d[r.start..]) == r.size
    ensures CellSize(k, e[s.start..]) == s.size
  {
    var c, f := d[r.start..], e[s.start..];
    forall j | k.ChildPtrSize() <= j < ParseCell(k, c).nHeader ensures At(c, j) == At(f, j) {
      assert Slice(d, r)[j] == Slice(e, s)[j];
    }
    ParseCellLocal(k, c, f);
  }

  /** The page as its methods see it: its bytes, where its cells are, and its
      chain of freeblocks. */
  datatype View = View(bytes: seq<Byte>, cells: seq<Region>, blocks: seq<Region>)

  class MemPage {
    const kind: PageKind
    const hdrOffset: nat
    const aData: array<Byte>
    ghost var view: View
    var nFree: int
    var nCell: nat
    var aOvfl: seq<OvflCell>

    function CellOffset(): nat { CellOffsetOf(kind, hdrOffset) }

    ghost predicate Fixed()
      reads this`view, aData
    {
      kind.Valid() && view.bytes == aData[..] && |view.bytes| == kind.usableSize && (hdrOffset == 0 || hdrOffset == 100)
    }

    /** The page invariant.  The last `pending` cells have been given room but
        have no cell pointer yet. */
    ghost predicate ValidBut(pending: nat)
      reads this, aData
    {
      && Fixed() && |view.cells| == nCell + pending
      && Page(kind, view.bytes, hdrOffset, view.cells, view.blocks, nCell)
      && (aOvfl == [] ==> nFree == FreeBytes(view.bytes, hdrOffset, CellOffset(), nCell, view.blocks))
    }

    ghost predicate Valid()
      reads this, aData
    {
      ValidBut(0)
    }

    /** The bytes of the cells on the page, in cell-pointer order. */
    ghost function Contents(): seq<seq<Byte>>
      reads this
    {
      Slices(view.bytes, view.cells)
    }

    // -------------------------------------------------------------------
    // Loads and stores
    // -------------------------------------------------------------------

    function Load1(a: nat): (v: Byte)
      requires Fixed() && a < aData.Length
      reads this`view, aData
      ensures v == view.bytes[a]
    {
      aData[a]
    }

    function Load2(a: nat): (v: nat)
      requires Fixed() && a + 1 < aData.Length
      reads this`view, aData
      ensures v == Get2(view.bytes, a)
    {
      aData[a] as int * 256 + aData[a + 1]
    }

    method Store1(a: nat, v: Byte)
      requires Fixed() && a < |view.bytes|
      modifies this`view, aData
      ensures Fixed() && view == old(view).(bytes := view.bytes)
      ensures KeptBut(old(view.bytes), view.bytes, a, 1, a, 1) && view.bytes[a] == v
    {
      aData[a] := v;
      view := view.(bytes := aData[..]);
    }

    method Store2(a: nat, v: nat)
      requires Fixed() && a + 1 < |view.bytes| && v < 0x10000
      modifies this`view, aData
      ensures Fixed() && view == old(view).(bytes := view.bytes)
      ensures KeptBut(old(view.bytes), view.bytes, a, 2, a, 2) && Get2(view.bytes, a) == v
    {
      aData[a], aData[a + 1] := v / 256, v % 256;
      view := view.(bytes := aData[..]);
    }

    method StoreBytes(a: nat, src: seq<Byte>)
      requires Fixed() && a + |src| <= |view.bytes|
      modifies this`view, aData
      ensures Fixed() && view == old(view).(bytes := old(view.bytes)[..a] + src + old(view.bytes)[a + |src|..])
    {
      forall x | 0 <= x < |src| { aData[a + x] := src[x]; }
      view := view.(bytes := view.bytes[..a] + src + view.bytes[a + |src|..]);
    }

    method StoreZeros(lo: nat, hi: nat)
      requires Fixed() && lo <= hi <= |view.bytes|
      modifies this`view, aData
      ensures Fixed() && |view.bytes| == |old(view.bytes)| && view == old(view).(bytes := view.bytes)
      ensures forall x | 0 <= x < |view.bytes| :: view.bytes[x] == if lo <= x < hi then 0 else old(view.bytes)[x]
    {
      forall x | lo <= x < hi { aData[x] := 0; }
      view := view.(bytes := aData[..]);
    }

    /** Write the bytes of a cell at offset `at` and its pointer at offset p. */
    method CopyCell(src: seq<Byte>, at: nat, p: nat)
      requires Fixed() && p + 2 <= at && at + |src| <= |view.bytes|
      modifies this`view, aData
      ensures Fixed() && view == old(view).(bytes := view.bytes)
      ensures Copied(old(view.bytes), view.bytes, src, Region(at, |src|), p)
    {
      ghost var d := view.bytes;
      StoreBytes(at, src);
      ghost var e := view.bytes;
      Store2(p, at);
      CopiedByStores(d, e, view.bytes, src, Region(at, |src|), p);
    }

    // -------------------------------------------------------------------
    // freeSpace
    // -------------------------------------------------------------------

    /** Put a region that held a cell back on the freeblock chain. */
    method FreeSpace(start: nat, size: nat, ghost c: nat)
      requires ValidBut(0) && c < |view.cells| && view.cells[c] == Region(start, size)
      modifies this`nFree, this`view, aData
      ensures Fixed()
      ensures nFree == old(nFree) + size
      ensures view.cells == Remove(old(view.cells), c)
      ensures Space(view.bytes, hdrOffset, view.cells, view.blocks, |view.blocks|)
      ensures Frame(old(view.bytes), view.bytes, hdrOffset, CellOffset() + 2 * nCell, view.cells)
      ensures Get2(old(view.bytes), hdrOffset + 5) <= Get2(view.bytes, hdrOffset + 5)
      ensures FreeBytes(view.bytes, hdrOffset, CellOffset(), nCell, view.blocks)
           == FreeBytes(old(view.bytes), hdrOffset, CellOffset(), nCell, old(view.blocks)) + size
    {
      ghost var d0 := view.bytes;
      var addr, pbegin, j := FindPlace(start, size, c);
      LinkAt(addr, start, size, pbegin, c, j);
      nFree := nFree + size;
      Tidy(d0);
    }

    /** Merge close freeblocks, then free a freeblock next to the gap. */
    method Tidy(ghost d0: seq<Byte>)
      requires Fixed() && Space(view.bytes, hdrOffset, view.cells, view.blocks, 0)
      requires Frame(d0, view.bytes, hdrOffset, Get2(view.bytes, hdrOffset + 5), view.cells)
      modifies this`view, aData
      ensures Fixed() && view.cells == old(view.cells)
      ensures Space(view.bytes, hdrOffset, view.cells, view.blocks, |view.blocks|)
      ensures Frame(d0, view.bytes, hdrOffset, old(Get2(view.bytes, hdrOffset + 5)), view.cells)
      ensures old(Get2(view.bytes, hdrOffset + 5)) <= Get2(view.bytes, hdrOffset + 5)
      ensures view.bytes[hdrOffset + 7] as int + Get2(view.bytes, hdrOffset + 5) + Total(view.blocks)
           == old(view.bytes[hdrOffset + 7] as int + Get2(view.bytes, hdrOffset + 5) + Total(view.blocks))
    {
      ghost var top, s := Get2(view.bytes, hdrOffset + 5), view.bytes[hdrOffset + 7] as int + Total(view.blocks);
      SpaceSpacing(view.bytes, hdrOffset, view.cells, view.blocks, 0, 1);
      CoalesceBlocks(d0, top, s);
      SpaceSpacing(view.bytes, hdrOffset, view.cells, view.blocks, |view.blocks| + 1, |view.blocks|);
      ghost var d1, bs := view.bytes, view.blocks;
      ReleaseFirst();
      ReleaseStep(d0, d1, view.bytes, hdrOffset, view.cells, bs, view.blocks);
    }

    /** Where the freeblock chain must be cut to link a region in. */
    method FindPlace(start: nat, size: nat, ghost c: nat) returns (addr: nat, pbegin: nat, ghost j: nat)
      requires ValidBut(0) && c < |view.cells| && view.cells[c] == Region(start, size)
      ensures j <= |view.blocks| && addr == Link(hdrOffset, view.blocks, j) && pbegin == Head(view.blocks, j)
      ensures forall i | 0 <= i < j :: view.blocks[i].start < start
      ensures forall i | j <= i < |view.blocks| :: start < view.blocks[i].start
    {
      ghost var d := view.bytes;
      addr, j := hdrOffset + 1, 0;
      pbegin := Load2(addr);
      while pbegin < start && pbegin > 0
        invariant 0 <= j <= |view.blocks| && addr == Link(hdrOffset, view.blocks, j) && pbegin == Head(view.blocks, j)
        invariant forall i | 0 <= i < j :: view.blocks[i].start < start
        decreases |view.blocks| - j
      {
        assert BlockAt(d, hdrOffset, view.blocks, j);
        addr, j := pbegin, j + 1;
        pbegin := Load2(addr);
      }
      forall i | j <= i < |view.blocks| ensures start < view.blocks[i].start {
        assert BlockAt(d, hdrOffset, view.blocks, j) && Disjoint(view.cells[c], view.blocks[j]);
        if j < i { assert Spaced(view.blocks, |view.blocks|, j, i); }
      }
    }

    method LinkAt(addr: nat, start: nat, size: nat, pbegin: nat, ghost c: nat, ghost j: nat)
      requires Fixed() && Space(view.bytes, hdrOffset, view.cells, view.blocks, |view.blocks|)
      requires c < |view.cells| && view.cells[c] == Region(start, size)
      requires j <= |view.blocks| && addr == Link(hdrOffset, view.blocks, j) && pbegin == Head(view.blocks, j)
      requires forall i | 0 <= i < j :: view.blocks[i].start < start
      requires forall i | j <= i < |view.blocks| :: start < view.blocks[i].start
      modifies this`view, aData
      ensures Fixed()
      ensures view.cells == Remove(old(view.cells), c) && Total(view.blocks) == Total(old(view.blocks)) + size
      ensures Space(view.bytes, hdrOffset, view.cells, view.blocks, 0)
      ensures Frame(old(view.bytes), view.bytes, hdrOffset, Get2(old(view.bytes), hdrOffset + 5), view.cells)
      ensures view.bytes[hdrOffset + 7] == old(view.bytes[hdrOffset + 7])
      ensures Get2(view.bytes, hdrOffset + 5) == old(Get2(view.bytes, hdrOffset + 5))
    {
      ghost var d := view.bytes;
      LinkGeometry(d, c, j);
      LinkStores(addr, start, size, pbegin);
      LinkBlock(d, view.bytes, hdrOffset, view.cells, view.blocks, c, j);
      TotalInsert(view.blocks, j, view.cells[c]);
      view := view.(cells := Remove(view.cells, c), blocks := Insert(view.blocks, j, view.cells[c]));
    }

    method LinkStores(addr: nat, start: nat, size: nat, pbegin: nat)
      requires Fixed() && addr + 1 < |view.bytes| && start + 3 < |view.bytes|
      requires addr + 2 <= start || start + 4 <= addr
      requires start < 0x10000 && size < 0x10000 && pbegin < 0x10000
      modifies this`view, aData
      ensures Fixed() && view == old(view).(bytes := view.bytes)
      ensures Linked(old(view.bytes), view.bytes, addr, Region(start, size), pbegin)
    {
      Store2(addr, start);
      Store2(start, pbegin);
      Store2(start + 2, size);
    }

    lemma LinkGeometry(d: seq<Byte>, c: nat, j: nat)
      requires Space(d, hdrOffset, view.cells, view.blocks, |view.blocks|) && c < |view.cells| && j <= |view.blocks|
      ensures hdrOffset + 8 <= view.cells[c].start && view.cells[c].start + 3 < |d| && view.cells[c].size < 0x10000
      ensures Link(hdrOffset, view.blocks, j) + 1 < |d| && Head(view.blocks, j) < 0x10000
      ensures var a := Link(hdrOffset, view.blocks, j); a + 2 <= view.cells[c].start || view.cells[c].start + 4 <= a
    {
      var top := Get2(d, hdrOffset + 5);
      assert Inside(view.cells[c], top, |d|);
      if 0 < j { assert Disjoint(view.cells[c], view.blocks[j - 1]) && Inside(view.blocks[j - 1], top, |d|); }
      if j < |view.blocks| { assert Inside(view.blocks[j], top, |d|); }
    }

    /** Merge freeblocks less than four bytes apart. */
    method CoalesceBlocks(ghost d0: seq<Byte>, ghost top: nat, ghost s: int)
      requires Fixed() && Merging(d0, view.bytes, hdrOffset, view.cells, view.blocks, 0, top, s)
      modifies this`view, aData
      ensures Fixed() && Merging(d0, view.bytes, hdrOffset, view.cells, view.blocks, |view.blocks|, top, s)
      ensures view.cells == old(view.cells)
    {
      var addr := hdrOffset + 1;
      ghost var j := 0;
      ReadLink(view.bytes, hdrOffset, view.blocks, j);
      var pbegin := Load2(addr);
      while pbegin > 0
        invariant Fixed() && Merging(d0, view.bytes, hdrOffset, view.cells, view.blocks, j, top, s)
        invariant view.cells == old(view.cells)
        invariant addr == Link(hdrOffset, view.blocks, j) && pbegin == Head(view.blocks, j) && (pbegin == 0 <==> j == |view.blocks|)
        decreases |view.blocks| - j
      {
        addr, j := CoalesceOne(d0, addr, pbegin, j, top, s);
        ReadLink(view.bytes, hdrOffset, view.blocks, j);
        pbegin := Load2(addr);
      }
    }

    /** Merge freeblock j with its neighbour, or go on to the next one. */
    method CoalesceOne(ghost d0: seq<Byte>, addr: nat, pbegin: nat, ghost j: nat, ghost top: nat, ghost s: int)
      returns (addr': nat, ghost j': nat)
      requires Fixed() && Merging(d0, view.bytes, hdrOffset, view.cells, view.blocks, j, top, s)
      requires j < |view.blocks| && addr == Link(hdrOffset, view.blocks, j) && pbegin == Head(view.blocks, j)
      modifies this`view, aData
      ensures Fixed() && Merging(d0, view.bytes, hdrOffset, view.cells, view.blocks, j', top, s)
      ensures view.cells == old(view.cells)
      ensures addr' == Link(hdrOffset, view.blocks, j') && |view.blocks| - j' < |old(view.blocks)| - j
    {
      ReadBlock(view.bytes, hdrOffset, view.blocks, j);
      var pnext := Load2(pbegin);
      var psize := Load2(pbegin + 2);
      if pbegin + psize + 3 >= pnext && pnext > 0 {
        TakeNeighbour(d0, pbegin, pnext, psize, j, top, s);
        addr', j' := addr, j;
      } else {
        MergeSkip(d0, view.bytes, hdrOffset, view.cells, view.blocks, j, top, s);
        addr', j' := pbegin, j + 1;
      }
    }

    method TakeNeighbour(ghost d0: seq<Byte>, pbegin: nat, pnext: nat, psize: nat, ghost j: nat, ghost top: nat, ghost s: int)
      requires Fixed() && Merging(d0, view.bytes, hdrOffset, view.cells, view.blocks, j, top, s)
      requires j + 1 < |view.blocks| && view.blocks[j] == Region(pbegin, psize)
      requires view.blocks[j + 1].start == pnext <= pbegin + psize + 3
      modifies this`view, aData
      ensures Fixed() && Merging(d0, view.bytes, hdrOffset, view.cells, view.blocks, j, top, s)
      ensures view.cells == old(view.cells) && view.blocks == Merge(old(view.blocks), j)
    {
      ghost var v := view;
      MergeFacts(v.bytes, hdrOffset, v.cells, v.blocks, j);
      var frag := pnext - (pbegin + psize);
      MergeStores(frag, pbegin, Load2(pnext), pnext + Load2(pnext + 2) - pbegin);
      MergeStep(d0, v.bytes, view.bytes, hdrOffset, v.cells, v.blocks, j, top, s);
      view := view.(blocks := Merge(v.blocks, j));
    }

    method MergeStores(frag: nat, pbegin: nat, next: nat, size: nat)
      requires Fixed() && hdrOffset + 8 <= pbegin && pbegin + 3 < |view.bytes| && frag <= view.bytes[hdrOffset + 7] as int
      requires next < 0x10000 && size < 0x10000
      modifies this`view, aData
      ensures Fixed() && view == old(view).(bytes := view.bytes)
      ensures KeptBut(old(view.bytes), view.bytes, hdrOffset + 7, 1, pbegin, 4)
      ensures Get2(view.bytes, pbegin) == next && Get2(view.bytes, pbegin + 2) == size
      ensures view.bytes[hdrOffset + 7] as int == old(view.bytes[hdrOffset + 7]) - frag
    {
      Store1(hdrOffset + 7, Load1(hdrOffset + 7) - frag);
      Store2(pbegin, next);
      Store2(pbegin + 2, size);
    }

    /** If the content area begins with a freeblock, move it into the gap. */
    method ReleaseFirst()
      requires Fixed() && Space(view.bytes, hdrOffset, view.cells, view.blocks, |view.blocks|)
      modifies this`view, aData
      ensures Fixed() && Released(old(view.bytes), view.bytes, hdrOffset)
      ensures view == old(view.(blocks := if Get2(view.bytes, hdrOffset + 1) == Get2(view.bytes, hdrOffset + 5) && view.blocks != []
        then view.blocks[1..] else view.blocks)).(bytes := view.bytes)
    {
      var hdr := hdrOffset;
      if aData[hdr + 1] == aData[hdr + 5] && aData[hdr + 2] == aData[hdr + 6] {
        ReleaseFacts(view.bytes, hdr, view.cells, view.blocks);
        var pbegin := Load2(hdr + 1);
        var next := Load2(pbegin);
        var size := Load2(pbegin + 2);
        ReleaseStores(next, pbegin + size);
        view := view.(blocks := view.blocks[1..]);
      }
    }

    method ReleaseStores(next: nat, top: nat)
      requires Fixed() && hdrOffset + 7 < |view.bytes| && next < 0x10000 && top < 0x10000
      modifies this`view, aData
      ensures Fixed() && view == old(view).(bytes := view.bytes)
      ensures KeptBut(old(view.bytes), view.bytes, hdrOffset + 1, 2, hdrOffset + 5, 2)
      ensures Get2(view.bytes, hdrOffset + 1) == next && Get2(view.bytes, hdrOffset + 5) == top
    {
      Store2(hdrOffset + 1, next);
      Store2(hdrOffset + 5, top);
    }

    // -------------------------------------------------------------------
    // defragmentPage
    // -------------------------------------------------------------------

    /** Pack all cells at the end of the page; all free space is then one gap. */
    method DefragmentPage()
      requires Fixed() && |view.cells| == nCell && Page(kind, view.bytes, hdrOffset, view.cells, view.blocks, nCell)
      modifies this`view, aData
      ensures Fixed() && |view.cells| == nCell && Page(kind, view.bytes, hdrOffset, view.cells, view.blocks, nCell)
      ensures FreeBytes(view.bytes, hdrOffset, CellOffset(), nCell, view.blocks)
           == old(FreeBytes(view.bytes, hdrOffset, CellOffset(), nCell, view.blocks))
      ensures Contents() == old(Contents())
      ensures view.blocks == [] && view.bytes[hdrOffset + 7] == 0
      ensures Get2(view.bytes, hdrOffset + 5) == kind.usableSize - Total(view.cells) && Total(view.cells) == Total(old(view.cells))
    {
      ghost var v := view;
      var brk, packed := PackCells();
      ghost var d := view.bytes;
      PackEnd(kind, v.bytes, hdrOffset, v.cells, v.blocks);
      OneGap(brk, CellOffset() + 2 * nCell);
      PackDone(kind, v.bytes, d, view.bytes, hdrOffset, v.cells, v.blocks, packed, brk);
      view := view.(cells := packed, blocks := []);
    }

    /** Header of a page whose free space is the gap [addr, brk). */
    method OneGap(brk: nat, addr: nat)
      requires Fixed() && hdrOffset + 8 <= addr <= brk <= |view.bytes| && brk < 0x10000
      modifies this`view, aData
      ensures Fixed() && view == old(view).(bytes := view.bytes) && |view.bytes| == |old(view.bytes)|
      ensures GapSet(old(view.bytes), view.bytes, hdrOffset, addr, brk)
    {
      Store2(hdrOffset + 5, brk);
      Store2(hdrOffset + 1, 0);
      Store1(hdrOffset + 7, 0);
      StoreZeros(addr, brk);
    }

    /** Copy the cells to the end of the page, in cell-pointer order. */
    method PackCells() returns (brk: nat, ghost packed: seq<Region>)
      requires Fixed() && |view.cells| == nCell && Page(kind, view.bytes, hdrOffset, view.cells, view.blocks, nCell)
      modifies this`view, aData
      ensures Fixed() && view == old(view).(bytes := view.bytes)
      ensures Packed(kind, old(view.bytes), view.bytes, hdrOffset, view.cells, packed, nCell, brk)
    {
      ghost var v := view;
      var temp := aData[..];
      brk, packed := kind.usableSize, [];
      var i := 0;
      PackStart(kind, v.bytes, hdrOffset, v.cells, v.blocks);
      while i < nCell
        invariant Fixed() && view == v.(bytes := view.bytes)
        invariant i <= nCell && Packed(kind, v.bytes, view.bytes, hdrOffset, v.cells, packed, i, brk)
      {
        brk, packed := PackCell(temp, i, brk, packed, v);
        i := i + 1;
      }
    }

    /** Where the next cell to pack is, and its size. */
    method NextCell(temp: seq<Byte>, i: nat, ghost brk: nat, ghost packed: seq<Region>, ghost v: View) returns (pc: nat, size: nat)
      requires Fixed() && view == v.(bytes := view.bytes) && temp == v.bytes
      requires i < nCell == |v.cells| && Page(kind, v.bytes, hdrOffset, v.cells, v.blocks, nCell)
      requires Packed(kind, v.bytes, view.bytes, hdrOffset, v.cells, packed, i, brk)
      ensures v.cells[i] == Region(pc, size) && pc + size <= |temp| && CellOffset() + 2 * i + 2 + size <= brk <= |view.bytes|
    {
      PackNext(kind, temp, view.bytes, hdrOffset, v.cells, v.blocks, packed, i, brk);
      pc := Load2(CellOffset() + 2 * i);
      size := CellSize(kind, temp[pc..]);
    }

    method PackCell(temp: seq<Byte>, i: nat, brk: nat, ghost packed: seq<Region>, ghost v: View)
      returns (brk': nat, ghost packed': seq<Region>)
      requires Fixed() && view == v.(bytes := view.bytes) && temp == v.bytes
      requires i < nCell == |v.cells| && Page(kind, v.bytes, hdrOffset, v.cells, v.blocks, nCell)
      requires Packed(kind, v.bytes, view.bytes, hdrOffset, v.cells, packed, i, brk)
      modifies this`view, aData
      ensures Fixed() && view == v.(bytes := view.bytes)
      ensures Packed(kind, v.bytes, view.bytes, hdrOffset, v.cells, packed', i + 1, brk')
    {
      ghost var d := view.bytes;
      var pc, size := NextCell(temp, i, brk, packed, v);
      brk' := brk - size;
      ghost var text := Slice(v.bytes, v.cells[i]);
      assert temp[pc..pc + size] == text && |text| == size;
      CopyCell(temp[pc..pc + size], brk', CellOffset() + 2 * i);
      PackOne(kind, v.bytes, d, view.bytes, hdrOffset, v.cells, v.blocks, packed, i, brk, brk');
      packed' := packed + [Region(brk', size)];
    }

    // -------------------------------------------------------------------
    // allocateSpace
    // -------------------------------------------------------------------

    /** Room for a new cell of nByte bytes, or 0 when the page has none.  The
        room is cells[nCell]; the cells in front of it keep their bytes. */
    method AllocateSpace(nByte: nat) returns (idx: nat)
      requires Valid() && nByte <= kind.usableSize
      modifies this`nFree, this`view, aData
      ensures idx == 0 <==> old(nFree) < Least4(nByte) || aOvfl != []
      ensures idx == 0 ==> Valid() && view == old(view)
      ensures idx != 0 ==> ValidBut(1) && view.cells[nCell] == Region(idx, Least4(nByte))
      ensures idx != 0 ==> Slices(view.bytes, view.cells[..nCell]) == old(Contents())
      ensures idx != 0 ==> Get2(view.bytes, hdrOffset + 5) + Least4(nByte) >= old(Get2(view.bytes, hdrOffset + 5))
      ensures nFree == if idx == 0 then old(nFree) else old(nFree) - Least4(nByte)
    {
      var n := Least4(nByte);
      if nFree < n || aOvfl != [] { return 0; }
      nFree := nFree - n;
      var nFrag := Load1(hdrOffset + 7);
      if nFrag < 60 {
        var addr, pc, size, j := SearchChain(n);
        if pc > 0 {
          idx := TakeFromBlock(n, addr, pc, size, j);
          return;
        }
      }
      idx := GrowContent(n, nFrag);
    }

    /** Room from the gap, which is made big enough first if it is not. */
    method GrowContent(n: nat, nFrag: Byte) returns (idx: nat)
      requires Fixed() && Page(kind, view.bytes, hdrOffset, view.cells, view.blocks, nCell) && |view.cells| == nCell
      requires 4 <= n <= FreeBytes(view.bytes, hdrOffset, CellOffset(), nCell, view.blocks)
      modifies this`view, aData
      ensures Fixed()
      ensures idx > 0 && |view.cells| == nCell + 1 && view.cells[nCell] == Region(idx, n)
      ensures Page(kind, view.bytes, hdrOffset, view.cells, view.blocks, nCell)
      ensures Slices(view.bytes, view.cells[..nCell]) == old(Contents())
      ensures Get2(view.bytes, hdrOffset + 5) + n >= old(Get2(view.bytes, hdrOffset + 5))
      ensures FreeBytes(view.bytes, hdrOffset, CellOffset(), nCell, view.blocks)
           == old(FreeBytes(view.bytes, hdrOffset, CellOffset(), nCell, view.blocks)) - n
    {
      var top: int := Load2(hdrOffset + 5);
      var cellCount := Load2(hdrOffset + 3);
      if nFrag >= 60 || CellOffset() + 2 * cellCount > top - n {
        DefragmentPage();
        top := Load2(hdrOffset + 5);
      }
      idx := TakeFromGap(n, top - n);
    }

    /** The first freeblock with at least n bytes, and the link to it. */
    method SearchChain(n: nat) returns (addr: nat, pc: nat, size: nat, ghost j: nat)
      requires Fixed() && Page(kind, view.bytes, hdrOffset, view.cells, view.blocks, nCell)
      ensures j <= |view.blocks| && addr == Link(hdrOffset, view.blocks, j)
      ensures pc == Head(view.blocks, j) && (pc == 0 <==> j == |view.blocks|)
      ensures forall i | 0 <= i < j :: view.blocks[i].size < n
      ensures j < |view.blocks| ==> view.blocks[j].size == size >= n
    {
      addr, j, size := hdrOffset + 1, 0, 0;
      ReadLink(view.bytes, hdrOffset, view.blocks, j);
      pc := Load2(addr);
      while pc > 0
        invariant j <= |view.blocks| && addr == Link(hdrOffset, view.blocks, j)
        invariant pc == Head(view.blocks, j) && (pc == 0 <==> j == |view.blocks|)
        invariant forall i | 0 <= i < j :: view.blocks[i].size < n
        decreases |view.blocks| - j
      {
        ReadBlock(view.bytes, hdrOffset, view.blocks, j);
        size := Load2(pc + 2);
        if size >= n { return; }
        addr, j := pc, j + 1;
        ReadLink(view.bytes, hdrOffset, view.blocks, j);
        pc := Load2(addr);
      }
    }

    /** Use freeblock j, of the given size at pc, for a cell of n bytes. */
    method TakeFromBlock(n: nat, addr: nat, pc: nat, size: nat, ghost j: nat) returns (idx: nat)
      requires Fixed() && Page(kind, view.bytes, hdrOffset, view.cells, view.blocks, nCell) && |view.cells| == nCell
      requires j < |view.blocks| && addr == Link(hdrOffset, view.blocks, j) && view.blocks[j] == Region(pc, size)
      requires 4 <= n <= size && view.bytes[hdrOffset + 7] < 60
      modifies this`view, aData
      ensures Fixed()
      ensures idx > 0 && view.cells == old(view.cells) + [Region(idx, n)]
      ensures Page(kind, view.bytes, hdrOffset, view.cells, view.blocks, nCell)
      ensures Slices(view.bytes, view.cells[..nCell]) == old(Contents())
      ensures Get2(view.bytes, hdrOffset + 5) + n >= old(Get2(view.bytes, hdrOffset + 5))
      ensures FreeBytes(view.bytes, hdrOffset, CellOffset(), nCell, view.blocks)
           == old(FreeBytes(view.bytes, hdrOffset, CellOffset(), nCell, view.blocks)) - n
    {
      ReadBlock(view.bytes, hdrOffset, view.blocks, j);
      if size < n + 4 {
        UnlinkBlock(n, addr, pc, size, j);
        idx := pc;
      } else {
        ShrinkBlock(n, pc, size, j);
        idx := pc + size - n;
      }
    }

    method UnlinkBlock(n: nat, addr: nat, pc: nat, size: nat, ghost j: nat)
      requires Fixed() && Page(kind, view.bytes, hdrOffset, view.cells, view.blocks, nCell) && |view.cells| == nCell
      requires j < |view.blocks| && addr == Link(hdrOffset, view.blocks, j) && view.blocks[j] == Region(pc, size)
      requires 4 <= n <= size < n + 4 && view.bytes[hdrOffset + 7] < 60
      modifies this`view, aData
      ensures Fixed()
      ensures view.cells == old(view.cells) + [Region(pc, n)]
      ensures Page(kind, view.bytes, hdrOffset, view.cells, view.blocks, nCell)
      ensures Slices(view.bytes, view.cells[..nCell]) == old(Contents())
      ensures Get2(view.bytes, hdrOffset + 5) + n >= old(Get2(view.bytes, hdrOffset + 5))
      ensures FreeBytes(view.bytes, hdrOffset, CellOffset(), nCell, view.blocks)
           == old(FreeBytes(view.bytes, hdrOffset, CellOffset(), nCell, view.blocks)) - n
    {
      ghost var d := view.bytes;
      UnlinkFacts(d, hdrOffset, view.cells, view.blocks, j);
      UnlinkStores(addr, Load2(pc), size - n);
      UnlinkPage(kind, d, view.bytes, hdrOffset, view.cells, view.blocks, nCell, j, n);
      view := view.(cells := view.cells + [Region(pc, n)], blocks := Remove(view.blocks, j));
    }

    method UnlinkStores(addr: nat, next: nat, frag: nat)
      requires Fixed() && addr + 1 < |view.bytes| && (addr + 2 <= hdrOffset + 7 || hdrOffset + 8 <= addr)
      requires next < 0x10000 && hdrOffset + 7 < |view.bytes| && view.bytes[hdrOffset + 7] as int + frag < 256
      modifies this`view, aData
      ensures Fixed() && view == old(view).(bytes := view.bytes)
      ensures KeptBut(old(view.bytes), view.bytes, hdrOffset + 7, 1, addr, 2) && Get2(view.bytes, addr) == next
      ensures view.bytes[hdrOffset + 7] as int == old(view.bytes[hdrOffset + 7]) + frag
    {
      Store2(addr, next);
      Store1(hdrOffset + 7, Load1(hdrOffset + 7) + frag);
    }

    method ShrinkBlock(n: nat, pc: nat, size: nat, ghost j: nat)
      requires Fixed() && Page(kind, view.bytes, hdrOffset, view.cells, view.blocks, nCell) && |view.cells| == nCell
      requires j < |view.blocks| && view.blocks[j] == Region(pc, size) && 4 <= n && n + 4 <= size
      modifies this`view, aData
      ensures Fixed()
      ensures view.cells == old(view.cells) + [Region(pc + size - n, n)]
      ensures Page(kind, view.bytes, hdrOffset, view.cells, view.blocks, nCell)
      ensures Slices(view.bytes, view.cells[..nCell]) == old(Contents())
      ensures Get2(view.bytes, hdrOffset + 5) + n >= old(Get2(view.bytes, hdrOffset + 5))
      ensures FreeBytes(view.bytes, hdrOffset, CellOffset(), nCell, view.blocks)
           == old(FreeBytes(view.bytes, hdrOffset, CellOffset(), nCell, view.blocks)) - n
    {
      ghost var d := view.bytes;
      ReadBlock(d, hdrOffset, view.blocks, j);
      Store2(pc + 2, size - n);
      ghost var left, r := Region(pc, size - n), Region(pc + size - n, n);
      ShrinkPage(kind, d, view.bytes, hdrOffset, view.cells, view.blocks, nCell, j, left, r);
      view := view.(cells := view.cells + [r], blocks := view.blocks[j := left]);
    }

    /** Lower the start of the content area to make room for n bytes. */
    method TakeFromGap(n: nat, top: nat) returns (idx: nat)
      requires Fixed() && Page(kind, view.bytes, hdrOffset, view.cells, view.blocks, nCell) && |view.cells| == nCell
      requires 4 <= n && top + n == Get2(view.bytes, hdrOffset + 5) && CellOffset() + 2 * nCell <= top
      modifies this`view, aData
      ensures Fixed()
      ensures idx > 0 && view.cells == old(view.cells) + [Region(idx, n)]
      ensures Page(kind, view.bytes, hdrOffset, view.cells, view.blocks, nCell)
      ensures Slices(view.bytes, view.cells[..nCell]) == old(Contents())
      ensures Get2(view.bytes, hdrOffset + 5) + n >= old(Get2(view.bytes, hdrOffset + 5))
      ensures FreeBytes(view.bytes, hdrOffset, CellOffset(), nCell, view.blocks)
           == old(FreeBytes(view.bytes, hdrOffset, CellOffset(), nCell, view.blocks)) - n
    {
      ghost var d := view.bytes;
      Store2(hdrOffset + 5, top);
      TakeGap(d, view.bytes, hdrOffset, view.cells, view.blocks, n);
      PageGrown(kind, d, view.bytes, hdrOffset, view.cells, view.blocks, nCell, Region(top, n), view.blocks);
      view := view.(cells := view.cells + [Region(top, n)]);
      idx := top;
    }

    // -------------------------------------------------------------------
    // insertCell
    // -------------------------------------------------------------------

    /** Make pCell the i-th cell: on the page when it fits, otherwise as an
        overflow cell.  The first nSkip bytes are left for the caller to fill. */
    method InsertCell(i: nat, pCell: seq<Byte>, sz: nat, nSkip: nat)
      requires Valid() && i <= nCell + |aOvfl|
      requires sz == CellSize(kind, pCell) && sz <= |pCell| && nSkip <= kind.ChildPtrSize()
      modifies this`nFree, this`nCell, this`aOvfl, this`view, aData
      ensures Valid()
      ensures if old(aOvfl == [] && sz + 2 <= nFree) then
          && aOvfl == [] && nCell == old(nCell) + 1 && nFree == old(nFree) - sz - 2
          && Contents() == Insert(old(Contents()), i, Contents()[i])
          && |Contents()[i]| == sz && Contents()[i][nSkip..] == pCell[nSkip..sz]
        else
          && aOvfl == old(aOvfl) + [OvflCell(pCell, i)] && nFree == 0
          && nCell == old(nCell) && view == old(view)
    {
      if aOvfl != [] || sz + 2 > nFree {
        aOvfl := aOvfl + [OvflCell(pCell, i)];
        nFree := 0;
        return;
      }
      var idx := RoomFor(sz);
      ghost var rest := view.cells[..nCell];
      assert view.cells == rest + [Region(idx, sz)];
      PutCell(i, idx, pCell, sz, nSkip, rest);
    }

    /** Room for a cell and its pointer. */
    method RoomFor(sz: nat) returns (idx: nat)
      requires Valid() && aOvfl == [] && 4 <= sz && sz + 2 <= nFree
      modifies this`nFree, this`view, aData
      ensures ValidBut(1) && view.cells[nCell] == Region(idx, sz) && nFree == old(nFree) - sz
      ensures Slices(view.bytes, view.cells[..nCell]) == old(Contents())
      ensures CellOffset() + 2 * nCell + 2 <= Get2(view.bytes, hdrOffset + 5)
    {
      var end := CellOffset() + 2 * nCell + 2;
      if end > Load2(hdrOffset + 5) - sz {
        DefragmentPage();
      }
      idx := AllocateSpace(sz);
    }

    /** Fill the room at idx with the cell and make it the i-th. */
    method PutCell(i: nat, idx: nat, pCell: seq<Byte>, sz: nat, nSkip: nat, ghost rest: seq<Region>)
      requires ValidBut(1) && aOvfl == [] && i <= nCell && view.cells == rest + [Region(idx, sz)]
      requires CellOffset() + 2 * nCell + 2 <= Get2(view.bytes, hdrOffset + 5)
      requires sz == CellSize(kind, pCell) && sz <= |pCell| && nSkip <= kind.ChildPtrSize()
      modifies this`nFree, this`nCell, this`view, aData
      ensures Valid() && nCell == old(nCell) + 1 && nFree == old(nFree) - 2
      ensures Contents() == Insert(Slices(old(view.bytes), rest), i, Contents()[i])
      ensures |Contents()[i]| == sz && Contents()[i][nSkip..] == pCell[nSkip..sz]
    {
      ghost var d, r, blocks := view.bytes, Region(idx, sz), view.blocks;
      LastInside(d, hdrOffset, view.cells, blocks);
      WriteCell(i, idx, pCell[nSkip..sz], nSkip);
      InsertDone(kind, d, view.bytes, hdrOffset, rest, r, blocks, nCell, i, pCell, nSkip);
      nCell := nCell + 1;
      nFree := nFree - 2;
      view := view.(cells := Insert(rest, i, r));
    }

    /** Put body at idx + nSkip, and a pointer to idx in front of pointer i. */
    method WriteCell(i: nat, idx: nat, body: seq<Byte>, nSkip: nat)
      requires Fixed() && i <= nCell && CellOffset() + 2 * nCell + 2 <= idx && idx + nSkip + |body| <= |view.bytes|
      modifies this`view, aData
      ensures Fixed() && view == old(view).(bytes := view.bytes)
      ensures CellWritten(kind, old(view.bytes), view.bytes, hdrOffset, Region(idx, nSkip + |body|), nCell, i, body, nSkip)
    {
      ghost var d := view.bytes;
      StoreBytes(idx + nSkip, body);
      ghost var e := view.bytes;
      ShiftUp(i);
      ghost var f := view.bytes;
      Store2(CellOffset() + 2 * i, idx);
      ghost var g := view.bytes;
      Store2(hdrOffset + 3, nCell + 1);
      WrittenByStores(kind, d, e, f, g, view.bytes, hdrOffset, idx, nCell, i, body, nSkip);
    }

    /** Move the cell pointers from i on up by one place. */
    method ShiftUp(i: nat)
      requires Fixed() && i <= nCell && CellOffset() + 2 * nCell + 2 <= |view.bytes|
      modifies this`view, aData
      ensures Fixed() && view == old(view).(bytes := view.bytes)
      ensures Shifted(old(view.bytes), view.bytes, CellOffset() + 2 * i, CellOffset() + 2 * nCell)
    {
      ghost var d, a := view.bytes, nCell;
      var ins := CellOffset() + 2 * i;
      var j := CellOffset() + 2 * nCell;
      while j > ins
        modifies aData
        invariant i <= a <= nCell && j == CellOffset() + 2 * a && aData.Length == |d|
        invariant Shifted(d, aData[..], j, CellOffset() + 2 * nCell)
      {
        aData[j], aData[j + 1] := aData[j - 2], aData[j - 1];
        j, a := j - 2, a - 1;
      }
      assert a == i;
      view := view.(bytes := aData[..]);
    }

    // -------------------------------------------------------------------
    // dropCell
    // -------------------------------------------------------------------

    /** Remove the idx-th cell, of sz bytes, from the page. */
    method DropCell(idx: nat, sz: nat)
      requires Valid() && idx < nCell && sz == view.cells[idx].size
      modifies this`nFree, this`nCell, this`view, aData
      ensures Valid() && nCell == old(nCell) - 1 && nFree == old(nFree) + sz + 2
      ensures Contents() == Remove(old(Contents()), idx)
    {
      ghost var v := view;
      assert CellAt(kind, v.bytes, CellOffset(), v.cells, idx);
      var pc := Load2(CellOffset() + 2 * idx);
      FreeSpace(pc, sz, idx);
      RemovePointer(idx, v);
      nCell := nCell - 1;
      nFree := nFree + 2;
    }

    /** The space of the cell has been freed since the page was v. */
    method RemovePointer(idx: nat, ghost v: View)
      requires Fixed() && idx < nCell == |v.cells| && Page(kind, v.bytes, hdrOffset, v.cells, v.blocks, nCell)
      requires Space(view.bytes, hdrOffset, view.cells, view.blocks, |view.blocks|) && view.cells == Remove(v.cells, idx)
      requires Get2(v.bytes, hdrOffset + 5) <= Get2(view.bytes, hdrOffset + 5)
      requires Frame(v.bytes, view.bytes, hdrOffset, CellOffset() + 2 * nCell, view.cells)
      modifies this`view, aData
      ensures Fixed() && view == old(view).(bytes := view.bytes)
      ensures Page(kind, view.bytes, hdrOffset, view.cells, view.blocks, nCell - 1)
      ensures Contents() == Remove(Slices(v.bytes, v.cells), idx)
      ensures FreeBytes(view.bytes, hdrOffset, CellOffset(), nCell - 1, view.blocks)
           == old(FreeBytes(view.bytes, hdrOffset, CellOffset(), nCell, view.blocks)) + 2
    {
      ghost var d, cells, blocks := view.bytes, view.cells, view.blocks;
      PointerGone(idx);
      DropDone(kind, v.bytes, d, view.bytes, hdrOffset, v.cells, v.blocks, idx, blocks);
      ghost var left: nat := nCell - 1;
      assert |cells| == left && cells[..left] == cells;
    }

    /** Take pointer idx out of the array and lower the cell count. */
    method PointerGone(idx: nat)
      requires Fixed() && idx < nCell && CellOffset() + 2 * nCell <= |view.bytes| && nCell < 0x10000
      modifies this`view, aData
      ensures Fixed() && view == old(view).(bytes := view.bytes)
      ensures PointerRemoved(kind, old(view.bytes), view.bytes, hdrOffset, nCell, idx)
    {
      ShiftDown(idx);
      Store2(hdrOffset + 3, nCell - 1);
    }

    /** Move the cell pointers above idx down by one place. */
    method ShiftDown(idx: nat)
      requires Fixed() && idx < nCell && CellOffset() + 2 * nCell <= |view.bytes|
      modifies this`view, aData
      ensures Fixed() && view == old(view).(bytes := view.bytes)
      ensures Unshifted(old(view.bytes), view.bytes, CellOffset() + 2 * idx, CellOffset() + 2 * nCell - 2)
    {
      ghost var d := view.bytes;
      var ptr, i := CellOffset() + 2 * idx, idx + 1;
      while i < nCell
        modifies aData
        invariant idx < i <= nCell && ptr == CellOffset() + 2 * (i - 1) && aData.Length == |d|
        invariant Unshifted(d, aData[..], CellOffset() + 2 * idx, ptr)
      {
        aData[ptr], aData[ptr + 1] := aData[ptr + 2], aData[ptr + 3];
        ptr, i := ptr + 2, i + 1;
      }
      view := view.(bytes := aData[..]);
    }

    // -------------------------------------------------------------------
    // sqlite3BtreeInitPage, zeroPage
    // -------------------------------------------------------------------

    /** Recompute the cell count and the free bytes of a page from its bytes.
        A well-formed page is refused only when it has no cell although its
        parent is not page 1. */
    method InitPage(parentNotPage1: bool) returns (ok: bool, cellCount: nat, free: int)
      requires Valid()
      ensures ok <==> !(nCell == 0 && parentNotPage1)
      ensures ok ==> cellCount == nCell && free == FreeBytes(view.bytes, hdrOffset, CellOffset(), nCell, view.blocks)
    {
      var d := aData[..];
      free := 0;
      var top := Get2(d, hdrOffset + 5);
      cellCount := Get2(d, hdrOffset + 3);
      CellsFit(kind, d, hdrOffset, view.cells, view.blocks, nCell);
      if cellCount > (kind.usableSize - 8) / 6 { return false, cellCount, 0; }
      if cellCount == 0 && parentNotPage1 { return false, cellCount, 0; }
      var pc := Get2(d, hdrOffset + 1);
      free := d[hdrOffset + 7] as int + top - (CellOffset() + 2 * cellCount);
      ghost var j := 0;
      ReadLink(d, hdrOffset, view.blocks, 0);
      while pc > 0
        invariant j <= |view.blocks| && pc == Head(view.blocks, j) && (pc == 0 <==> j == |view.blocks|)
        invariant free == FreeBytes(d, hdrOffset, CellOffset(), nCell, view.blocks[..j])
        decreases |view.blocks| - j
      {
        ReadBlock(d, hdrOffset, view.blocks, j);
        if pc > kind.usableSize - 4 { return false, cellCount, 0; }
        var next := Get2(d, pc);
        var size := Get2(d, pc + 2);
        NextIsFar(d, hdrOffset, view.cells, view.blocks, j);
        if next > 0 && next <= pc + size + 3 { return false, cellCount, 0; }
        TotalPrefix(view.blocks, j);
        free := free + size;
        pc := next;
        j := j + 1;
      }
      assert view.blocks[..j] == view.blocks;
      if free >= kind.usableSize { return false, cellCount, 0; }
      ok := true;
    }

    /** Make the page hold no entries. */
    method ZeroPage(flags: Byte)
      requires kind.Valid() && aData.Length == kind.usableSize && (hdrOffset == 0 || hdrOffset == 100)
      modifies this, aData
      ensures Valid() && Contents() == [] && aOvfl == [] && view.blocks == [] && view.bytes[hdrOffset + 7] == 0
      ensures nFree == kind.usableSize - CellOffset() && view.bytes[hdrOffset] == flags
    {
      view := View(aData[..], [], []);
      StoreZeros(hdrOffset, kind.usableSize);
      Store1(hdrOffset, flags);
      Store2(hdrOffset + 5, kind.usableSize);
      nFree, nCell, aOvfl := kind.usableSize - CellOffset(), 0, [];
      assert Space(view.bytes, hdrOffset, [], [], 0);
    }
  }

  /** Smaller requests are served as requests for four bytes. */
  function Least4(n: nat): nat { if n < 4 then 4 else n }

  lemma UnlinkFacts(d: seq<Byte>, hdr: nat, cells: seq<Region>, blocks: seq<Region>, j: nat)
    requires Space(d, hdr, cells, blocks, |blocks|) && j < |blocks|
    ensures blocks[j].start + 3 < |d| && Link(hdr, blocks, j) + 1 < |d| && Head(blocks, j + 1) < 0x10000
    ensures Get2(d, blocks[j].start) == Head(blocks, j + 1)
    ensures Link(hdr, blocks, j) == hdr + 1 || hdr + 8 <= Link(hdr, blocks, j)
  {
    ReadBlock(d, hdr, blocks, j);
    if 0 < j { ReadBlock(d, hdr, blocks, j - 1); }
    if j + 1 < |blocks| { ReadBlock(d, hdr, blocks, j + 1); }
  }

  lemma UnlinkPage(k: PageKind, d: seq<Byte>, e: seq<Byte>, hdr: nat, cells: seq<Region>, blocks: seq<Region>, nCell: nat, j: nat, n: nat)
    requires Page(k, d, hdr, cells, blocks, nCell) && |cells| == nCell
    requires j < |blocks| && 4 <= n <= blocks[j].size < n + 4 && Link(hdr, blocks, j) + 1 < |d|
    requires KeptBut(d, e, hdr + 7, 1, Link(hdr, blocks, j), 2)
    requires Get2(e, Link(hdr, blocks, j)) == Head(blocks, j + 1)
    requires e[hdr + 7] as int == d[hdr + 7] + (blocks[j].size - n)
    ensures var cs := cells + [Region(blocks[j].start, n)];
      && Page(k, e, hdr, cs, Remove(blocks, j), nCell)
      && Slices(e, cs[..nCell]) == Slices(d, cells)
      && FreeBytes(e, hdr, CellOffsetOf(k, hdr), nCell, Remove(blocks, j)) == FreeBytes(d, hdr, CellOffsetOf(k, hdr), nCell, blocks) - n
  {
    TakeBlock(d, e, hdr, cells, blocks, j, n);
    PageGrown(k, d, e, hdr, cells, blocks, nCell, Region(blocks[j].start, n), Remove(blocks, j));
  }

  /** The tail r of freeblock j became a cell's room, and left is what is left. */
  lemma ShrinkPage(k: PageKind, d: seq<Byte>, e: seq<Byte>, hdr: nat, cells: seq<Region>, blocks: seq<Region>, nCell: nat, j: nat, left: Region, r: Region)
    requires Page(k, d, hdr, cells, blocks, nCell) && |cells| == nCell && j < |blocks|
    requires blocks[j] == Region(left.start, left.size + r.size) && r.start == left.End() && left.size >= 4 && r.size >= 4
    requires hdr + 8 <= left.start && left.start + 3 < |d|
    requires KeptBut(d, e, left.start + 2, 2, left.start + 2, 2) && Get2(e, left.start + 2) == left.size
    ensures Page(k, e, hdr, cells + [r], blocks[j := left], nCell)
    ensures (cells + [r])[..nCell] == cells && Slices(e, cells) == Slices(d, cells) && Get2(e, hdr + 5) == Get2(d, hdr + 5)
    ensures FreeBytes(e, hdr, CellOffsetOf(k, hdr), nCell, blocks[j := left]) == FreeBytes(d, hdr, CellOffsetOf(k, hdr), nCell, blocks) - r.size
  {
    assert left == Region(blocks[j].start, blocks[j].size - r.size) && r == Region(left.End(), r.size);
    TakeTail(d, e, hdr, cells, blocks, j, r.size);
    PageGrown(k, d, e, hdr, cells, blocks, nCell, r, blocks[j := left]);
    assert e[hdr + 7] == d[hdr + 7];
  }

  /** A page whose content area took in region r still has its cells. */
  lemma PageGrown(k: PageKind, d: seq<Byte>, e: seq<Byte>, hdr: nat, cells: seq<Region>, blocks: seq<Region>, nCell: nat, r: Region, bs: seq<Region>)
    requires Page(k, d, hdr, cells, blocks, nCell) && |cells| == nCell
    requires Frame(d, e, hdr, Get2(d, hdr + 5), cells) && Space(e, hdr, cells + [r], bs, |bs|)
    requires CellOffsetOf(k, hdr) + 2 * nCell <= Get2(e, hdr + 5)
    ensures Page(k, e, hdr, cells + [r], bs, nCell)
    ensures (cells + [r])[..nCell] == cells && Slices(e, cells) == Slices(d, cells)
  {
    Get2Same(d, e, hdr + 3);
    forall a: nat | a < nCell ensures CellAt(k, e, CellOffsetOf(k, hdr), cells + [r], a) {
      assert CellAt(k, d, CellOffsetOf(k, hdr), cells, a);
      assert Slice(e, cells[a]) == Slice(d, cells[a]);
      SizeMoved(k, d, cells[a], e, cells[a], 0);
      Get2Same(d, e, CellOffsetOf(k, hdr) + 2 * a);
    }
  }

  /** The a-th cell pointer of the page. */
  function Pointer(k: PageKind, d: seq<Byte>, hdr: nat, a: nat): nat {
    var x := CellOffsetOf(k, hdr) + 2 * a;
    if x + 1 < |d| then Get2(d, x) else 0
  }

  /** Cell a, at C[a] on page d0, has been copied to N[a] above brk on page d. */
  ghost predicate PackedCell(d0: seq<Byte>, d: seq<Byte>, C: seq<Region>, N: seq<Region>, a: nat, brk: nat)
    requires a < |C| && a < |N|
  {
    && Inside(N[a], brk, |d0|) && N[a].size == C[a].size >= 4 && Slice(d, N[a]) == Slice(d0, C[a])
  }

  /** The first i cells C of page d0 have been copied, last byte first, to the
      end of the page d; N are their new places and brk the lowest of them. */
  ghost predicate Packed(k: PageKind, d0: seq<Byte>, d: seq<Byte>, hdr: nat, C: seq<Region>, N: seq<Region>, i: nat, brk: nat)
  {
    && |d| == |d0| && i <= |C| && |N| == i
    && brk == |d0| - Total(C[..i]) && Total(N) == Total(C[..i]) && Apart(N)
    && (forall a: nat | a < i :: PackedCell(d0, d, C, N, a, brk))
    && (forall a: nat | a < |C| :: Pointer(k, d, hdr, a) == if a < i then N[a].start else C[a].start)
    && (forall x | 0 <= x < CellOffsetOf(k, hdr) && x < |d0| :: d[x] == d0[x])
  }

  lemma PackStart(k: PageKind, d: seq<Byte>, hdr: nat, C: seq<Region>, blocks: seq<Region>)
    requires Page(k, d, hdr, C, blocks, |C|)
    ensures Packed(k, d, d, hdr, C, [], 0, |d|)
  {
    forall a: nat | a < |C| ensures Pointer(k, d, hdr, a) == C[a].start {
      assert CellAt(k, d, CellOffsetOf(k, hdr), C, a);
    }
  }

  /** The next cell pointer still holds the cell's old place, and there is room
      for the cell below brk. */
  lemma PackNext(k: PageKind, d0: seq<Byte>, d: seq<Byte>, hdr: nat, C: seq<Region>, blocks: seq<Region>, N: seq<Region>, i: nat, brk: nat)
    requires Page(k, d0, hdr, C, blocks, |C|) && i < |C| && Packed(k, d0, d, hdr, C, N, i, brk)
    ensures Pointer(k, d, hdr, i) == C[i].start
    ensures CellOffsetOf(k, hdr) + 2 * i + 2 + C[i].size <= brk <= |d|
    ensures C[i].End() <= |d0| && CellSize(k, d0[C[i].start..]) == C[i].size
  {
    PackRoom(k, d0, hdr, C, blocks, i);
  }

  lemma PackRoom(k: PageKind, d: seq<Byte>, hdr: nat, C: seq<Region>, blocks: seq<Region>, i: nat)
    requires Page(k, d, hdr, C, blocks, |C|) && i < |C|
    ensures Total(C[..i + 1]) == Total(C[..i]) + C[i].size && C[i].size >= 4
    ensures Get2(d, hdr + 5) <= |d| - Total(C[..i + 1])
    ensures CellOffsetOf(k, hdr) + 2 * |C| <= Get2(d, hdr + 5) && C[i].End() <= |d|
    ensures CellSize(k, d[C[i].start..]) == C[i].size
  {
    assert CellAt(k, d, CellOffsetOf(k, hdr), C, i);
    assert C[..i + 1] == C[..i] + [C[i]];
    TotalConcat(C[..i], [C[i]]);
    TotalOne(C[i]);
    TotalSplit(C, i + 1);
  }

  /** A store of src at r and of v at p leaves everything else as it was. */
  ghost predicate Copied(d: seq<Byte>, e: seq<Byte>, src: seq<Byte>, r: Region, p: nat)
  {
    && |e| == |d| && r.End() <= |d| && p + 2 <= r.start && |src| == r.size
    && Slice(e, r) == src && Get2(e, p) == r.start
    && (forall x | 0 <= x < |d| && x != p && x != p + 1 && !(r.start <= x < r.End()) :: e[x] == d[x])
  }

  lemma CopiedByStores(d: seq<Byte>, e: seq<Byte>, f: seq<Byte>, src: seq<Byte>, r: Region, p: nat)
    requires r.End() <= |d| <= 0x8000 && p + 2 <= r.start && |src| == r.size
    requires e == d[..r.start] + src + d[r.End()..]
    requires KeptBut(e, f, p, 2, p, 2) && Get2(f, p) == r.start
    ensures Copied(d, f, src, r, p)
  {
    assert Slice(e, r) == src;
    assert Slice(f, r) == Slice(e, r);
  }

  lemma SliceSame(d: seq<Byte>, e: seq<Byte>, r: Region)
    requires |d| == |e| && forall x | r.start <= x < r.End() && x < |d| :: e[x] == d[x]
    ensures Slice(e, r) == Slice(d, r)
  {
  }

  lemma PackOne(k: PageKind, d0: seq<Byte>, d: seq<Byte>, e: seq<Byte>, hdr: nat, C: seq<Region>, blocks: seq<Region>, N: seq<Region>, i: nat, brk0: nat, brk: nat)
    requires Page(k, d0, hdr, C, blocks, |C|) && i < |C|
    requires Packed(k, d0, d, hdr, C, N, i, brk0) && brk0 == brk + C[i].size
    requires Copied(d, e, Slice(d0, C[i]), Region(brk, C[i].size), CellOffsetOf(k, hdr) + 2 * i)
    ensures Packed(k, d0, e, hdr, C, N + [Region(brk, C[i].size)], i + 1, brk)
  {
    var r, N' := Region(brk, C[i].size), N + [Region(brk, C[i].size)];
    PackRoom(k, d0, hdr, C, blocks, i);
    TotalConcat(N, [r]);
    TotalOne(r);
    forall a: nat | a < i + 1 ensures PackedCell(d0, e, C, N', a, brk) {
      if a < i {
        assert PackedCell(d0, d, C, N, a, brk0);
        SliceSame(d, e, N[a]);
      }
    }
    forall a | 0 <= a < i ensures Disjoint(N[a], r) {
      assert PackedCell(d0, d, C, N, a, brk0);
    }
    ApartConcat(N, [r]);
    PackPointers(k, d, e, hdr, C, N, i, r);
  }

  lemma PackPointers(k: PageKind, d: seq<Byte>, e: seq<Byte>, hdr: nat, C: seq<Region>, N: seq<Region>, i: nat, r: Region)
    requires |N| == i < |C| && CellOffsetOf(k, hdr) + 2 * |C| <= r.start
    requires Copied(d, e, Slice(e, r), r, CellOffsetOf(k, hdr) + 2 * i)
    requires forall a: nat | a < |C| :: Pointer(k, d, hdr, a) == if a < i then N[a].start else C[a].start
    ensures forall a: nat | a < |C| :: Pointer(k, e, hdr, a) == if a < i + 1 then (N + [r])[a].start else C[a].start
  {
    forall a: nat | a < |C| ensures Pointer(k, e, hdr, a) == if a < i + 1 then (N + [r])[a].start else C[a].start {
      if a != i {
        assert Pointer(k, d, hdr, a) == if a < i then N[a].start else C[a].start;
        Get2Same(d, e, CellOffsetOf(k, hdr) + 2 * a);
      }
    }
  }

  /** From d to e the header was set to say: no freeblock, no fragment, and the
      gap is [addr, brk). */
  ghost predicate GapSet(d: seq<Byte>, e: seq<Byte>, hdr: nat, addr: nat, brk: nat) {
    && |e| == |d| && hdr + 7 < |e|
    && Get2(e, hdr + 1) == 0 && Get2(e, hdr + 5) == brk && e[hdr + 7] == 0
    && forall x | 0 <= x < |d| && (x <= hdr || x == hdr + 3 || x == hdr + 4 || hdr + 8 <= x < addr || brk <= x) :: e[x] == d[x]
  }

  lemma PackEnd(k: PageKind, d: seq<Byte>, hdr: nat, C: seq<Region>, blocks: seq<Region>)
    requires Page(k, d, hdr, C, blocks, |C|)
    ensures CellOffsetOf(k, hdr) + 2 * |C| <= Get2(d, hdr + 5) <= |d| - Total(C[..|C|])
    ensures C[..|C|] == C
  {
    assert C[..|C|] == C;
  }

  /** All cells are packed: one gap, no freeblock, no fragment. */
  lemma PackDone(k: PageKind, d0: seq<Byte>, d: seq<Byte>, e: seq<Byte>, hdr: nat, C: seq<Region>, blocks: seq<Region>, N: seq<Region>, brk: nat)
    requires Page(k, d0, hdr, C, blocks, |C|)
    requires Packed(k, d0, d, hdr, C, N, |C|, brk)
    requires GapSet(d, e, hdr, CellOffsetOf(k, hdr) + 2 * |C|, brk)
    ensures Page(k, e, hdr, N, [], |C|) && Slices(e, N) == Slices(d0, C)
    ensures brk == k.usableSize - Total(N) && Total(N) == Total(C)
    ensures FreeBytes(e, hdr, CellOffsetOf(k, hdr), |C|, []) == FreeBytes(d0, hdr, CellOffsetOf(k, hdr), |C|, blocks)
  {
    PackDoneSpace(k, d0, d, e, hdr, C, blocks, N, brk);
    Get2Same(d0, e, hdr + 3);
    assert Slices(e, N) == Slices(d0, C) by {
      forall a: nat | a < |N| ensures Slice(e, N[a]) == Slice(d0, C[a]) { PackedSame(k, d0, d, e, hdr, C, N, brk, a); }
    }
    forall a: nat | a < |C| ensures CellAt(k, e, CellOffsetOf(k, hdr), N, a) {
      PackedSame(k, d0, d, e, hdr, C, N, brk, a);
      PackedAt(k, d0, d, e, hdr, C, blocks, N, brk, a);
    }
  }

  /** A packed cell has its bytes, also once the gap is set. */
  lemma PackedSame(k: PageKind, d0: seq<Byte>, d: seq<Byte>, e: seq<Byte>, hdr: nat, C: seq<Region>, N: seq<Region>, brk: nat, a: nat)
    requires Packed(k, d0, d, hdr, C, N, |C|, brk) && GapSet(d, e, hdr, CellOffsetOf(k, hdr) + 2 * |C|, brk) && a < |C|
    ensures Slice(e, N[a]) == Slice(d0, C[a]) && Inside(N[a], brk, |d0|) && N[a].size == C[a].size
  {
    assert PackedCell(d0, d, C, N, a, brk);
    SliceSame(d, e, N[a]);
  }

  lemma PackedAt(k: PageKind, d0: seq<Byte>, d: seq<Byte>, e: seq<Byte>, hdr: nat, C: seq<Region>, blocks: seq<Region>, N: seq<Region>, brk: nat, a: nat)
    requires Page(k, d0, hdr, C, blocks, |C|)
    requires Packed(k, d0, d, hdr, C, N, |C|, brk) && GapSet(d, e, hdr, CellOffsetOf(k, hdr) + 2 * |C|, brk) && a < |C|
    requires Slice(e, N[a]) == Slice(d0, C[a]) && Inside(N[a], brk, |d0|) && N[a].size == C[a].size
    ensures CellAt(k, e, CellOffsetOf(k, hdr), N, a)
  {
    var off := CellOffsetOf(k, hdr);
    assert CellAt(k, d0, off, C, a);
    assert Pointer(k, d, hdr, a) == N[a].start;
    SizeMoved(k, d0, C[a], e, N[a], 0);
    Get2Same(d, e, off + 2 * a);
  }

  lemma PackDoneSpace(k: PageKind, d0: seq<Byte>, d: seq<Byte>, e: seq<Byte>, hdr: nat, C: seq<Region>, blocks: seq<Region>, N: seq<Region>, brk: nat)
    requires Page(k, d0, hdr, C, blocks, |C|)
    requires Packed(k, d0, d, hdr, C, N, |C|, brk)
    requires GapSet(d, e, hdr, CellOffsetOf(k, hdr) + 2 * |C|, brk)
    ensures Space(e, hdr, N, [], 0) && Get2(d0, hdr + 5) <= brk
    ensures brk == k.usableSize - Total(N) && Total(N) == Total(C)
  {
    assert C[..|C|] == C;
    TotalSplit(C, |C|);
    forall a: nat | a < |N| ensures Inside(N[a], brk, |d0|) && N[a].size >= 4 {
      assert PackedCell(d0, d, C, N, a, brk);
    }
  }

  // ---------------------------------------------------------------------
  // insertCell and dropCell on the bytes of the page
  // ---------------------------------------------------------------------

  /** The bytes [lo, hi) of d are found two places further up in e. */
  ghost predicate Shifted(d: seq<Byte>, e: seq<Byte>, lo: nat, hi: nat) {
    && |e| == |d| && lo <= hi && hi + 2 <= |d|
    && (forall x | 0 <= x < |d| && !(lo + 2 <= x < hi + 2) :: e[x] == d[x])
    && (forall x | lo + 2 <= x < hi + 2 :: e[x] == d[x - 2])
  }

  /** From d to e: a cell pointer to r was put in front of pointer i. */
  ghost predicate PointerPut(k: PageKind, d: seq<Byte>, e: seq<Byte>, hdr: nat, r: Region, nCell: nat, i: nat) {
    && |e| == |d| && CellOffsetOf(k, hdr) + 2 * nCell + 2 <= r.start && r.End() <= |d|
    && (forall a: nat | a <= nCell :: Pointer(k, e, hdr, a) == if a == i then r.start else Pointer(k, d, hdr, if a < i then a else a - 1))
  }

  /** From d to e: a cell pointer to r was put in front of pointer i, the cell
      count went up by one, and r's bytes from skip on are those of body. */
  ghost predicate CellWritten(k: PageKind, d: seq<Byte>, e: seq<Byte>, hdr: nat, r: Region, nCell: nat, i: nat, body: seq<Byte>, skip: nat) {
    var off := CellOffsetOf(k, hdr);
    && PointerPut(k, d, e, hdr, r, nCell, i) && r.size == skip + |body|
    && Get2(e, hdr + 3) == nCell + 1
    && (forall x | hdr <= x < hdr + 8 && x != hdr + 3 && x != hdr + 4 :: e[x] == d[x])
    && (forall x | off + 2 * nCell + 2 <= x < |d| && !(r.start <= x < r.End()) :: e[x] == d[x])
    && Slice(e, r)[skip..] == body
  }

  lemma LastInside(d: seq<Byte>, hdr: nat, cells: seq<Region>, blocks: seq<Region>)
    requires Space(d, hdr, cells, blocks, |blocks|) && cells != []
    ensures Inside(cells[|cells| - 1], Get2(d, hdr + 5), |d|)
  {
  }

  lemma InsertDone(k: PageKind, d: seq<Byte>, e: seq<Byte>, hdr: nat, cells: seq<Region>, r: Region, blocks: seq<Region>, nCell: nat, i: nat, pCell: seq<Byte>, skip: nat)
    requires Page(k, d, hdr, cells + [r], blocks, nCell) && |cells| == nCell && i <= nCell
    requires CellOffsetOf(k, hdr) + 2 * nCell + 2 <= Get2(d, hdr + 5)
    requires skip <= k.ChildPtrSize() && skip <= r.size == CellSize(k, pCell) <= |pCell|
    requires CellWritten(k, d, e, hdr, r, nCell, i, pCell[skip..r.size], skip)
    ensures Page(k, e, hdr, Insert(cells, i, r), blocks, nCell + 1)
    ensures Slices(e, Insert(cells, i, r)) == Insert(Slices(d, cells), i, Slice(e, r))
    ensures Slices(e, Insert(cells, i, r))[i] == Slice(e, r) && |Slice(e, r)| == r.size
    ensures Slice(e, r)[skip..] == pCell[skip..r.size]
    ensures FreeBytes(e, hdr, CellOffsetOf(k, hdr), nCell + 1, blocks) == FreeBytes(d, hdr, CellOffsetOf(k, hdr), nCell, blocks) - 2
  {
    InsertKeeps(d, e, hdr, Get2(d, hdr + 5), cells, r, blocks);
    SpaceStable(d, e, hdr, cells + [r], blocks);
    SpaceReorder(e, hdr, cells, blocks, i, r);
    NewCellSize(k, e, r, pCell, skip);
    InsertPointers(k, d, e, hdr, cells, r, nCell, i);
    InsertedSlices(d, e, cells, i, r);
  }

  lemma InsertPointers(k: PageKind, d: seq<Byte>, e: seq<Byte>, hdr: nat, cells: seq<Region>, r: Region, nCell: nat, i: nat)
    requires k.Valid() && |cells| == nCell && i <= nCell
    requires forall a: nat | a < nCell :: CellAt(k, d, CellOffsetOf(k, hdr), cells + [r], a)
    requires PointerPut(k, d, e, hdr, r, nCell, i)
    requires forall a | 0 <= a < |cells| :: Slice(e, cells[a]) == Slice(d, cells[a])
    requires CellSize(k, e[r.start..]) == r.size
    ensures forall a: nat | a < nCell + 1 :: CellAt(k, e, CellOffsetOf(k, hdr), Insert(cells, i, r), a)
  {
    forall a: nat | a < nCell + 1 ensures CellAt(k, e, CellOffsetOf(k, hdr), Insert(cells, i, r), a) {
      WrittenPointer(k, d, e, hdr, r, nCell, i, a);
      if a == i {
        InsertAt(cells, i, r, i);
      } else {
        var a': nat := if a < i then a else a - 1;
        assert CellAt(k, d, CellOffsetOf(k, hdr), cells + [r], a') && Slice(e, cells[a']) == Slice(d, cells[a']);
        InsertedCell(k, d, e, CellOffsetOf(k, hdr), cells, r, i, a, a');
      }
    }
  }

  /** The cells around the new one are what they were. */
  lemma InsertedCell(k: PageKind, d: seq<Byte>, e: seq<Byte>, off: nat, cells: seq<Region>, r: Region, i: nat, a: nat, a': nat)
    requires k.Valid() && |e| == |d| && i <= |cells| && a <= |cells| && a != i && a' == if a < i then a else a - 1
    requires CellAt(k, d, off, cells + [r], a') && Slice(e, cells[a']) == Slice(d, cells[a'])
    requires off + 2 * a + 1 < |e| && Get2(e, off + 2 * a) == Get2(d, off + 2 * a')
    ensures CellAt(k, e, off, Insert(cells, i, r), a)
  {
    InsertAt(cells, i, r, a);
    CellCarried(k, d, e, off, cells + [r], a', Insert(cells, i, r), a);
  }

  /** Where cell pointer a leads after a cell was written in front of pointer i. */
  lemma WrittenPointer(k: PageKind, d: seq<Byte>, e: seq<Byte>, hdr: nat, r: Region, nCell: nat, i: nat, a: nat)
    requires PointerPut(k, d, e, hdr, r, nCell, i) && a <= nCell
    ensures var off := CellOffsetOf(k, hdr);
      && |e| == |d| && off + 2 * a + 1 < |e| && r.End() <= |e|
      && Get2(e, off + 2 * a) == if a == i then r.start else Get2(d, off + 2 * (if a < i then a else a - 1))
  {
    assert Pointer(k, e, hdr, a) == if a == i then r.start else Pointer(k, d, hdr, if a < i then a else a - 1);
  }

  /** The a'-th cell of page d is the a-th cell of page e, with the same bytes. */
  lemma CellCarried(k: PageKind, d: seq<Byte>, e: seq<Byte>, off: nat, C: seq<Region>, a': nat, N: seq<Region>, a: nat)
    requires k.Valid() && |e| == |d| && a' < |C| && a < |N| && N[a] == C[a'] && CellAt(k, d, off, C, a')
    requires Slice(e, C[a']) == Slice(d, C[a'])
    requires off + 2 * a + 1 < |e| && Get2(e, off + 2 * a) == Get2(d, off + 2 * a')
    ensures CellAt(k, e, off, N, a)
  {
    SizeMoved(k, d, C[a'], e, N[a], 0);
  }

  lemma InsertedSlices(d: seq<Byte>, e: seq<Byte>, cells: seq<Region>, i: nat, r: Region)
    requires i <= |cells| && forall a | 0 <= a < |cells| :: Slice(e, cells[a]) == Slice(d, cells[a])
    ensures Slices(e, Insert(cells, i, r)) == Insert(Slices(d, cells), i, Slice(e, r))
  {
    var N, S, was := Insert(cells, i, r), Slices(e, Insert(cells, i, r)), Slices(d, cells);
    forall a: nat | a < |N| ensures S[a] == Insert(was, i, Slice(e, r))[a] {
      InsertAt(cells, i, r, a);
      InsertAt(was, i, Slice(e, r), a);
    }
  }

  lemma NewCellSize(k: PageKind, e: seq<Byte>, r: Region, pCell: seq<Byte>, skip: nat)
    requires k.Valid() && skip <= k.ChildPtrSize() && CellSize(k, pCell) == r.size <= |pCell| && r.End() <= |e|
    requires Slice(e, r)[skip..] == pCell[skip..r.size]
    ensures CellSize(k, e[r.start..]) == r.size
  {
    forall j | skip <= j < r.size ensures Slice(pCell, Region(0, r.size))[j] == Slice(e, r)[j] {
      assert Slice(e, r)[skip..][j - skip] == pCell[skip..r.size][j - skip];
    }
    assert pCell[0..] == pCell;
    SizeMoved(k, pCell, Region(0, r.size), e, r, skip);
  }

  /** Writing r and the bytes below top keeps every other cell and freeblock. */
  lemma InsertKeeps(d: seq<Byte>, e: seq<Byte>, hdr: nat, top: nat, cells: seq<Region>, r: Region, blocks: seq<Region>)
    requires |e| == |d| && hdr + 8 <= top <= |d| && Regions(top, |d|, cells + [r], blocks, |blocks|)
    requires forall x | hdr <= x < hdr + 8 && x != hdr + 3 && x != hdr + 4 :: e[x] == d[x]
    requires forall x | top <= x < |d| && !(r.start <= x < r.End()) :: e[x] == d[x]
    ensures SameSpace(d, e, hdr, blocks)
    ensures forall a | 0 <= a < |cells| :: Slice(e, cells[a]) == Slice(d, cells[a])
  {
    var C := cells + [r];
    forall a | 0 <= a < |cells| ensures Slice(e, cells[a]) == Slice(d, cells[a]) {
      assert C[a] == cells[a] && C[|cells|] == r;
      assert Disjoint(C[a], C[|cells|]) && Inside(C[a], top, |d|);
      SliceSame(d, e, cells[a]);
    }
    forall b | 0 <= b < |blocks| ensures Slice(e, blocks[b]) == Slice(d, blocks[b]) {
      assert Disjoint(C[|cells|], blocks[b]) && Inside(blocks[b], top, |d|);
      SliceSame(d, e, blocks[b]);
    }
  }

  lemma PointerByStores(k: PageKind, d: seq<Byte>, e: seq<Byte>, f: seq<Byte>, g: seq<Byte>, h: seq<Byte>, hdr: nat, idx: nat, nCell: nat, i: nat, body: seq<Byte>, skip: nat, a: nat)
    requires a <= nCell && i <= nCell && CellOffsetOf(k, hdr) + 2 * nCell + 2 <= idx && idx + skip + |body| <= |d|
    requires e == d[..idx + skip] + body + d[idx + skip + |body|..]
    requires Shifted(e, f, CellOffsetOf(k, hdr) + 2 * i, CellOffsetOf(k, hdr) + 2 * nCell)
    requires var p := CellOffsetOf(k, hdr) + 2 * i; KeptBut(f, g, p, 2, p, 2) && Get2(g, p) == idx
    requires KeptBut(g, h, hdr + 3, 2, hdr + 3, 2)
    ensures Pointer(k, h, hdr, a) == if a == i then idx else Pointer(k, d, hdr, if a < i then a else a - 1)
  {
    var x := CellOffsetOf(k, hdr) + 2 * a;
    assert h[x] == g[x] && h[x + 1] == g[x + 1];
    if a < i { assert g[x] == d[x] && g[x + 1] == d[x + 1]; }
    if a > i { assert g[x] == e[x - 2] == d[x - 2] && g[x + 1] == e[x - 1] == d[x - 1]; }
  }

  lemma WrittenByStores(k: PageKind, d: seq<Byte>, e: seq<Byte>, f: seq<Byte>, g: seq<Byte>, h: seq<Byte>, hdr: nat, idx: nat, nCell: nat, i: nat, body: seq<Byte>, skip: nat)
    requires i <= nCell && CellOffsetOf(k, hdr) + 2 * nCell + 2 <= idx && idx + skip + |body| <= |d|
    requires e == d[..idx + skip] + body + d[idx + skip + |body|..]
    requires Shifted(e, f, CellOffsetOf(k, hdr) + 2 * i, CellOffsetOf(k, hdr) + 2 * nCell)
    requires var p := CellOffsetOf(k, hdr) + 2 * i; KeptBut(f, g, p, 2, p, 2) && Get2(g, p) == idx
    requires KeptBut(g, h, hdr + 3, 2, hdr + 3, 2) && Get2(h, hdr + 3) == nCell + 1
    ensures CellWritten(k, d, h, hdr, Region(idx, skip + |body|), nCell, i, body, skip)
  {
    var r, off := Region(idx, skip + |body|), CellOffsetOf(k, hdr);
    forall a: nat | a <= nCell
      ensures Pointer(k, h, hdr, a) == if a == i then idx else Pointer(k, d, hdr, if a < i then a else a - 1)
    {
      PointerByStores(k, d, e, f, g, h, hdr, idx, nCell, i, body, skip, a);
    }
    assert Slice(e, r)[skip..] == body;
    assert Slice(h, r) == Slice(e, r);
  }

  /** The bytes [lo + 2, hi + 2) of d are found two places further down in e. */
  ghost predicate Unshifted(d: seq<Byte>, e: seq<Byte>, lo: nat, hi: nat) {
    && |e| == |d| && lo <= hi && hi + 2 <= |d|
    && (forall x | 0 <= x < |d| && !(lo <= x < hi) :: e[x] == d[x])
    && (forall x | lo <= x < hi :: e[x] == d[x + 2])
  }

  /** From d to f: pointer idx is gone from the array and the count is one less. */
  ghost predicate PointerRemoved(k: PageKind, d: seq<Byte>, f: seq<Byte>, hdr: nat, nCell: nat, idx: nat) {
    var lo, hi := CellOffsetOf(k, hdr) + 2 * idx, CellOffsetOf(k, hdr) + 2 * nCell - 2;
    && |f| == |d| && idx < nCell && hi + 2 <= |d| && Get2(f, hdr + 3) == nCell - 1
    && (forall x | 0 <= x < |d| && x != hdr + 3 && x != hdr + 4 && !(lo <= x < hi) :: f[x] == d[x])
    && (forall x | lo <= x < hi :: f[x] == d[x + 2])
  }

  /** freeSpace took page d0 to d; then cell pointer idx was removed (f). */
  lemma DropDone(k: PageKind, d0: seq<Byte>, d: seq<Byte>, f: seq<Byte>, hdr: nat, cells: seq<Region>, blocks0: seq<Region>, idx: nat, blocks: seq<Region>)
    requires Page(k, d0, hdr, cells, blocks0, |cells|) && idx < |cells|
    requires Space(d, hdr, Remove(cells, idx), blocks, |blocks|) && Get2(d0, hdr + 5) <= Get2(d, hdr + 5)
    requires Frame(d0, d, hdr, CellOffsetOf(k, hdr) + 2 * |cells|, Remove(cells, idx))
    requires PointerRemoved(k, d, f, hdr, |cells|, idx)
    ensures Page(k, f, hdr, Remove(cells, idx), blocks, |cells| - 1)
    ensures Slices(f, Remove(cells, idx)) == Remove(Slices(d0, cells), idx)
    ensures FreeBytes(f, hdr, CellOffsetOf(k, hdr), |cells| - 1, blocks) == FreeBytes(d, hdr, CellOffsetOf(k, hdr), |cells|, blocks) + 2
  {
    var rest, off := Remove(cells, idx), CellOffsetOf(k, hdr);
    DropKeeps(d, f, hdr, rest, blocks, off + 2 * |cells|);
    SpaceStable(d, f, hdr, rest, blocks);
    DropPointers(k, d0, d, f, hdr, cells, idx);
    var S, was := Slices(f, rest), Slices(d0, cells);
    forall a: nat | a < |rest| ensures S[a] == Remove(was, idx)[a] {
      RemoveAt(cells, idx, a);
      RemoveAt(was, idx, a);
      assert Slice(f, rest[a]) == Slice(d, rest[a]) == Slice(d0, rest[a]);
    }
  }

  lemma DropKeeps(d: seq<Byte>, f: seq<Byte>, hdr: nat, cells: seq<Region>, blocks: seq<Region>, end: nat)
    requires Space(d, hdr, cells, blocks, |blocks|) && |f| == |d| && hdr + 8 <= end <= Get2(d, hdr + 5)
    requires forall x | 0 <= x < |d| && x != hdr + 3 && x != hdr + 4 && !(hdr + 8 <= x < end) :: f[x] == d[x]
    ensures SameSpace(d, f, hdr, blocks)
    ensures forall a | 0 <= a < |cells| :: Slice(f, cells[a]) == Slice(d, cells[a])
  {
    forall a | 0 <= a < |cells| ensures Slice(f, cells[a]) == Slice(d, cells[a]) {
      assert Inside(cells[a], Get2(d, hdr + 5), |d|);
      SliceSame(d, f, cells[a]);
    }
    forall b | 0 <= b < |blocks| ensures Slice(f, blocks[b]) == Slice(d, blocks[b]) {
      assert Inside(blocks[b], Get2(d, hdr + 5), |d|);
      SliceSame(d, f, blocks[b]);
    }
  }

  lemma DropPointers(k: PageKind, d0: seq<Byte>, d: seq<Byte>, f: seq<Byte>, hdr: nat, cells: seq<Region>, idx: nat)
    requires k.Valid() && idx < |cells| && |d0| == |d|
    requires forall i: nat | i < |cells| :: CellAt(k, d0, CellOffsetOf(k, hdr), cells, i)
    requires Frame(d0, d, hdr, CellOffsetOf(k, hdr) + 2 * |cells|, Remove(cells, idx))
    requires PointerRemoved(k, d, f, hdr, |cells|, idx)
    requires forall a | 0 <= a < |cells| - 1 :: Slice(f, Remove(cells, idx)[a]) == Slice(d, Remove(cells, idx)[a])
    ensures forall a: nat | a < |cells| - 1 :: CellAt(k, f, CellOffsetOf(k, hdr), Remove(cells, idx), a)
  {
    var rest, off := Remove(cells, idx), CellOffsetOf(k, hdr);
    forall a: nat | a < |rest| ensures CellAt(k, f, off, rest, a) {
      RemoveAt(cells, idx, a);
      var a' := if a < idx then a else a + 1;
      var x, y := off + 2 * a, off + 2 * a';
      assert CellAt(k, d0, off, cells, a');
      assert f[x] == d[y] == d0[y] && f[x + 1] == d[y + 1] == d0[y + 1];
      assert Slice(f, rest[a]) == Slice(d, rest[a]) == Slice(d0, rest[a]);
      CellCarried(k, d0, f, off, cells, a', rest, a);
    }
  }

  // ---------------------------------------------------------------------
  // Recomputing the free space
  // ---------------------------------------------------------------------

  lemma {:induction false} TotalAtLeast(rs: seq<Region>)
    requires forall i | 0 <= i < |rs| :: rs[i].size >= 4
    ensures Total(rs) >= 4 * |rs|
  {
    if rs != [] { TotalAtLeast(rs[1..]); }
  }

  /** A page has at most (usableSize - 8) / 6 cells, and its free bytes never
      reach its size. */
  lemma CellsFit(k: PageKind, d: seq<Byte>, hdr: nat, cells: seq<Region>, blocks: seq<Region>, nCell: nat)
    requires Page(k, d, hdr, cells, blocks, nCell) && nCell == |cells|
    ensures nCell <= (k.usableSize - 8) / 6
    ensures FreeBytes(d, hdr, CellOffsetOf(k, hdr), nCell, blocks) < k.usableSize
  {
    TotalAtLeast(cells);
  }

  lemma NextIsFar(d: seq<Byte>, hdr: nat, cells: seq<Region>, blocks: seq<Region>, j: nat)
    requires Space(d, hdr, cells, blocks, |blocks|) && j < |blocks|
    ensures j + 1 < |blocks| ==> blocks[j].End() + 3 < blocks[j + 1].start
  {
    if j + 1 < |blocks| { assert Spaced(blocks, |blocks|, j, j + 1); }
  }

  lemma TotalPrefix(rs: seq<Region>, j: nat)
    requires j < |rs|
    ensures Total(rs[..j + 1]) == Total(rs[..j]) + rs[j].size
  {
    assert rs[..j + 1] == rs[..j] + [rs[j]];
    TotalConcat(rs[..j], [rs[j]]);
    TotalOne(rs[j]);
  }
}
