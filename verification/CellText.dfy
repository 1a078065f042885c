/** The text of a cell: what fillInCell writes is what sqlite3BtreeParseCellPtr reads
    (btree.c:546-613, 4345-4469). */
module CellTexts {
  import opened CellFormat
  import opened Division
  import opened Varints
  import opened FillCell
  import opened Payload

  /** put4byte. */
  function Put4(v: nat): (p: seq<Byte>)
    requires v < CellFormat.U32
    ensures |p| == 4
  {
    var a := v / 256;
    var b := a / 256;
    [b / 256, b % 256, a % 256, v % 256]
  }

  /** get4byte. */
  function Get4(d: seq<Byte>, a: nat): (v: nat)
    requires a + 4 <= |d|
    ensures v < CellFormat.U32
  {
    ((d[a] as int * 256 + d[a + 1]) * 256 + d[a + 2]) * 256 + d[a + 3]
  }

  lemma Get4Put4(v: nat, d: seq<Byte>, a: nat)
    requires v < CellFormat.U32 && a + 4 <= |d| && d[a..a + 4] == Put4(v)
    ensures Get4(d, a) == v
  {
    var p := Put4(v);
    assert d[a] == d[a..a + 4][0] && d[a + 1] == d[a..a + 4][1] && d[a + 2] == d[a..a + 4][2] && d[a + 3] == d[a..a + 4][3];
  }

  // ---------------------------------------------------------------------
  // The header
  // ---------------------------------------------------------------------

  /** The page's flags and the content are of one kind, and the sizes are those of 32-bit
      integers; the key of a table is any 64-bit number, that of an index its length. */
  predicate Suits(k: PageKind, x: Content, nKey: nat) {
    && k.Valid() && x.intKey == k.intKey && x.hasData == k.hasData && |x.Data()| + x.Zeros() + |x.Key()| < CellFormat.U32
    && if x.intKey then nKey < U64 else nKey == |x.key|
  }

  function DataSize(x: Content): nat {
    |x.Data()| + x.Zeros()
  }

  /** A header: a child pointer except on leaves, the size of the data where there is
      any, and the key or its size. */
  ghost predicate Header(k: PageKind, x: Content, nKey: nat, ptr: seq<Byte>, data: seq<Byte>, key: seq<Byte>) {
    && |ptr| == k.ChildPtrSize() && (if k.hasData then Written(DataSize(x), data) else data == []) && Written(nKey, key)
  }

  lemma HoldsAt(pre: seq<Byte>, p: seq<Byte>, post: seq<Byte>)
    ensures Varints.Holds(pre + p + post, |pre|, p)
  {
  }

  /** The fields are read where they were written. */
  lemma FieldsRead(k: PageKind, x: Content, nKey: nat, ptr: seq<Byte>, data: seq<Byte>, key: seq<Byte>, more: seq<Byte>)
    requires Suits(k, x, nKey) && Header(k, x, nKey, ptr, data, key)
    ensures var d := ptr + data + key + more;
      DataField(k, d) == Varint(if k.hasData then DataSize(x) else 0, |data|) && KeyField(k, d) == Varint(nKey, |key|)
  {
    var d := ptr + data + key + more;
    if k.hasData {
      HoldsAt(ptr, data, key + more);
      assert ptr + data + (key + more) == d;
      ReadWritten(DataSize(x), data, d, |ptr|);
    }
    HoldsAt(ptr + data, key, more);
    ReadWritten(nKey, key, d, |ptr + data|);
  }

  /** What a header with these fields says. */
  ghost predicate Says(k: PageKind, x: Content, nKey: nat, nHeader: nat, info: CellInfo)
    requires k.Valid()
  {
    && info.nKey == nKey && info.nData == DataSize(x) && info.nPayload == x.Size() && info.nHeader == nHeader
    && info.nLocal == LocalSize(k, x.Size()) && info.nLocal <= info.nPayload
    && if info.nLocal == info.nPayload then info.iOverflow == 0 && info.nSize == (if nHeader + info.nLocal < 4 then 4 else nHeader + info.nLocal)
       else info.iOverflow == nHeader + info.nLocal && info.nSize == info.iOverflow + 4
  }

  lemma FieldsSay(k: PageKind, x: Content, nKey: nat, data: CellFormat.Varint, key: CellFormat.Varint)
    requires Suits(k, x, nKey) && data.len <= 9 && 1 <= key.len <= 9
    requires data.value == (if k.hasData then DataSize(x) else 0) && key.value == nKey
    ensures Says(k, x, nKey, k.ChildPtrSize() + data.len + key.len, InfoFrom(k, data, key))
  {
    assert !k.hasData ==> DataSize(x) == 0;
    assert k.minLocal <= k.maxLocal;
  }

  lemma HeaderParses(k: PageKind, x: Content, nKey: nat, ptr: seq<Byte>, data: seq<Byte>, key: seq<Byte>, more: seq<Byte>)
    requires Suits(k, x, nKey) && Header(k, x, nKey, ptr, data, key)
    ensures Says(k, x, nKey, |ptr + data + key|, ParseCell(k, ptr + data + key + more))
  {
    var d := ptr + data + key + more;
    FieldsRead(k, x, nKey, ptr, data, key, more);
    FieldsSay(k, x, nKey, DataField(k, d), KeyField(k, d));
  }

  // ---------------------------------------------------------------------
  // The whole text
  // ---------------------------------------------------------------------

  /** What follows the header: the local part of the payload, and the number of the first
      overflow page if there is one. */
  function Body(c: Cell): seq<Byte>
    requires c.first < CellFormat.U32
  {
    c.local + if |c.local| < c.nPayload then Put4(c.first) else []
  }

  /** The cell that a text stands for. */
  function CellOf(k: PageKind, d: seq<Byte>): Cell
    requires k.Valid()
  {
    var info := ParseCell(k, d);
    var end := info.nHeader + info.nLocal;
    Cell(info.nPayload, if end <= |d| then d[info.nHeader..end] else [],
         if info.iOverflow != 0 && info.iOverflow + 4 <= |d| then Get4(d, info.iOverflow) else 0)
  }

  /** A text is read as what it was made of, whatever follows it: key, sizes and payload
      are those of the content, the number of the overflow page stands where iOverflow
      says, and the size is all of the text, but at least 4. */
  ghost predicate ReadAs(k: PageKind, x: Content, nKey: nat, text: seq<Byte>, more: seq<Byte>, c: Cell)
    requires k.Valid()
  {
    var d := text + more;
    var info := ParseCell(k, d);
    && info.nKey == nKey && info.nData == DataSize(x) && info.nPayload == x.Size() && info.nLocal == |c.local|
    && info.nSize == (if |text| < 4 then 4 else |text|)
    && (info.iOverflow == 0 <==> c.nPayload == |c.local|) && (info.iOverflow != 0 ==> info.iOverflow + 4 == |text|)
    && CellOf(k, d) == c
  }

  lemma SliceAt(pre: seq<Byte>, p: seq<Byte>, post: seq<Byte>, d: seq<Byte>, e: nat)
    requires d == pre + (p + post) && e == |pre| + |p|
    ensures e <= |d| && d[|pre|..e] == p
  {
  }

  lemma BodyRead(d: seq<Byte>, h: seq<Byte>, c: Cell, more: seq<Byte>)
    requires c.first < CellFormat.U32 && d == h + (Body(c) + more) && |c.local| <= c.nPayload
    ensures var e := |h| + |c.local|; e <= |d| && d[|h|..e] == c.local
    ensures var e := |h| + |c.local|; |c.local| < c.nPayload ==> e + 4 <= |d| && Get4(d, e) == c.first
  {
    var e := |h| + |c.local|;
    if |c.local| < c.nPayload {
      var p := Put4(c.first);
      assert Body(c) + more == c.local + (p + more);
      SliceAt(h, c.local, p + more, d, e);
      assert d == (h + c.local) + (p + more);
      SliceAt(h + c.local, p, more, d, e + 4);
      Get4Put4(c.first, d, e);
    } else {
      assert Body(c) == c.local;
      SliceAt(h, c.local, more, d, e);
    }
  }

  lemma TextRead(k: PageKind, x: Content, nKey: nat, ptr: seq<Byte>, data: seq<Byte>, key: seq<Byte>, c: Cell, more: seq<Byte>)
    requires Suits(k, x, nKey) && Header(k, x, nKey, ptr, data, key)
    requires c.nPayload == x.Size() && |c.local| == LocalSize(k, x.Size()) && c.first < CellFormat.U32 && (c.nPayload == |c.local| ==> c.first == 0)
    ensures ReadAs(k, x, nKey, ptr + data + key + Body(c), more, c)
  {
    var h, rest := ptr + data + key, Body(c) + more;
    HeaderParses(k, x, nKey, ptr, data, key, rest);
    Joined3(h, Body(c), more);
    AsRead(k, x, nKey, h, c, more);
  }

  lemma Joined3(a: seq<Byte>, b: seq<Byte>, c: seq<Byte>)
    ensures a + b + c == a + (b + c)
  {
  }

  lemma AsRead(k: PageKind, x: Content, nKey: nat, h: seq<Byte>, c: Cell, more: seq<Byte>)
    requires k.Valid() && c.first < CellFormat.U32 && (c.nPayload == |c.local| ==> c.first == 0)
    requires c.nPayload == x.Size() && |c.local| == LocalSize(k, x.Size())
    requires h + Body(c) + more == h + (Body(c) + more) && Says(k, x, nKey, |h|, ParseCell(k, h + (Body(c) + more)))
    ensures ReadAs(k, x, nKey, h + Body(c), more, c)
  {
    BodyRead(h + (Body(c) + more), h, c, more);
  }

  // ---------------------------------------------------------------------
  // Making it
  // ---------------------------------------------------------------------

  method MakeHeader(k: PageKind, child: nat, x: Content, nKey: nat) returns (h: seq<Byte>, ghost ptr: seq<Byte>, ghost data: seq<Byte>, ghost key: seq<Byte>)
    requires Suits(k, x, nKey) && child < CellFormat.U32
    ensures Header(k, x, nKey, ptr, data, key) && h == ptr + data + key && (!k.leaf ==> ptr == Put4(child))
  {
    h := if k.leaf then [] else Put4(child);
    ptr, data := h, [];
    if k.hasData {
      var p := PutVarint(|x.data| + x.nZero);
      h, data := h + p, p;
    }
    var q := PutVarint(nKey);
    key := q;
    h := h + q;
  }

  /** fillInCell: the header, then what sqlite3BtreeParseCellPtr makes of it decides how
      much of the payload is local.  The text is read as the cell that was asked for. */
  method MakeCell(k: PageKind, child: nat, pages0: Store, m0: Ptrmap, x: Content, nKey: nat, alloc: seq<Pgno>)
    returns (ok: bool, text: seq<Byte>, nSize: nat, pages: Store, m: Ptrmap, c: Cell)
    requires Suits(k, x, nKey) && child < CellFormat.U32 && forall i | 0 <= i < |alloc| :: alloc[i] < CellFormat.U32
    requires Allocatable(pages0, alloc, k.usableSize - 4) && PtrmapOk(pages0, m0) && FreeInMap(m0, alloc)
    ensures ok == (|alloc| >= Pieces(x.Size() - LocalSize(k, x.Size()), k.usableSize - 4)) && OnlyThese(pages0, pages, alloc) && PtrmapOk(pages, m)
    ensures ok ==> Made(k.usableSize - 4, LocalSize(k, x.Size()), x, pages, c, alloc)
    ensures ok ==> (forall more: seq<Byte> :: ReadAs(k, x, nKey, text, more, c)) && nSize == CellSize(k, text)
    ensures ok && !k.leaf ==> |text| >= 4 && Get4(text, 0) == child
  {
    var h;
    ghost var ptr, data, key;
    h, ptr, data, key := MakeHeader(k, child, x, nKey);
    HeaderParses(k, x, nKey, ptr, data, key, []);
    assert h + [] == h;
    var info := ParseCell(k, h);
    nSize, text := info.nSize, h;
    ok, pages, m, c := FillInCell(k, pages0, m0, x, alloc);
    if ok {
      FirstIs(pages, c, alloc, k.usableSize - 4);
      text := h + c.local + if info.iOverflow != 0 then Put4(c.first) else [];
      Joined3(h, c.local, if info.iOverflow != 0 then Put4(c.first) else []);
      TextMade(k, child, x, nKey, ptr, data, key, c);
    }
  }

  lemma TextMade(k: PageKind, child: nat, x: Content, nKey: nat, ptr: seq<Byte>, data: seq<Byte>, key: seq<Byte>, c: Cell)
    requires Suits(k, x, nKey) && Header(k, x, nKey, ptr, data, key) && child < CellFormat.U32 && (!k.leaf ==> ptr == Put4(child))
    requires c.nPayload == x.Size() && |c.local| == LocalSize(k, x.Size()) && c.first < CellFormat.U32 && (c.nPayload == |c.local| ==> c.first == 0)
    ensures var text := ptr + data + key + Body(c);
      && (forall more: seq<Byte> :: ReadAs(k, x, nKey, text, more, c)) && CellSize(k, text) == (if |text| < 4 then 4 else |text|)
      && (!k.leaf ==> |text| >= 4 && Get4(text, 0) == child)
  {
    forall more: seq<Byte> ensures ReadAs(k, x, nKey, ptr + data + key + Body(c), more, c) {
      TextRead(k, x, nKey, ptr, data, key, c, more);
    }
    SizeIs(k, x, nKey, ptr + data + key + Body(c), c);
    if !k.leaf { ChildIs(child, ptr, data, key, Body(c)); }
  }

  lemma SizeIs(k: PageKind, x: Content, nKey: nat, text: seq<Byte>, c: Cell)
    requires k.Valid() && ReadAs(k, x, nKey, text, [], c)
    ensures CellSize(k, text) == if |text| < 4 then 4 else |text|
  {
    assert text + [] == text;
  }

  lemma ChildIs(child: nat, ptr: seq<Byte>, data: seq<Byte>, key: seq<Byte>, body: seq<Byte>)
    requires child < CellFormat.U32 && ptr == Put4(child)
    ensures var text := ptr + data + key + body; |text| >= 4 && Get4(text, 0) == child
  {
    var text := ptr + data + key + body;
    assert text[0..4] == ptr;
    Get4Put4(child, text, 0);
  }

  lemma FirstIs(pages: Store, c: Cell, alloc: seq<Pgno>, s: nat)
    requires s > 0 && |c.local| <= c.nPayload && Count(c, s) <= |alloc| && IsChain(pages, c.first, alloc, Count(c, s))
    requires forall i | 0 <= i < |alloc| :: alloc[i] < CellFormat.U32
    ensures c.first < CellFormat.U32 && (c.nPayload == |c.local| ==> c.first == 0)
  {
    assert Nth(pages, c.first, 0) == c.first;
  }
}
