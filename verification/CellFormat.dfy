/** Bytes of a database page: big-endian two-byte integers, variable-length
    integers, and the header of a cell (btree.c, util.c, btreeInt.h). */
module CellFormat {
  import opened Division

  type Byte = x: int | 0 <= x < 256

  /** The byte at offset i.  Bytes past the end of the buffer read as zero. */
  function At(d: seq<Byte>, i: nat): Byte {
    if i < |d| then d[i] else 0
  }

  function Get2(d: seq<Byte>, a: nat): nat
    requires a + 1 < |d|
  {
    d[a] as int * 256 + d[a + 1]
  }

  // ---------------------------------------------------------------------
  // Variable-length integers
  // ---------------------------------------------------------------------

  datatype Varint = Varint(value: nat, len: nat)

  /** Read on from offset i of the varint that starts at offset a: seven bits
      from each of its first eight bytes, all eight bits from the ninth. */
  function VarintFrom(d: seq<Byte>, a: nat, i: nat, acc: nat): (r: Varint)
    requires a <= i <= a + 8
    ensures i - a < r.len <= 9
    decreases a + 8 - i
  {
    var b: int := At(d, i);
    if i == a + 8 then Varint(acc * 256 + b, 9)
    else if b < 128 then Varint(acc * 128 + b, i + 1 - a)
    else VarintFrom(d, a, i + 1, acc * 128 + (b - 128))
  }

  function GetVarint(d: seq<Byte>, a: nat): (r: Varint)
    ensures 1 <= r.len <= 9
  {
    VarintFrom(d, a, a, 0)
  }

  lemma {:induction false} VarintLocal(d: seq<Byte>, e: seq<Byte>, a: nat, i: nat, acc: nat)
    requires a <= i <= a + 8
    requires forall j | i <= j < a + VarintFrom(d, a, i, acc).len :: At(d, j) == At(e, j)
    ensures VarintFrom(e, a, i, acc) == VarintFrom(d, a, i, acc)
    decreases a + 8 - i
  {
    assert At(d, i) == At(e, i);
    if i < a + 8 && At(d, i) >= 128 {
      var b: int := At(d, i);
      VarintLocal(d, e, a, i + 1, acc * 128 + (b - 128));
    }
  }

  // ---------------------------------------------------------------------
  // Cells
  // ---------------------------------------------------------------------

  /** What a page's flag byte and its file decide about the cells on it. */
  datatype PageKind = PageKind(leaf: bool, intKey: bool, hasData: bool,
                               minLocal: nat, maxLocal: nat, usableSize: nat)
  {
    predicate Valid() {
      && 480 <= usableSize <= 32768
      && minLocal <= maxLocal
      && maxLocal + 35 <= usableSize
    }

    function ChildPtrSize(): nat { if leaf then 0 else 4 }
  }

  datatype CellInfo = CellInfo(nKey: nat, nData: nat, nPayload: nat, nHeader: nat,
                               nLocal: nat, iOverflow: nat, nSize: nat)

  const U32: nat := 0x1_0000_0000

  /** Bytes of an nPayload-byte payload that stay on the page itself. */
  function LocalSize(k: PageKind, nPayload: nat): (nLocal: nat)
    requires k.Valid()
  {
    if nPayload <= k.maxLocal then nPayload
    else
      var surplus := k.minLocal + Rem(nPayload - k.minLocal, k.usableSize - 4);
      if surplus <= k.maxLocal then surplus else k.minLocal
  }

  /** The remainder is the machine's. */
  lemma LocalSizeComputed(k: PageKind, nPayload: nat)
    requires k.Valid() && nPayload > k.maxLocal
    ensures var surplus := k.minLocal + (nPayload - k.minLocal) % (k.usableSize - 4);
      LocalSize(k, nPayload) == if surplus <= k.maxLocal then surplus else k.minLocal
  {
    DivIsQuot(nPayload - k.minLocal, k.usableSize - 4);
  }

  /** The cell with these two header fields. */
  function InfoFrom(k: PageKind, data: Varint, key: Varint): (r: CellInfo)
    requires k.Valid() && data.len <= 9 && 1 <= key.len <= 9
    ensures r.nHeader == k.ChildPtrSize() + data.len + key.len
    ensures r.nHeader <= r.nSize <= k.usableSize && 4 <= r.nSize
  {
    var nData := data.value % U32;
    var n := k.ChildPtrSize() + data.len + key.len;
    var nKey := if k.intKey then key.value else key.value % U32;
    var nPayload := if k.intKey then nData else (nData + nKey) % U32;
    var nLocal := LocalSize(k, nPayload);
    if nPayload <= k.maxLocal then
      CellInfo(nKey, nData, nPayload, n, nLocal, 0, if nLocal + n < 4 then 4 else nLocal + n)
    else
      CellInfo(nKey, nData, nPayload, n, nLocal, nLocal + n, nLocal + n + 4)
  }

  function DataField(k: PageKind, cell: seq<Byte>): (r: Varint)
    ensures r.len <= 9
  {
    if k.hasData then GetVarint(cell, k.ChildPtrSize()) else Varint(0, 0)
  }

  function KeyField(k: PageKind, cell: seq<Byte>): (r: Varint)
    ensures 1 <= r.len <= 9
  {
    GetVarint(cell, k.ChildPtrSize() + DataField(k, cell).len)
  }

  /** The cell whose text starts the buffer, as sqlite3BtreeParseCellPtr reads it. */
  function ParseCell(k: PageKind, cell: seq<Byte>): (r: CellInfo)
    requires k.Valid()
  {
    InfoFrom(k, DataField(k, cell), KeyField(k, cell))
  }

  /** Bytes a cell takes in the content area of its page. */
  function CellSize(k: PageKind, cell: seq<Byte>): (sz: nat)
    requires k.Valid()
    ensures 4 <= sz <= k.usableSize
  {
    ParseCell(k, cell).nSize
  }

  /** A cell is parsed from its own header bytes alone: the child pointer in
      front of them and everything after them do not matter. */
  lemma ParseCellLocal(k: PageKind, c: seq<Byte>, e: seq<Byte>)
    requires k.Valid()
    requires forall j | k.ChildPtrSize() <= j < ParseCell(k, c).nHeader :: At(c, j) == At(e, j)
    ensures ParseCell(k, e) == ParseCell(k, c)
  {
    if k.hasData {
      VarintLocal(c, e, k.ChildPtrSize(), k.ChildPtrSize(), 0);
    }
    var a := k.ChildPtrSize() + DataField(k, c).len;
    VarintLocal(c, e, a, a, 0);
  }
}
