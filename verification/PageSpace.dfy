/** Specification of the space on one b-tree page: header, cell pointers, gap,
    and a content area shared by cells, freeblocks and fragments (btreeInt.h). */
module PageSpace {
  import opened CellFormat

  /** A run of bytes on the page. */
  datatype Region = Region(start: nat, size: nat) {
    function End(): nat { start + size }
  }

  /** The bytes of a region that lies on the page. */
  function Slice(d: seq<Byte>, r: Region): seq<Byte> {
    if r.End() <= |d| then d[r.start..r.End()] else []
  }

  predicate Disjoint(r: Region, s: Region) {
    r.End() <= s.start || s.End() <= r.start
  }

  predicate Inside(r: Region, lo: nat, hi: nat) {
    lo <= r.start && r.End() <= hi
  }

  function Total(rs: seq<Region>): nat {
    if rs == [] then 0 else rs[0].size + Total(rs[1..])
  }

  lemma {:induction false} TotalConcat(a: seq<Region>, b: seq<Region>)
    ensures Total(a + b) == Total(a) + Total(b)
  {
    if a == [] {
      assert a + b == b;
    } else {
      assert (a + b)[1..] == a[1..] + b;
      TotalConcat(a[1..], b);
    }
  }

  function Insert<T>(s: seq<T>, i: nat, x: T): (r: seq<T>)
    requires i <= |s|
    ensures |r| == |s| + 1
  {
    s[..i] + [x] + s[i..]
  }

  function Remove<T>(s: seq<T>, i: nat): (r: seq<T>)
    requires i < |s|
    ensures |r| == |s| - 1
  {
    s[..i] + s[i + 1..]
  }

  lemma InsertAt<T>(s: seq<T>, i: nat, x: T, a: nat)
    requires i <= |s| && a <= |s|
    ensures Insert(s, i, x)[a] == if a < i then s[a] else if a == i then x else s[a - 1]
  {
  }

  lemma RemoveAt<T>(s: seq<T>, i: nat, a: nat)
    requires i < |s| && a + 1 < |s|
    ensures Remove(s, i)[a] == if a < i then s[a] else s[a + 1]
  {
  }

  lemma TotalOne(x: Region)
    ensures Total([x]) == x.size
  {
    assert [x][1..] == [];
  }

  lemma TotalSplit(s: seq<Region>, i: nat)
    requires i <= |s|
    ensures Total(s) == Total(s[..i]) + Total(s[i..])
  {
    assert s == s[..i] + s[i..];
    TotalConcat(s[..i], s[i..]);
  }

  lemma TotalParts(a: seq<Region>, x: seq<Region>, b: seq<Region>)
    ensures Total(a + x + b) == Total(a) + Total(x) + Total(b)
  {
    TotalConcat(a + x, b);
    TotalConcat(a, x);
  }

  lemma TotalInsert(s: seq<Region>, i: nat, x: Region)
    requires i <= |s|
    ensures Total(Insert(s, i, x)) == Total(s) + x.size
  {
    TotalParts(s[..i], [x], s[i..]);
    TotalOne(x);
    TotalSplit(s, i);
  }

  lemma TotalRemove(s: seq<Region>, i: nat)
    requires i < |s|
    ensures Total(Remove(s, i)) == Total(s) - s[i].size
  {
    TotalConcat(s[..i], s[i + 1..]);
    TotalSplit(s, i);
    assert s[i..][1..] == s[i + 1..];
  }

  lemma TotalUpdate(s: seq<Region>, i: nat, x: Region)
    requires i < |s|
    ensures Total(s[i := x]) == Total(s) - s[i].size + x.size
  {
    TotalRemove(s, i);
    assert s[i := x] == Insert(Remove(s, i), i, x);
    TotalInsert(Remove(s, i), i, x);
  }

  // ---------------------------------------------------------------------
  // Disjoint regions cannot outgrow the range that holds them
  // ---------------------------------------------------------------------

  ghost predicate Apart(rs: seq<Region>) {
    forall i, j {:trigger Disjoint(rs[i], rs[j])} | 0 <= i < j < |rs| :: Disjoint(rs[i], rs[j])
  }

  ghost predicate AllInside(rs: seq<Region>, lo: nat, hi: nat) {
    forall i {:trigger Inside(rs[i], lo, hi)} | 0 <= i < |rs| :: Inside(rs[i], lo, hi)
  }

  ghost predicate AllApart(rs: seq<Region>, ss: seq<Region>) {
    forall i, j {:trigger Disjoint(rs[i], ss[j])} | 0 <= i < |rs| && 0 <= j < |ss| :: Disjoint(rs[i], ss[j])
  }

  lemma ApartConcat(a: seq<Region>, b: seq<Region>)
    requires Apart(a) && Apart(b) && AllApart(a, b)
    ensures Apart(a + b)
  {
    forall i, j | 0 <= i < j < |a + b| ensures Disjoint((a + b)[i], (a + b)[j]) {
      if j < |a| {
        assert Disjoint(a[i], a[j]);
      } else if i < |a| {
        assert Disjoint(a[i], b[j - |a|]);
      } else {
        assert Disjoint(b[i - |a|], b[j - |a|]);
      }
    }
  }

  function Range(lo: nat, hi: nat): (s: set<nat>)
    requires lo <= hi
    ensures forall x: nat :: x in s <==> lo <= x < hi
    decreases hi - lo
  {
    if lo == hi then {} else {lo} + Range(lo + 1, hi)
  }

  lemma {:induction false} RangeSize(lo: nat, hi: nat)
    requires lo <= hi
    ensures |Range(lo, hi)| == hi - lo
    decreases hi - lo
  {
    if lo < hi {
      RangeSize(lo + 1, hi);
    }
  }

  /** The bytes that belong to some region. */
  function Bytes(rs: seq<Region>): set<nat> {
    if rs == [] then {} else Range(rs[0].start, rs[0].End()) + Bytes(rs[1..])
  }

  lemma {:induction false} BytesIn(rs: seq<Region>, lo: nat, hi: nat)
    requires lo <= hi && AllInside(rs, lo, hi)
    ensures Bytes(rs) <= Range(lo, hi)
  {
    if rs != [] {
      assert AllInside(rs[1..], lo, hi);
      BytesIn(rs[1..], lo, hi);
      assert Inside(rs[0], lo, hi);
    }
  }

  lemma {:induction false} BytesApart(r: Region, rs: seq<Region>)
    requires forall i | 0 <= i < |rs| :: Disjoint(r, rs[i])
    ensures Range(r.start, r.End()) !! Bytes(rs)
  {
    if rs != [] {
      assert Disjoint(r, rs[0]);
      BytesApart(r, rs[1..]);
    }
  }

  /** Regions that do not overlap hold as many bytes as their sizes add up to. */
  lemma {:induction false} BytesTotal(rs: seq<Region>)
    requires Apart(rs)
    ensures |Bytes(rs)| == Total(rs)
  {
    if rs != [] {
      BytesApart(rs[0], rs[1..]);
      RangeSize(rs[0].start, rs[0].End());
      BytesTotal(rs[1..]);
    }
  }

  lemma SubsetSize(s: set<nat>, t: set<nat>)
    requires s <= t
    ensures |s| <= |t|
  {
    assert t == s + (t - s);
  }

  lemma TotalFits(rs: seq<Region>, lo: nat, hi: nat)
    requires lo <= hi && Apart(rs) && AllInside(rs, lo, hi)
    ensures Total(rs) <= hi - lo
  {
    BytesTotal(rs);
    BytesIn(rs, lo, hi);
    RangeSize(lo, hi);
    SubsetSize(Bytes(rs), Range(lo, hi));
  }

  // ---------------------------------------------------------------------
  // The freeblock chain
  // ---------------------------------------------------------------------

  function Head(blocks: seq<Region>, i: nat): nat
    requires i <= |blocks|
  {
    if i < |blocks| then blocks[i].start else 0
  }

  /** Where the link to the i-th freeblock is stored. */
  function Link(hdr: nat, blocks: seq<Region>, i: nat): nat
    requires i <= |blocks|
  {
    if i == 0 then hdr + 1 else blocks[i - 1].start
  }

  /** The i-th freeblock holds the offset of the next one and its own size. */
  ghost predicate BlockAt(d: seq<Byte>, hdr: nat, blocks: seq<Region>, i: nat)
    requires i < |blocks|
  {
    && Inside(blocks[i], hdr + 8, |d|) && blocks[i].size >= 4
    && Get2(d, blocks[i].start) == Head(blocks, i + 1) && Get2(d, blocks[i].start + 2) == blocks[i].size
  }

  /** The bytes of the page link the given freeblocks, in this order. */
  ghost predicate Chain(d: seq<Byte>, hdr: nat, blocks: seq<Region>)
    requires hdr + 8 <= |d| <= 0x8000
  {
    && Get2(d, hdr + 1) == Head(blocks, 0)
    && (forall i: nat | i < |blocks| :: BlockAt(d, hdr, blocks, i))
  }

  /** Freeblock i ends before freeblock j starts, 4 bytes before for j < n. */
  ghost predicate Spaced(blocks: seq<Region>, n: nat, i: nat, j: nat)
    requires i < |blocks| && j < |blocks|
  {
    blocks[i].End() + (if j < n then 4 else 0) <= blocks[j].start
  }

  /** Freeblocks ascend; the first n of them are at least 4 bytes apart. */
  ghost predicate Ascending(blocks: seq<Region>, n: nat) {
    forall i: nat, j: nat | i < j < |blocks| :: Spaced(blocks, n, i, j)
  }

  /** Cells and freeblocks lie inside [top, hi), none overlaps another, and the
      first n freeblocks are at least 4 bytes apart. */
  ghost predicate Regions(top: nat, hi: nat, cells: seq<Region>, blocks: seq<Region>, n: nat) {
    && AllInside(cells, top, hi) && AllInside(blocks, top, hi)
    && (forall i | 0 <= i < |cells| :: cells[i].size >= 4)
    && (forall i | 0 <= i < |blocks| :: blocks[i].size >= 4)
    && Apart(cells) && AllApart(cells, blocks) && Ascending(blocks, n)
  }

  /** The content area [top, |d|) holds the cells and the freeblocks without
      overlap, and the fragment count is the number of bytes left over. */
  ghost predicate Space(d: seq<Byte>, hdr: nat, cells: seq<Region>, blocks: seq<Region>, n: nat)
  {
    && hdr + 8 <= |d| <= 0x8000
    && Chain(d, hdr, blocks)
    && var top := Get2(d, hdr + 5);
    && hdr + 8 <= top <= |d|
    && Regions(top, |d|, cells, blocks, n)
    && d[hdr + 7] as int == |d| - top - Total(cells) - Total(blocks)
  }

  /** Free bytes of a page with nCell cell pointers: the gap, the fragments and
      the freeblocks. */
  ghost function FreeBytes(d: seq<Byte>, hdr: nat, cellOffset: nat, nCell: nat, blocks: seq<Region>): int
    requires hdr + 8 <= |d|
  {
    d[hdr + 7] as int + Get2(d, hdr + 5) - (cellOffset + 2 * nCell) + Total(blocks)
  }

  /** The bytes left over once cells and freeblocks are taken out. */
  lemma FragmentsAreTheRest(d: seq<Byte>, hdr: nat, cells: seq<Region>, blocks: seq<Region>, n: nat)
    requires Space(d, hdr, cells, blocks, n)
    ensures d[hdr + 7] as int == |Range(Get2(d, hdr + 5), |d|) - Bytes(cells + blocks)|
  {
    var top := Get2(d, hdr + 5);
    assert AllInside(cells + blocks, top, |d|);
    AscendingApart(blocks, n);
    ApartConcat(cells, blocks);
    BytesTotal(cells + blocks);
    TotalConcat(cells, blocks);
    BytesIn(cells + blocks, top, |d|);
    RangeSize(top, |d|);
    var rest := Range(top, |d|) - Bytes(cells + blocks);
    assert Range(top, |d|) == rest + Bytes(cells + blocks);
  }

  lemma AscendingApart(blocks: seq<Region>, n: nat)
    requires Ascending(blocks, n)
    ensures Apart(blocks)
  {
    forall i, j | 0 <= i < j < |blocks| ensures Disjoint(blocks[i], blocks[j]) {
      assert Spaced(blocks, n, i, j);
    }
  }

  /** At most three bytes between two freeblocks cannot hold a cell, so they
      are all fragment bytes. */
  lemma SmallGapIsFragments(d: seq<Byte>, hdr: nat, cells: seq<Region>, blocks: seq<Region>, j: nat)
    requires Space(d, hdr, cells, blocks, j + 1) && j + 1 < |blocks|
    requires blocks[j + 1].start <= blocks[j].End() + 3
    ensures 0 <= blocks[j + 1].start - blocks[j].End() <= d[hdr + 7] as int
  {
    var top := Get2(d, hdr + 5);
    assert Spaced(blocks, j + 1, j, j + 1);
    var gap := Region(blocks[j].End(), blocks[j + 1].start - blocks[j].End());
    GapApart(cells, blocks, j, gap);
    AscendingApart(blocks, j + 1);
    ApartConcat(cells, blocks);
    ApartConcat(cells + blocks, [gap]);
    assert Inside(blocks[j], top, |d|) && Inside(blocks[j + 1], top, |d|);
    TotalFits(cells + blocks + [gap], top, |d|);
    TotalConcat(cells + blocks, [gap]);
    TotalConcat(cells, blocks);
  }

  lemma GapApart(cells: seq<Region>, blocks: seq<Region>, j: nat, gap: Region)
    requires j + 1 < |blocks| && gap.start == blocks[j].End() && gap.End() == blocks[j + 1].start && gap.size <= 3
    requires Ascending(blocks, j + 1)
    requires AllApart(cells, blocks) && forall i | 0 <= i < |cells| :: cells[i].size >= 4
    ensures AllApart(cells + blocks, [gap])
  {
    var all := cells + blocks;
    forall i | 0 <= i < |all| ensures Disjoint(all[i], gap) {
      if i < |cells| {
        assert Disjoint(cells[i], blocks[j]) && Disjoint(cells[i], blocks[j + 1]);
      } else {
        BlockApart(blocks, j, i - |cells|, gap);
      }
    }
    forall i, g | 0 <= i < |all| && 0 <= g < |[gap]| ensures Disjoint(all[i], [gap][g]) {}
  }

  lemma BlockApart(blocks: seq<Region>, j: nat, i: nat, gap: Region)
    requires j + 1 < |blocks| && i < |blocks| && Ascending(blocks, j + 1)
    requires gap.start == blocks[j].End() && gap.End() == blocks[j + 1].start
    ensures Disjoint(blocks[i], gap)
  {
    if i < j { assert Spaced(blocks, j + 1, i, j); }
    if j + 1 < i { assert Spaced(blocks, j + 1, j + 1, i); }
  }

  // ---------------------------------------------------------------------
  // Steps of freeSpace and allocateSpace on the bytes of the page
  // ---------------------------------------------------------------------

  /** The cells' bytes, the flags and cell count of the header, and the bytes
      from the end of the header up to end are the same in d and e. */
  ghost predicate Frame(d: seq<Byte>, e: seq<Byte>, hdr: nat, end: nat, cells: seq<Region>) {
    && |d| == |e|
    && (forall x | 0 <= x < |d| && (x <= hdr || x == hdr + 3 || x == hdr + 4 || hdr + 8 <= x < end) :: e[x] == d[x])
    && (forall i {:trigger Slice(e, cells[i])} | 0 <= i < |cells| :: Slice(e, cells[i]) == Slice(d, cells[i]))
  }

  lemma RegionsLink(top: nat, hi: nat, cells: seq<Region>, blocks: seq<Region>, c: nat, j: nat)
    requires Regions(top, hi, cells, blocks, |blocks|) && c < |cells| && j <= |blocks|
    requires forall i | 0 <= i < j :: blocks[i].start < cells[c].start
    requires forall i | j <= i < |blocks| :: cells[c].start < blocks[i].start
    ensures Regions(top, hi, Remove(cells, c), Insert(blocks, j, cells[c]), 0)
  {
    var r, rest, bs := cells[c], Remove(cells, c), Insert(blocks, j, cells[c]);
    forall i | 0 <= i < |blocks| ensures Disjoint(r, blocks[i]) {}
    forall i | 0 <= i < |rest| ensures Disjoint(rest[i], r) {
      var m := if i < c then i else i + 1;
      assert rest[i] == cells[m];
      assert if m < c then Disjoint(cells[m], cells[c]) else Disjoint(cells[c], cells[m]);
    }
    forall a: nat, b: nat | a < b < |bs| ensures Spaced(bs, 0, a, b) {
      var a', b' := if a < j then a else a - 1, if b < j then b else b - 1;
      if a != j && b != j { assert Spaced(blocks, |blocks|, a', b'); }
    }
  }

  /** What three two-byte stores leave behind: link at a, new freeblock r. */
  ghost predicate Linked(d: seq<Byte>, e: seq<Byte>, a: nat, r: Region, next: nat)
  {
    && |e| == |d| && a + 1 < |d| && r.start + 3 < |d|
    && Get2(e, a) == r.start && Get2(e, r.start) == next && Get2(e, r.start + 2) == r.size
    && (forall x | 0 <= x < |d| && x != a && x != a + 1 && !(r.start <= x < r.start + 4) :: e[x] == d[x])
  }

  /** Link region r in front of freeblock j. */
  lemma ChainLink(d: seq<Byte>, e: seq<Byte>, hdr: nat, blocks: seq<Region>, r: Region, j: nat)
    requires hdr + 8 <= |d| <= 0x8000 && Chain(d, hdr, blocks) && j <= |blocks|
    requires Apart(blocks) && (forall i | 0 <= i < |blocks| :: Disjoint(r, blocks[i]))
    requires Inside(r, hdr + 8, |d|) && r.size >= 4
    requires Linked(d, e, Link(hdr, blocks, j), r, Head(blocks, j))
    ensures Chain(e, hdr, Insert(blocks, j, r))
  {
    var bs := Insert(blocks, j, r);
    if 0 < j { assert BlockAt(d, hdr, blocks, j - 1); }
    forall i: nat | i < |bs| ensures BlockAt(e, hdr, bs, i) {
      if i == j {
        assert Head(bs, i + 1) == Head(blocks, j);
      } else {
        var i' := if i < j then i else i - 1;
        assert bs[i] == blocks[i'] && BlockAt(d, hdr, blocks, i') && Disjoint(r, blocks[i']);
        if i' + 1 == j {
          assert Head(bs, i + 1) == r.start;
        } else {
          assert Head(bs, i + 1) == Head(blocks, i' + 1);
          if 0 < j {
            if i' < j - 1 { assert Disjoint(blocks[i'], blocks[j - 1]); }
            if i' > j - 1 { assert Disjoint(blocks[j - 1], blocks[i']); }
          }
          Get2Same(d, e, blocks[i'].start);
        }
        Get2Same(d, e, blocks[i'].start + 2);
      }
    }
  }

  lemma Get2Same(d: seq<Byte>, e: seq<Byte>, a: nat)
    requires a + 1 < |d| == |e| && d[a] == e[a] && d[a + 1] == e[a + 1]
    ensures Get2(d, a) == Get2(e, a)
  {
  }

  /** freeSpace's first step: the cell with index c becomes freeblock j. */
  lemma LinkBlock(d: seq<Byte>, e: seq<Byte>, hdr: nat, cells: seq<Region>, blocks: seq<Region>, c: nat, j: nat)
    requires Space(d, hdr, cells, blocks, |blocks|) && c < |cells| && j <= |blocks|
    requires forall i | 0 <= i < j :: blocks[i].start < cells[c].start
    requires forall i | j <= i < |blocks| :: cells[c].start < blocks[i].start
    requires Linked(d, e, Link(hdr, blocks, j), cells[c], Head(blocks, j))
    ensures Space(e, hdr, Remove(cells, c), Insert(blocks, j, cells[c]), 0)
    ensures Frame(d, e, hdr, Get2(d, hdr + 5), Remove(cells, c))
    ensures e[hdr + 7] == d[hdr + 7] && Get2(e, hdr + 5) == Get2(d, hdr + 5)
  {
    var top := Get2(d, hdr + 5);
    AscendingApart(blocks, |blocks|);
    assert Inside(cells[c], top, |d|) && forall i | 0 <= i < |blocks| :: Disjoint(cells[c], blocks[i]);
    ChainLink(d, e, hdr, blocks, cells[c], j);
    RestApart(cells, blocks, c);
    LinkedFrame(d, e, hdr, top, cells, blocks, c, j);
    RegionsLink(top, |d|, cells, blocks, c, j);
    TotalRemove(cells, c);
    TotalInsert(blocks, j, cells[c]);
  }

  /** A region apart from what is linked in keeps its bytes. */
  lemma SliceApart(d: seq<Byte>, e: seq<Byte>, x: Region, r: Region, a: nat, next: nat)
    requires Linked(d, e, a, r, next) && Disjoint(x, r) && r.size >= 4 && (a + 1 < x.start || x.End() <= a)
    ensures Slice(e, x) == Slice(d, x)
  {
  }

  lemma LinkedFrame(d: seq<Byte>, e: seq<Byte>, hdr: nat, top: nat, cells: seq<Region>, blocks: seq<Region>, c: nat, j: nat)
    requires hdr + 8 <= top <= |d| && Regions(top, |d|, cells, blocks, |blocks|)
    requires c < |cells| && j <= |blocks|
    requires AllApart(Remove(cells, c), blocks + [cells[c]])
    requires Linked(d, e, Link(hdr, blocks, j), cells[c], Head(blocks, j))
    ensures Frame(d, e, hdr, top, Remove(cells, c))
    ensures e[hdr + 5] == d[hdr + 5] && e[hdr + 6] == d[hdr + 6] && e[hdr + 7] == d[hdr + 7]
  {
    var rest, bs := Remove(cells, c), blocks + [cells[c]];
    if 0 < j { assert Inside(blocks[j - 1], top, |d|); }
    assert Inside(cells[c], top, |d|);
    forall i | 0 <= i < |rest| ensures Slice(e, rest[i]) == Slice(d, rest[i]) {
      assert rest[i] == cells[if i < c then i else i + 1];
      assert Inside(rest[i], top, |d|);
      assert bs[|blocks|] == cells[c] && Disjoint(rest[i], bs[|blocks|]);
      if 0 < j { assert bs[j - 1] == blocks[j - 1] && Disjoint(rest[i], bs[j - 1]); }
      SliceApart(d, e, rest[i], cells[c], Link(hdr, blocks, j), Head(blocks, j));
    }
  }

  /** The cells other than c keep clear of c and of the freeblocks. */
  lemma RestApart(cells: seq<Region>, blocks: seq<Region>, c: nat)
    requires Apart(cells) && AllApart(cells, blocks) && c < |cells|
    ensures AllApart(Remove(cells, c), blocks + [cells[c]])
  {
    var rest := Remove(cells, c);
    forall i, j | 0 <= i < |rest| && 0 <= j < |blocks + [cells[c]]| ensures Disjoint(rest[i], (blocks + [cells[c]])[j]) {
      var m := if i < c then i else i + 1;
      assert rest[i] == cells[m];
      if j < |blocks| {
        assert Disjoint(cells[m], blocks[j]);
      } else {
        assert if m < c then Disjoint(cells[m], cells[c]) else Disjoint(cells[c], cells[m]);
      }
    }
  }

  /** Every byte of the page outside [a, a+n) and [b, b+m) is kept. */
  ghost predicate KeptBut(d: seq<Byte>, e: seq<Byte>, a: nat, n: nat, b: nat, m: nat) {
    |e| == |d| && forall x | 0 <= x < |d| && !(a <= x < a + n) && !(b <= x < b + m) :: e[x] == d[x]
  }

  /** A freeblock whose four bytes and whose successor are kept. */
  lemma BlockKept(d: seq<Byte>, e: seq<Byte>, hdr: nat, blocks: seq<Region>, i: nat, bs: seq<Region>, k: nat)
    requires |d| == |e| && i < |blocks| && k < |bs| && BlockAt(d, hdr, blocks, i)
    requires bs[k] == blocks[i] && Head(bs, k + 1) == Head(blocks, i + 1)
    requires forall x | blocks[i].start <= x < blocks[i].start + 4 && x < |d| :: e[x] == d[x]
    ensures BlockAt(e, hdr, bs, k)
  {
    Get2Same(d, e, blocks[i].start);
    Get2Same(d, e, blocks[i].start + 2);
  }

  /** A field of the page header other than flags and cell count, or a region
      of the content area clear of the cells. */
  ghost predicate MayChange(r: Region, hdr: nat, top: nat, cells: seq<Region>) {
    if r.start < top then
      hdr < r.start && r.End() <= hdr + 8 && (r.End() <= hdr + 3 || hdr + 5 <= r.start)
    else
      forall i | 0 <= i < |cells| :: Disjoint(cells[i], r)
  }

  lemma CellsKept(d: seq<Byte>, e: seq<Byte>, hdr: nat, top: nat, cells: seq<Region>, a: nat, n: nat, b: nat, m: nat)
    requires hdr + 8 <= top <= |d| && KeptBut(d, e, a, n, b, m) && AllInside(cells, top, |d|)
    requires MayChange(Region(a, n), hdr, top, cells) && MayChange(Region(b, m), hdr, top, cells)
    ensures Frame(d, e, hdr, top, cells)
  {
    forall i | 0 <= i < |cells| ensures Slice(e, cells[i]) == Slice(d, cells[i]) {
      assert Inside(cells[i], top, |d|);
      assert a >= top ==> Disjoint(cells[i], Region(a, n));
      assert b >= top ==> Disjoint(cells[i], Region(b, m));
      SliceKept(d, e, cells[i], a, n, b, m);
    }
  }

  lemma SliceKept(d: seq<Byte>, e: seq<Byte>, r: Region, a: nat, n: nat, b: nat, m: nat)
    requires KeptBut(d, e, a, n, b, m) && r.End() <= |d|
    requires Disjoint(r, Region(a, n)) && Disjoint(r, Region(b, m))
    ensures Slice(e, r) == Slice(d, r)
  {
  }

  function Merge(blocks: seq<Region>, j: nat): (r: seq<Region>)
    requires j + 1 < |blocks|
    ensures |r| == |blocks| - 1
  {
    var size := blocks[j + 1].End() - blocks[j].start;
    blocks[..j] + [Region(blocks[j].start, if size < 0 then 0 else size)] + blocks[j + 2..]
  }

  /** freeSpace's coalescing step: freeblock j swallows its successor and the
      fragment bytes between the two. */
  lemma Coalesce(d: seq<Byte>, e: seq<Byte>, hdr: nat, cells: seq<Region>, blocks: seq<Region>, j: nat)
    requires Space(d, hdr, cells, blocks, j + 1) && j + 1 < |blocks|
    requires blocks[j].End() <= blocks[j + 1].start <= blocks[j].End() + 3
    requires KeptBut(d, e, hdr + 7, 1, blocks[j].start, 4) && blocks[j].start + 3 < |d|
    requires Get2(e, blocks[j].start) == Head(blocks, j + 2)
    requires Get2(e, blocks[j].start + 2) == blocks[j + 1].End() - blocks[j].start
    requires e[hdr + 7] as int == d[hdr + 7] - (blocks[j + 1].start - blocks[j].End())
    ensures Space(e, hdr, cells, Merge(blocks, j), j + 1)
    ensures Frame(d, e, hdr, Get2(d, hdr + 5), cells) && Get2(e, hdr + 5) == Get2(d, hdr + 5)
    ensures Total(Merge(blocks, j)) == Total(blocks) + (blocks[j + 1].start - blocks[j].End())
  {
    var top, bs := Get2(d, hdr + 5), Merge(blocks, j);
    assert Inside(blocks[j], top, |d|) && forall i | 0 <= i < |cells| :: Disjoint(cells[i], blocks[j]);
    MergeTotal(blocks, j);
    MergeRegions(top, |d|, cells, blocks, j);
    MergeChain(d, e, hdr, top, blocks, j);
    Get2Same(d, e, hdr + 5);
    CellsKept(d, e, hdr, top, cells, hdr + 7, 1, blocks[j].start, 4);
  }

  lemma MergeTotal(blocks: seq<Region>, j: nat)
    requires j + 1 < |blocks| && blocks[j].End() <= blocks[j + 1].start
    ensures Total(Merge(blocks, j)) == Total(blocks) + (blocks[j + 1].start - blocks[j].End())
  {
    var whole := Merge(blocks, j)[j];
    TotalParts(blocks[..j], [whole], blocks[j + 2..]);
    TotalOne(whole);
    TotalSplit(blocks, j);
    assert blocks[j..][1..] == blocks[j + 1..] && blocks[j + 1..][1..] == blocks[j + 2..];
  }

  lemma MergeRegions(top: nat, hi: nat, cells: seq<Region>, blocks: seq<Region>, j: nat)
    requires Regions(top, hi, cells, blocks, j + 1) && j + 1 < |blocks|
    requires blocks[j].End() <= blocks[j + 1].start <= blocks[j].End() + 3
    ensures Regions(top, hi, cells, Merge(blocks, j), j + 1)
  {
    var bs := Merge(blocks, j);
    assert Inside(blocks[j], top, hi) && Inside(blocks[j + 1], top, hi);
    forall i | 0 <= i < |bs| ensures Inside(bs[i], top, hi) && bs[i].size >= 4 {
      if i > j { assert bs[i] == blocks[i + 1]; }
    }
    forall i, m | 0 <= i < |cells| && 0 <= m < |bs| ensures Disjoint(cells[i], bs[m]) {
      if m > j {
        assert bs[m] == blocks[m + 1];
      } else if m == j {
        assert Disjoint(cells[i], blocks[j]) && Disjoint(cells[i], blocks[j + 1]);
      }
    }
    var n := j + 1;
    forall a: nat, b: nat | a < b < |bs| ensures Spaced(bs, n, a, b) {
      if b > j { assert bs[b] == blocks[b + 1]; }
      if a == j { assert Spaced(blocks, j + 1, j + 1, b + 1); }
      if a > j { assert Spaced(blocks, j + 1, a + 1, b + 1); }
      if a < j { assert Spaced(blocks, j + 1, a, if b <= j then b else b + 1); }
    }
  }

  lemma MergeChain(d: seq<Byte>, e: seq<Byte>, hdr: nat, top: nat, blocks: seq<Region>, j: nat)
    requires hdr + 8 <= top <= |d| <= 0x8000 && Chain(d, hdr, blocks) && Ascending(blocks, j + 1) && j + 1 < |blocks|
    requires AllInside(blocks, top, |d|) && forall i | 0 <= i < |blocks| :: blocks[i].size >= 4
    requires blocks[j].start <= blocks[j + 1].start
    requires KeptBut(d, e, hdr + 7, 1, blocks[j].start, 4) && blocks[j].start + 3 < |d|
    requires Get2(e, blocks[j].start) == Head(blocks, j + 2)
    requires Get2(e, blocks[j].start + 2) == blocks[j + 1].End() - blocks[j].start
    ensures Chain(e, hdr, Merge(blocks, j))
  {
    var bs := Merge(blocks, j);
    assert BlockAt(d, hdr, blocks, j) && BlockAt(d, hdr, blocks, j + 1);
    forall i: nat | i < |bs| ensures BlockAt(e, hdr, bs, i) {
      assert Head(bs, i + 1) == Head(blocks, if i < j then i + 1 else i + 2);
      if i != j {
        var i' := if i < j then i else i + 1;
        assert bs[i] == blocks[i'] && BlockAt(d, hdr, blocks, i') && Inside(blocks[i'], top, |d|);
        assert if i' < j then Spaced(blocks, j + 1, i', j) else Spaced(blocks, j + 1, j, i');
        BlockKept(d, e, hdr, blocks, i', bs, i);
      }
    }
    assert Inside(blocks[j], top, |d|);
    Get2Same(d, e, hdr + 1);
  }

  /** freeSpace's last step: a freeblock at the very start of the content area
      becomes part of the gap. */
  lemma DropFirst(d: seq<Byte>, e: seq<Byte>, hdr: nat, cells: seq<Region>, blocks: seq<Region>)
    requires Space(d, hdr, cells, blocks, |blocks|) && blocks != []
    requires blocks[0].start == Get2(d, hdr + 5)
    requires KeptBut(d, e, hdr + 1, 2, hdr + 5, 2)
    requires Get2(e, hdr + 1) == Head(blocks, 1) && Get2(e, hdr + 5) == blocks[0].End()
    ensures Space(e, hdr, cells, blocks[1..], |blocks| - 1)
    ensures Frame(d, e, hdr, Get2(d, hdr + 5), cells) && e[hdr + 7] == d[hdr + 7]
  {
    var top, bs := Get2(d, hdr + 5), blocks[1..];
    assert BlockAt(d, hdr, blocks, 0);
    CellsKept(d, e, hdr, top, cells, hdr + 1, 2, hdr + 5, 2);
    DropRegions(top, |d|, cells, blocks);
    forall i: nat | i < |bs| ensures BlockAt(e, hdr, bs, i) {
      assert BlockAt(d, hdr, blocks, i + 1);
      assert Head(bs, i + 1) == Head(blocks, i + 2);
      BlockKept(d, e, hdr, blocks, i + 1, bs, i);
    }
  }

  lemma DropRegions(top: nat, hi: nat, cells: seq<Region>, blocks: seq<Region>)
    requires Regions(top, hi, cells, blocks, |blocks|) && blocks != [] && blocks[0].start == top
    ensures Regions(blocks[0].End(), hi, cells, blocks[1..], |blocks| - 1)
  {
    var bs := blocks[1..];
    forall i | 0 <= i < |cells| ensures Inside(cells[i], blocks[0].End(), hi) {
      assert Disjoint(cells[i], blocks[0]) && Inside(cells[i], top, hi);
    }
    forall i | 0 <= i < |bs| ensures Inside(bs[i], blocks[0].End(), hi) {
      assert bs[i] == blocks[i + 1] && Spaced(blocks, |blocks|, 0, i + 1) && Inside(blocks[i + 1], top, hi);
    }
    forall i, m | 0 <= i < |cells| && 0 <= m < |bs| ensures Disjoint(cells[i], bs[m]) {
      assert bs[m] == blocks[m + 1];
    }
    forall a: nat, b: nat | a < b < |bs| ensures Spaced(bs, |bs|, a, b) {
      assert Spaced(blocks, |blocks|, a + 1, b + 1);
    }
  }

  // ---------------------------------------------------------------------
  // The three ways allocateSpace finds room
  // ---------------------------------------------------------------------

  /** A new cell r inside freeblock j, which shrinks to its first `left` bytes or
      goes away (left == 0, and then up to three bytes of it become fragments). */
  lemma CarveRegions(top: nat, hi: nat, cells: seq<Region>, blocks: seq<Region>, j: nat, r: Region, bs: seq<Region>)
    requires Regions(top, hi, cells, blocks, |blocks|) && j < |blocks| && r.size >= 4
    requires Inside(r, blocks[j].start, blocks[j].End())
    requires
      || bs == Remove(blocks, j)
      || (r.start >= blocks[j].start + 4 && bs == blocks[j := Region(blocks[j].start, r.start - blocks[j].start)])
    ensures Regions(top, hi, cells + [r], bs, |bs|)
  {
    var cs := cells + [r];
    var shift := if bs == Remove(blocks, j) then 1 else 0;
    assert Inside(blocks[j], top, hi);
    forall m | 0 <= m < |bs| ensures Inside(bs[m], top, hi) && bs[m].size >= 4 && Disjoint(r, bs[m]) {
      var m' := if m < j then m else m + shift;
      assert m' != j ==> bs[m] == blocks[m'];
      if m' < j { assert Spaced(blocks, |blocks|, m', j); }
      if m' > j { assert Spaced(blocks, |blocks|, j, m'); }
    }
    forall i, m | 0 <= i < |cs| && 0 <= m < |bs| ensures Disjoint(cs[i], bs[m]) {
      var m' := if m < j then m else m + shift;
      assert m' != j ==> bs[m] == blocks[m'];
      if i < |cells| { assert Disjoint(cells[i], blocks[m']); }
    }
    forall i | 0 <= i < |cells| ensures Disjoint(cells[i], r) { assert Disjoint(cells[i], blocks[j]); }
    forall a: nat, b: nat | a < b < |bs| ensures Spaced(bs, |bs|, a, b) {
      var a', b' := if a < j then a else a + shift, if b < j then b else b + shift;
      assert Spaced(blocks, |blocks|, a', b');
    }
  }

  /** The freeblock is used whole: unlink it, count what is left as fragments. */
  lemma TakeBlock(d: seq<Byte>, e: seq<Byte>, hdr: nat, cells: seq<Region>, blocks: seq<Region>, j: nat, n: nat)
    requires Space(d, hdr, cells, blocks, |blocks|) && j < |blocks|
    requires 4 <= n <= blocks[j].size < n + 4
    requires Link(hdr, blocks, j) + 1 < |d|
    requires KeptBut(d, e, hdr + 7, 1, Link(hdr, blocks, j), 2)
    requires Get2(e, Link(hdr, blocks, j)) == Head(blocks, j + 1)
    requires e[hdr + 7] as int == d[hdr + 7] + (blocks[j].size - n)
    ensures Space(e, hdr, cells + [Region(blocks[j].start, n)], Remove(blocks, j), |Remove(blocks, j)|)
    ensures Frame(d, e, hdr, Get2(d, hdr + 5), cells) && Get2(e, hdr + 5) == Get2(d, hdr + 5)
    ensures Total(Remove(blocks, j)) == Total(blocks) - blocks[j].size
  {
    var top, bs, r := Get2(d, hdr + 5), Remove(blocks, j), Region(blocks[j].start, n);
    TakeBlockFrame(d, e, hdr, cells, blocks, j);
    CarveRegions(top, |d|, cells, blocks, j, r, bs);
    TotalRemove(blocks, j);
    assert e[hdr + 7] as int == |e| - top - Total(cells + [r]) - Total(bs) by { TotalPlus(cells, r); }
  }

  lemma TotalPlus(cells: seq<Region>, r: Region)
    ensures Total(cells + [r]) == Total(cells) + r.size
  {
    TotalConcat(cells, [r]);
    TotalOne(r);
  }

  /** Unlinking a freeblock changes nothing else. */
  lemma TakeBlockFrame(d: seq<Byte>, e: seq<Byte>, hdr: nat, cells: seq<Region>, blocks: seq<Region>, j: nat)
    requires Space(d, hdr, cells, blocks, |blocks|) && j < |blocks| && Link(hdr, blocks, j) + 1 < |d|
    requires KeptBut(d, e, hdr + 7, 1, Link(hdr, blocks, j), 2) && Get2(e, Link(hdr, blocks, j)) == Head(blocks, j + 1)
    ensures |e| == |d| && Chain(e, hdr, Remove(blocks, j))
    ensures Frame(d, e, hdr, Get2(d, hdr + 5), cells) && Get2(e, hdr + 5) == Get2(d, hdr + 5)
  {
    var top := Get2(d, hdr + 5);
    LinkMayChange(hdr, top, |d|, cells, blocks, j);
    CellsKept(d, e, hdr, top, cells, hdr + 7, 1, Link(hdr, blocks, j), 2);
    Get2Same(d, e, hdr + 5);
    UnlinkChain(d, e, hdr, top, blocks, j);
  }

  lemma LinkMayChange(hdr: nat, top: nat, hi: nat, cells: seq<Region>, blocks: seq<Region>, j: nat)
    requires hdr + 8 <= top && Regions(top, hi, cells, blocks, |blocks|) && j <= |blocks|
    ensures MayChange(Region(Link(hdr, blocks, j), 2), hdr, top, cells)
    ensures j == 0 || top <= Link(hdr, blocks, j)
  {
    if 0 < j {
      assert Inside(blocks[j - 1], top, hi);
      forall i | 0 <= i < |cells| ensures Disjoint(cells[i], Region(Link(hdr, blocks, j), 2)) {
        assert Disjoint(cells[i], blocks[j - 1]);
      }
    }
  }

  lemma UnlinkChain(d: seq<Byte>, e: seq<Byte>, hdr: nat, top: nat, blocks: seq<Region>, j: nat)
    requires hdr + 8 <= top <= |d| <= 0x8000 && Chain(d, hdr, blocks) && Ascending(blocks, |blocks|) && j < |blocks|
    requires AllInside(blocks, top, |d|)
    requires Link(hdr, blocks, j) + 1 < |d|
    requires KeptBut(d, e, hdr + 7, 1, Link(hdr, blocks, j), 2)
    requires Get2(e, Link(hdr, blocks, j)) == Head(blocks, j + 1)
    ensures Chain(e, hdr, Remove(blocks, j))
  {
    var bs := Remove(blocks, j);
    if 0 < j {
      assert BlockAt(d, hdr, blocks, j - 1) && Inside(blocks[j - 1], top, |d|);
      Get2Same(d, e, blocks[j - 1].start + 2);
      Get2Same(d, e, hdr + 1);
    }
    forall i: nat | i < |bs| ensures BlockAt(e, hdr, bs, i) {
      var i' := if i < j then i else i + 1;
      assert bs[i] == blocks[i'] && BlockAt(d, hdr, blocks, i') && Inside(blocks[i'], top, |d|);
      assert Head(bs, i + 1) == Head(blocks, if i + 1 < j then i + 1 else i + 2);
      if i + 1 != j {
        if 0 < j { assert if i' < j - 1 then Spaced(blocks, |blocks|, i', j - 1) else Spaced(blocks, |blocks|, j - 1, i'); }
        BlockKept(d, e, hdr, blocks, i', bs, i);
      }
    }
  }

  /** The freeblock is bigger than needed: its tail becomes the cell. */
  lemma TakeTail(d: seq<Byte>, e: seq<Byte>, hdr: nat, cells: seq<Region>, blocks: seq<Region>, j: nat, n: nat)
    requires Space(d, hdr, cells, blocks, |blocks|) && j < |blocks|
    requires 4 <= n && n + 4 <= blocks[j].size && blocks[j].start + 3 < |d|
    requires KeptBut(d, e, blocks[j].start + 2, 2, blocks[j].start + 2, 2)
    requires Get2(e, blocks[j].start + 2) == blocks[j].size - n
    ensures var left := Region(blocks[j].start, blocks[j].size - n);
      && Space(e, hdr, cells + [Region(left.End(), n)], blocks[j := left], |blocks|)
      && Total(blocks[j := left]) == Total(blocks) - n
    ensures Frame(d, e, hdr, Get2(d, hdr + 5), cells) && Get2(e, hdr + 5) == Get2(d, hdr + 5)
  {
    var top, left := Get2(d, hdr + 5), Region(blocks[j].start, blocks[j].size - n);
    var bs, r := blocks[j := left], Region(left.End(), n);
    CarveRegions(top, |d|, cells, blocks, j, r, bs);
    TotalUpdate(blocks, j, left);
    TotalConcat(cells, [r]);
    assert Inside(blocks[j], top, |d|) && forall i | 0 <= i < |cells| :: Disjoint(cells[i], blocks[j]);
    CellsKept(d, e, hdr, top, cells, left.start + 2, 2, left.start + 2, 2);
    Get2Same(d, e, hdr + 5);
    ShrinkChain(d, e, hdr, top, blocks, j, left);
  }

  lemma ShrinkChain(d: seq<Byte>, e: seq<Byte>, hdr: nat, top: nat, blocks: seq<Region>, j: nat, left: Region)
    requires hdr + 8 <= top <= |d| <= 0x8000 && Chain(d, hdr, blocks) && Ascending(blocks, |blocks|) && j < |blocks|
    requires AllInside(blocks, top, |d|)
    requires left.start == blocks[j].start && 4 <= left.size <= blocks[j].size && left.start + 3 < |d|
    requires KeptBut(d, e, left.start + 2, 2, left.start + 2, 2) && Get2(e, left.start + 2) == left.size
    ensures Chain(e, hdr, blocks[j := left])
  {
    var bs := blocks[j := left];
    assert BlockAt(d, hdr, blocks, j) && Inside(blocks[j], top, |d|);
    Get2Same(d, e, left.start);
    Get2Same(d, e, hdr + 1);
    forall i: nat | i < |bs| ensures BlockAt(e, hdr, bs, i) {
      assert Head(bs, i + 1) == Head(blocks, i + 1) && BlockAt(d, hdr, blocks, i);
      if i != j {
        assert if i < j then Spaced(blocks, |blocks|, i, j) else Spaced(blocks, |blocks|, j, i);
        BlockKept(d, e, hdr, blocks, i, bs, i);
      }
    }
  }

  /** Room from the gap: the content area grows downward by n bytes. */
  lemma TakeGap(d: seq<Byte>, e: seq<Byte>, hdr: nat, cells: seq<Region>, blocks: seq<Region>, n: nat)
    requires Space(d, hdr, cells, blocks, |blocks|) && 4 <= n && hdr + 8 + n <= Get2(d, hdr + 5)
    requires KeptBut(d, e, hdr + 5, 2, hdr + 5, 2)
    requires Get2(e, hdr + 5) == Get2(d, hdr + 5) - n
    ensures Space(e, hdr, cells + [Region(Get2(d, hdr + 5) - n, n)], blocks, |blocks|)
    ensures Frame(d, e, hdr, Get2(d, hdr + 5), cells) && e[hdr + 7] == d[hdr + 7]
  {
    var top := Get2(d, hdr + 5);
    var r := Region(top - n, n);
    TotalConcat(cells, [r]);
    CellsKept(d, e, hdr, top, cells, hdr + 5, 2, hdr + 5, 2);
    Get2Same(d, e, hdr + 1);
    GapRegions(top, |d|, cells, blocks, r);
    forall i: nat | i < |blocks| ensures BlockAt(e, hdr, blocks, i) {
      assert BlockAt(d, hdr, blocks, i) && Inside(blocks[i], top, |d|);
      BlockKept(d, e, hdr, blocks, i, blocks, i);
    }
  }

  lemma GapRegions(top: nat, hi: nat, cells: seq<Region>, blocks: seq<Region>, r: Region)
    requires Regions(top, hi, cells, blocks, |blocks|) && r.End() == top <= hi && r.size >= 4
    ensures Regions(r.start, hi, cells + [r], blocks, |blocks|)
  {
    forall i | 0 <= i < |cells| ensures Disjoint(cells[i], r) && Inside(cells[i], r.start, hi) {
      assert Inside(cells[i], top, hi);
    }
    forall i | 0 <= i < |blocks| ensures Disjoint(r, blocks[i]) && Inside(blocks[i], r.start, hi) {
      assert Inside(blocks[i], top, hi);
    }
  }

  lemma FrameTrans(d: seq<Byte>, e: seq<Byte>, f: seq<Byte>, hdr: nat, end: nat, cells: seq<Region>)
    requires Frame(d, e, hdr, end, cells) && Frame(e, f, hdr, end, cells)
    ensures Frame(d, f, hdr, end, cells)
  {
  }

  /** Only the spacing of the first n freeblocks is at stake in n. */
  lemma SpaceSpacing(d: seq<Byte>, hdr: nat, cells: seq<Region>, blocks: seq<Region>, n: nat, n': nat)
    requires Space(d, hdr, cells, blocks, n) && (n' <= n || n' <= 1)
    ensures Space(d, hdr, cells, blocks, n')
  {
    forall a: nat, b: nat | a < b < |blocks| ensures Spaced(blocks, n', a, b) {
      assert Spaced(blocks, n, a, b);
    }
  }

  /** Freeblocks j and j+1 keep their distance: one more is in order. */
  lemma SpacingMore(d: seq<Byte>, hdr: nat, cells: seq<Region>, blocks: seq<Region>, j: nat)
    requires Space(d, hdr, cells, blocks, j + 1) && j < |blocks|
    requires j + 1 < |blocks| ==> blocks[j].End() + 4 <= blocks[j + 1].start
    ensures Space(d, hdr, cells, blocks, j + 2)
  {
    var n := j + 2;
    forall a: nat, b: nat | a < b < |blocks| ensures Spaced(blocks, n, a, b) {
      assert Spaced(blocks, j + 1, a, b);
      if b == j + 1 && a < j { assert Spaced(blocks, j + 1, a, j); }
    }
  }

  /** What a walk along the chain reads in front of freeblock j. */
  lemma ReadLink(d: seq<Byte>, hdr: nat, blocks: seq<Region>, j: nat)
    requires hdr + 8 <= |d| <= 0x8000 && Chain(d, hdr, blocks) && j <= |blocks|
    ensures Link(hdr, blocks, j) + 1 < |d| && Get2(d, Link(hdr, blocks, j)) == Head(blocks, j)
    ensures Head(blocks, j) == 0 <==> j == |blocks|
  {
    if 0 < j { assert BlockAt(d, hdr, blocks, j - 1); }
    if j < |blocks| { assert BlockAt(d, hdr, blocks, j); }
  }

  /** What a walk along the chain reads at freeblock j. */
  lemma ReadBlock(d: seq<Byte>, hdr: nat, blocks: seq<Region>, j: nat)
    requires hdr + 8 <= |d| <= 0x8000 && Chain(d, hdr, blocks) && j < |blocks|
    ensures hdr + 8 <= blocks[j].start && blocks[j].End() <= |d| && blocks[j].size >= 4
    ensures Get2(d, blocks[j].start) == Head(blocks, j + 1) && Get2(d, blocks[j].start + 2) == blocks[j].size
    ensures Head(blocks, j + 1) == 0 <==> j + 1 == |blocks|
  {
    assert BlockAt(d, hdr, blocks, j);
    if j + 1 < |blocks| { assert BlockAt(d, hdr, blocks, j + 1); }
  }

  /** Where the walk that merges freeblocks stands: the first j + 1 of them are
      spaced, all that has changed since d0 is the chain, and fragments and
      freeblocks together are the s bytes they were. */
  ghost predicate Merging(d0: seq<Byte>, d: seq<Byte>, hdr: nat, cells: seq<Region>, blocks: seq<Region>, j: nat, top: nat, s: int) {
    && j <= |blocks| && Space(d, hdr, cells, blocks, j + 1)
    && Get2(d, hdr + 5) == top && Frame(d0, d, hdr, top, cells)
    && d[hdr + 7] as int + Total(blocks) == s
  }

  /** What freeSpace reads when freeblocks j and j+1 are less than 4 bytes apart. */
  lemma MergeFacts(d: seq<Byte>, hdr: nat, cells: seq<Region>, blocks: seq<Region>, j: nat)
    requires Space(d, hdr, cells, blocks, j + 1) && j + 1 < |blocks|
    requires blocks[j + 1].start <= blocks[j].End() + 3
    ensures blocks[j].End() <= blocks[j + 1].start && blocks[j + 1].start - blocks[j].End() <= d[hdr + 7] as int
    ensures hdr + 8 <= blocks[j].start && blocks[j].start + 3 < |d| && Head(blocks, j + 2) < 0x10000
    ensures blocks[j + 1].start + 3 < |d| && blocks[j + 1].End() - blocks[j].start < 0x10000
    ensures Get2(d, blocks[j + 1].start) == Head(blocks, j + 2) && Get2(d, blocks[j + 1].start + 2) == blocks[j + 1].size
  {
    ReadBlock(d, hdr, blocks, j);
    ReadBlock(d, hdr, blocks, j + 1);
    if j + 2 < |blocks| { ReadBlock(d, hdr, blocks, j + 2); }
    SmallGapIsFragments(d, hdr, cells, blocks, j);
  }

  lemma MergeStep(d0: seq<Byte>, d: seq<Byte>, e: seq<Byte>, hdr: nat, cells: seq<Region>, blocks: seq<Region>, j: nat, top: nat, s: int)
    requires Merging(d0, d, hdr, cells, blocks, j, top, s) && j + 1 < |blocks|
    requires blocks[j].End() <= blocks[j + 1].start <= blocks[j].End() + 3 && blocks[j].start + 3 < |d|
    requires KeptBut(d, e, hdr + 7, 1, blocks[j].start, 4)
    requires Get2(e, blocks[j].start) == Head(blocks, j + 2)
    requires Get2(e, blocks[j].start + 2) == blocks[j + 1].End() - blocks[j].start
    requires e[hdr + 7] as int == d[hdr + 7] - (blocks[j + 1].start - blocks[j].End())
    ensures Merging(d0, e, hdr, cells, Merge(blocks, j), j, top, s)
  {
    Coalesce(d, e, hdr, cells, blocks, j);
    FrameTrans(d0, d, e, hdr, top, cells);
  }

  lemma MergeSkip(d0: seq<Byte>, d: seq<Byte>, hdr: nat, cells: seq<Region>, blocks: seq<Region>, j: nat, top: nat, s: int)
    requires Merging(d0, d, hdr, cells, blocks, j, top, s) && j < |blocks|
    requires j + 1 < |blocks| ==> blocks[j].End() + 3 < blocks[j + 1].start
    ensures Merging(d0, d, hdr, cells, blocks, j + 1, top, s)
  {
    SpacingMore(d, hdr, cells, blocks, j);
  }

  /** The last step of freeSpace from page d to page e: a freeblock at the start
      of the content area, if there is one, is now part of the gap. */
  ghost predicate Released(d: seq<Byte>, e: seq<Byte>, hdr: nat) {
    && hdr + 7 < |d| && |e| == |d|
    && var pbegin := Get2(d, hdr + 1);
    if pbegin == Get2(d, hdr + 5) then
      && pbegin + 3 < |d| && KeptBut(d, e, hdr + 1, 2, hdr + 5, 2)
      && Get2(e, hdr + 1) == Get2(d, pbegin) && Get2(e, hdr + 5) == pbegin + Get2(d, pbegin + 2)
    else e == d
  }

  lemma ReleaseFacts(d: seq<Byte>, hdr: nat, cells: seq<Region>, blocks: seq<Region>)
    requires Space(d, hdr, cells, blocks, |blocks|) && Get2(d, hdr + 1) == Get2(d, hdr + 5)
    ensures blocks != [] && hdr + 8 <= Get2(d, hdr + 1) && Get2(d, hdr + 1) + 3 < |d|
    ensures Get2(d, hdr + 1) + Get2(d, Get2(d, hdr + 1) + 2) < 0x10000
  {
    ReadBlock(d, hdr, blocks, 0);
  }

  lemma ReleaseStep(d0: seq<Byte>, d: seq<Byte>, e: seq<Byte>, hdr: nat, cells: seq<Region>, blocks: seq<Region>, bs: seq<Region>)
    requires Space(d, hdr, cells, blocks, |blocks|) && Frame(d0, d, hdr, Get2(d, hdr + 5), cells)
    requires Released(d, e, hdr)
    requires bs == if Get2(d, hdr + 1) == Get2(d, hdr + 5) && blocks != [] then blocks[1..] else blocks
    ensures Space(e, hdr, cells, bs, |bs|) && Frame(d0, e, hdr, Get2(d, hdr + 5), cells)
    ensures Get2(d, hdr + 5) <= Get2(e, hdr + 5)
    ensures e[hdr + 7] as int + Get2(e, hdr + 5) + Total(bs) == d[hdr + 7] as int + Get2(d, hdr + 5) + Total(blocks)
  {
    if Get2(d, hdr + 1) == Get2(d, hdr + 5) {
      ReadBlock(d, hdr, blocks, 0);
      DropFirst(d, e, hdr, cells, blocks);
      FrameTrans(d0, d, e, hdr, Get2(d, hdr + 5), cells);
    }
  }

  // ---------------------------------------------------------------------
  // Changes that leave the content area's bookkeeping alone
  // ---------------------------------------------------------------------

  /** The header fields and freeblocks that make up the free-space bookkeeping
      have the same bytes in d and e. */
  ghost predicate SameSpace(d: seq<Byte>, e: seq<Byte>, hdr: nat, blocks: seq<Region>) {
    && |e| == |d| && hdr + 8 <= |d|
    && (forall x | hdr < x < hdr + 8 && x != hdr + 3 && x != hdr + 4 :: e[x] == d[x])
    && (forall i {:trigger Slice(e, blocks[i])} | 0 <= i < |blocks| :: Slice(e, blocks[i]) == Slice(d, blocks[i]))
  }

  lemma SpaceStable(d: seq<Byte>, e: seq<Byte>, hdr: nat, cells: seq<Region>, blocks: seq<Region>)
    requires Space(d, hdr, cells, blocks, |blocks|) && SameSpace(d, e, hdr, blocks)
    ensures Space(e, hdr, cells, blocks, |blocks|) && Get2(e, hdr + 5) == Get2(d, hdr + 5)
    ensures e[hdr + 7] == d[hdr + 7]
  {
    Get2Same(d, e, hdr + 1);
    Get2Same(d, e, hdr + 5);
    assert Chain(e, hdr, blocks) by {
      forall i: nat | i < |blocks| ensures BlockAt(e, hdr, blocks, i) {
        ReadBlock(d, hdr, blocks, i);
        assert Slice(e, blocks[i]) == Slice(d, blocks[i]);
        HeadSame(d, e, blocks[i]);
      }
    }
  }

  lemma HeadSame(d: seq<Byte>, e: seq<Byte>, r: Region)
    requires |d| == |e| && r.End() <= |d| && r.size >= 4 && Slice(e, r) == Slice(d, r)
    ensures Get2(e, r.start) == Get2(d, r.start) && Get2(e, r.start + 2) == Get2(d, r.start + 2)
  {
    var s, t := Slice(d, r), Slice(e, r);
    assert s[0] == t[0] && s[1] == t[1] && s[2] == t[2] && s[3] == t[3];
  }

  /** The cells may be listed in any order: here the last one moves to place i. */
  lemma SpaceReorder(d: seq<Byte>, hdr: nat, cells: seq<Region>, blocks: seq<Region>, i: nat, r: Region)
    requires Space(d, hdr, cells + [r], blocks, |blocks|) && i <= |cells|
    ensures Space(d, hdr, Insert(cells, i, r), blocks, |blocks|)
    ensures Total(Insert(cells, i, r)) == Total(cells + [r])
  {
    var C, N := cells + [r], Insert(cells, i, r);
    TotalInsert(cells, i, r);
    TotalConcat(cells, [r]);
    TotalOne(r);
    ReorderRegions(Get2(d, hdr + 5), |d|, cells, blocks, i, r);
  }

  lemma ReorderRegions(top: nat, hi: nat, cells: seq<Region>, blocks: seq<Region>, i: nat, r: Region)
    requires Regions(top, hi, cells + [r], blocks, |blocks|) && i <= |cells|
    ensures Regions(top, hi, Insert(cells, i, r), blocks, |blocks|)
  {
    var C, N := cells + [r], Insert(cells, i, r);
    forall a: nat | a < |N| ensures Inside(N[a], top, hi) && N[a].size >= 4 {
      assert N[a] == C[Unsorted(a, i, |cells|)];
      assert Inside(C[Unsorted(a, i, |cells|)], top, hi);
    }
    forall a: nat, b: nat | a < |N| && b < |blocks| ensures Disjoint(N[a], blocks[b]) {
      assert N[a] == C[Unsorted(a, i, |cells|)];
      assert Disjoint(C[Unsorted(a, i, |cells|)], blocks[b]);
    }
    forall a: nat, b: nat | a < b < |N| ensures Disjoint(N[a], N[b]) {
      var a', b' := Unsorted(a, i, |cells|), Unsorted(b, i, |cells|);
      assert N[a] == C[a'] && N[b] == C[b'];
      if a' < b' { assert Disjoint(C[a'], C[b']); } else { assert Disjoint(C[b'], C[a']); }
    }
  }

  /** Where the a-th entry of Insert(s, i, x) is in s + [x]; n is |s|. */
  function Unsorted(a: nat, i: nat, n: nat): nat {
    if a < i then a else if a == i then n else a - 1
  }
}
