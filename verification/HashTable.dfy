/** The hash table: all elements are on one doubly linked list, and the elements of a
    bucket are one run of it (hash.c:24-66, 186-423). */
module HashTable {
  import opened Division

  /** Where an element is in memory; 0 is the null pointer. */
  type Ptr = nat

  /** A key: which key it is to the comparison function, and how it is spelled. */
  datatype Key = Key(id: nat, spelling: nat)

  /** 0 stands for no data. */
  type Data = nat

  datatype Elem = Elem(next: Ptr, prev: Ptr, data: Data, key: Key)

  datatype Bucket = Bucket(count: nat, chain: Ptr)

  type Heap = map<Ptr, Elem>

  // ---------------------------------------------------------------------
  // The list
  // ---------------------------------------------------------------------

  function At(list: seq<Ptr>, i: int): Ptr {
    if 0 <= i < |list| then list[i] else 0
  }

  predicate LinkAt(h: Heap, list: seq<Ptr>, i: nat) {
    i < |list| && list[i] != 0 && list[i] in h && h[list[i]].next == At(list, i + 1) && h[list[i]].prev == At(list, i - 1)
  }

  predicate Differ(list: seq<Ptr>, i: nat, j: nat) {
    i < |list| && j < |list| && list[i] != list[j]
  }

  ghost predicate Distinct(list: seq<Ptr>) {
    forall i: nat, j: nat | i < |list| && j < |list| && i != j :: Differ(list, i, j)
  }

  ghost predicate Linked(h: Heap, first: Ptr, list: seq<Ptr>) {
    first == At(list, 0) && Distinct(list) && forall i: nat | i < |list| :: LinkAt(h, list, i)
  }

  /** Only links differ. */
  ghost predicate SameEntries(h: Heap, g: Heap) {
    g.Keys == h.Keys && forall p | p in h :: g[p].data == h[p].data && g[p].key == h[p].key
  }

  function Put(list: seq<Ptr>, s: nat, p: Ptr): (r: seq<Ptr>)
    requires s <= |list|
    ensures |r| == |list| + 1 && forall i: nat | i < |r| :: r[i] == if i < s then list[i] else if i == s then p else list[i - 1]
  {
    list[..s] + [p] + list[s..]
  }

  function Drop(list: seq<Ptr>, s: nat): (r: seq<Ptr>)
    requires s < |list|
    ensures |r| == |list| - 1 && forall i: nat | i < |r| :: r[i] == if i < s then list[i] else list[i + 1]
  {
    list[..s] + list[s + 1..]
  }

  /** Element i of the list, after p was linked in before place s. */
  predicate Relinked(h0: Heap, h: Heap, list: seq<Ptr>, s: nat, p: Ptr, i: nat)
    requires i < |list|
  {
    && list[i] in h0 && list[i] in h
    && h[list[i]].next == (if i + 1 == s then p else h0[list[i]].next)
    && h[list[i]].prev == (if i == s then p else h0[list[i]].prev)
  }

  lemma PutLinked(h0: Heap, first0: Ptr, h: Heap, first: Ptr, p: Ptr, list: seq<Ptr>, s: nat)
    requires Linked(h0, first0, list) && s <= |list| && p != 0 && p !in list && p in h
    requires first == if s == 0 then p else first0
    requires h[p].next == At(list, s) && h[p].prev == At(list, s - 1)
    requires forall i: nat | i < |list| :: Relinked(h0, h, list, s, p, i)
    ensures Linked(h, first, Put(list, s, p))
  {
    var r := Put(list, s, p);
    forall i: nat, j: nat | i < |r| && j < |r| && i != j ensures Differ(r, i, j) {
      if i != s && j != s { assert Differ(list, if i < s then i else i - 1, if j < s then j else j - 1); }
    }
    forall i: nat | i < |r| ensures LinkAt(h, r, i) {
      if i != s {
        var a: nat := if i < s then i else i - 1;
        assert LinkAt(h0, list, a) && Relinked(h0, h, list, s, p, a);
      }
    }
  }

  /** insertElement, as far as the list goes: a new element before place s. */
  method LinkIn(h0: Heap, first0: Ptr, p: Ptr, pHead: Ptr, ghost list: seq<Ptr>, ghost s: nat) returns (h: Heap, first: Ptr)
    requires Linked(h0, first0, list) && s <= |list| && (if pHead != 0 then pHead == At(list, s) else s == 0)
    requires p != 0 && p in h0 && p !in list
    ensures Linked(h, first, Put(list, s, p)) && SameEntries(h0, h)
    ensures forall q | q in h0 && q != p && q !in list :: h[q] == h0[q]
  {
    h, first := h0, first0;
    if pHead != 0 {
      assert LinkAt(h0, list, s);
      if s > 0 { assert LinkAt(h0, list, s - 1) && Differ(list, s - 1, s); }
      var before := h[pHead].prev;
      h := h[p := h[p].(next := pHead, prev := before)];
      if before != 0 {
        h := h[before := h[before].(next := p)];
      } else {
        first := p;
      }
      h := h[pHead := h[pHead].(prev := p)];
    } else {
      h := h[p := h[p].(next := first, prev := 0)];
      if first != 0 {
        assert LinkAt(h0, list, 0);
        h := h[first := h[first].(prev := p)];
      }
      first := p;
    }
    forall i: nat | i < |list| ensures Relinked(h0, h, list, s, p, i) {
      assert LinkAt(h0, list, i);
      if s < |list| && i != s { assert Differ(list, i, s); }
      if s > 0 && i + 1 != s { assert Differ(list, i, s - 1); }
    }
    PutLinked(h0, first0, h, first, p, list, s);
  }

  /** removeElementGivenHash, as far as the list goes. */
  method LinkOut(h0: Heap, first0: Ptr, p: Ptr, ghost list: seq<Ptr>, ghost s: nat) returns (h: Heap, first: Ptr)
    requires Linked(h0, first0, list) && s < |list| && list[s] == p
    ensures Linked(h, first, Drop(list, s)) && SameEntries(h0, h) && p in h0 && h[p] == h0[p]
    ensures forall q | q in h0 && q !in list :: h[q] == h0[q]
  {
    h, first := h0, first0;
    assert LinkAt(h0, list, s);
    if s > 0 { assert LinkAt(h0, list, s - 1) && Differ(list, s - 1, s); }
    if s + 1 < |list| { assert LinkAt(h0, list, s + 1) && Differ(list, s + 1, s); }
    if s > 0 && s + 1 < |list| { assert Differ(list, s - 1, s + 1); }
    var e := h[p];
    if e.prev != 0 { h := h[e.prev := h[e.prev].(next := e.next)]; } else { first := e.next; }
    if e.next != 0 { h := h[e.next := h[e.next].(prev := e.prev)]; }
    forall i: nat | i < |list| && i != s ensures Unlinked(h0, h, list, s, i) {
      assert LinkAt(h0, list, i) && Differ(list, i, s);
      if s > 0 && i + 1 != s { assert Differ(list, i, s - 1); }
      if s + 1 < |list| && i != s + 1 { assert Differ(list, i, s + 1); }
    }
    DropLinked(h0, first0, h, first, list, s);
  }

  predicate Unlinked(h0: Heap, h: Heap, list: seq<Ptr>, s: nat, i: nat)
    requires i < |list|
  {
    && list[i] in h0 && list[i] in h
    && h[list[i]].next == (if i + 1 == s then At(list, s + 1) else h0[list[i]].next)
    && h[list[i]].prev == (if i == s + 1 then At(list, s - 1) else h0[list[i]].prev)
  }

  lemma DropLinked(h0: Heap, first0: Ptr, h: Heap, first: Ptr, list: seq<Ptr>, s: nat)
    requires Linked(h0, first0, list) && s < |list| && first == (if s == 0 then At(list, 1) else first0)
    requires forall i: nat | i < |list| && i != s :: Unlinked(h0, h, list, s, i)
    ensures Linked(h, first, Drop(list, s))
  {
    var r := Drop(list, s);
    forall i: nat, j: nat | i < |r| && j < |r| && i != j ensures Differ(r, i, j) {
      assert Differ(list, if i < s then i else i + 1, if j < s then j else j + 1);
    }
    forall i: nat | i < |r| ensures LinkAt(h, r, i) {
      var a: nat := if i < s then i else i + 1;
      assert LinkAt(h0, list, a) && Unlinked(h0, h, list, s, a);
    }
  }

  // ---------------------------------------------------------------------
  // Buckets
  // ---------------------------------------------------------------------

  /** The bucket of a key, of n. */
  function Place(xHash: nat -> nat, n: nat, k: Key): (b: nat)
    requires n > 0
    ensures b < n
  {
    xHash(k.id) % n
  }

  /** The sizes a table takes: doubled from the first one, which is that for pointers
      of 4 bytes. */
  predicate Size(n: nat) {
    n == 0 || n == FIRST_SIZE || (n > FIRST_SIZE && n % 2 == 0 && Size(n / 2))
  }

  const FIRST_SIZE: nat := 16

  /** a & b. */
  function BitAnd(a: nat, b: nat): nat {
    if a == 0 || b == 0 then 0 else (if a % 2 == 1 && b % 2 == 1 then 1 else 0) + 2 * BitAnd(a / 2, b / 2)
  }

  predicate PowerOfTwo(n: nat) {
    n == 1 || (n > 1 && n % 2 == 0 && PowerOfTwo(n / 2))
  }

  lemma {:induction false} SizePower(n: nat)
    requires Size(n) && n > 0
    ensures PowerOfTwo(n)
  {
    if n > 16 {
      SizePower(n / 2);
    } else {
      assert PowerOfTwo(2) && PowerOfTwo(4);
      assert PowerOfTwo(8);
    }
  }

  lemma {:induction false} TimesDouble(q: nat, m: nat)
    ensures Times(q, 2 * m) == 2 * Times(q, m)
  {
    if q > 0 { TimesDouble(q - 1, m); }
  }

  /** With a power of two, all bits below it are the remainder. */
  lemma {:induction false} MaskIsRem(h: nat, n: nat)
    requires PowerOfTwo(n)
    ensures BitAnd(h, n - 1) == Rem(h, n)
    decreases n
  {
    if n > 1 {
      var m := n / 2;
      MaskIsRem(h / 2, m);
      var q, s := Quot(h / 2, m), Rem(h / 2, m);
      TimesQuot(h / 2, m);
      TimesDouble(q, m);
      QuotTimes(q, 2 * s + h % 2, n);
      assert (n - 1) % 2 == 1 && (n - 1) / 2 == m - 1;
      HalfMask(h, n, m);
    }
  }

  lemma HalfMask(h: nat, n: nat, m: nat)
    requires n == 2 * m && m > 0
    ensures BitAnd(h, n - 1) == h % 2 + 2 * BitAnd(h / 2, m - 1)
  {
    assert (n - 1) % 2 == 1 && (n - 1) / 2 == m - 1;
  }

  /** The bucket as rehash computes it. */
  function Masked(xHash: nat -> nat, n: nat, k: Key): nat
    requires n > 0
  {
    BitAnd(xHash(k.id), n - 1)
  }

  lemma MaskedPlace(xHash: nat -> nat, n: nat, k: Key)
    requires Size(n) && n > 0
    ensures Masked(xHash, n, k) == Place(xHash, n, k)
  {
    SizePower(n);
    MaskIsRem(xHash(k.id), n);
    DivIsQuot(xHash(k.id), n);
  }

  function BucketOf(h: Heap, xHash: nat -> nat, n: nat, p: Ptr): nat {
    if n > 0 && p in h then Place(xHash, n, h[p].key) else n
  }

  /** The elements of bucket b are the run of its length from place s, and chain is
      the first of them. */
  ghost predicate RunAt(h: Heap, xHash: nat -> nat, n: nat, list: seq<Ptr>, e: Bucket, s: nat, b: nat) {
    && s + e.count <= |list| && e.chain == (if e.count > 0 then list[s] else 0)
    && forall j: nat | j < |list| :: (s <= j < s + e.count) <==> BucketOf(h, xHash, n, list[j]) == b
  }

  ghost predicate Runs(h: Heap, xHash: nat -> nat, ht: seq<Bucket>, list: seq<Ptr>, start: seq<nat>) {
    |start| == |ht| && forall b: nat | b < |ht| :: RunAt(h, xHash, |ht|, list, ht[b], start[b], b)
  }

  /** Where the run of bucket c begins after an element was put in at place s. */
  function Shifted(e: Bucket, start: nat, s: nat): nat {
    if e.count > 0 && start >= s then start + 1 else start
  }

  lemma RunPut(h0: Heap, h: Heap, xHash: nat -> nat, n: nat, list: seq<Ptr>, e: Bucket, at: nat, c: nat, p: Ptr, s: nat)
    requires s <= |list| && RunAt(h0, xHash, n, list, e, at, c) && BucketOf(h, xHash, n, p) != c && SameEntries(h0, h)
    requires s == 0 || (s < |list| && BucketOf(h0, xHash, n, list[s]) != c)
    ensures RunAt(h, xHash, n, Put(list, s, p), e, Shifted(e, at, s), c)
  {
    var r := Put(list, s, p);
    var to := Shifted(e, at, s);
    forall j: nat | j < |r| ensures (to <= j < to + e.count) <==> BucketOf(h, xHash, n, r[j]) == c {
      if j != s {
        var a: nat := if j < s then j else j - 1;
        assert r[j] == list[a] && BucketOf(h, xHash, n, list[a]) == BucketOf(h0, xHash, n, list[a]);
      }
    }
  }

  lemma RunPutHere(h0: Heap, h: Heap, xHash: nat -> nat, n: nat, list: seq<Ptr>, e: Bucket, at: nat, b: nat, p: Ptr, s: nat)
    requires s <= |list| && RunAt(h0, xHash, n, list, e, at, b) && BucketOf(h, xHash, n, p) == b && SameEntries(h0, h)
    requires s == if e.count > 0 then at else 0
    ensures RunAt(h, xHash, n, Put(list, s, p), Bucket(e.count + 1, p), s, b)
  {
    var r := Put(list, s, p);
    forall j: nat | j < |r| ensures (s <= j < s + e.count + 1) <==> BucketOf(h, xHash, n, r[j]) == b {
      if j != s {
        var a: nat := if j < s then j else j - 1;
        assert r[j] == list[a] && BucketOf(h, xHash, n, list[a]) == BucketOf(h0, xHash, n, list[a]);
      }
    }
  }

  /** insertElement. */
  method InsertElement(h0: Heap, first0: Ptr, ht0: seq<Bucket>, b: nat, p: Ptr, ghost xHash: nat -> nat, ghost list0: seq<Ptr>, ghost start0: seq<nat>)
    returns (h: Heap, first: Ptr, ht: seq<Bucket>, ghost list: seq<Ptr>, ghost start: seq<nat>)
    requires b < |ht0| && Linked(h0, first0, list0) && Runs(h0, xHash, ht0, list0, start0)
    requires p != 0 && p in h0 && p !in list0 && BucketOf(h0, xHash, |ht0|, p) == b
    ensures Linked(h, first, list) && Runs(h, xHash, ht, list, start) && |ht| == |ht0| && SameEntries(h0, h)
    ensures |list| == |list0| + 1 && forall q :: q in list <==> q == p || q in list0
    ensures forall q | q in h0 && q != p && q !in list0 :: h[q] == h0[q]
  {
    assert RunAt(h0, xHash, |ht0|, list0, ht0[b], start0[b], b);
    var pHead := ht0[b].chain;
    ghost var s: nat := if ht0[b].count > 0 then start0[b] else 0;
    if ht0[b].count > 0 { assert LinkAt(h0, list0, s); }
    h, first := LinkIn(h0, first0, p, pHead, list0, s);
    ht := ht0[b := Bucket(ht0[b].count + 1, p)];
    list := Put(list0, s, p);
    start := seq(|ht0|, c requires 0 <= c < |ht0| && |start0| == |ht0| => if c == b then s else Shifted(ht0[c], start0[c], s));
    RunPutHere(h0, h, xHash, |ht0|, list0, ht0[b], start0[b], b, p, s);
    forall c: nat | c < |ht| && c != b ensures RunAt(h, xHash, |ht|, list, ht[c], start[c], c) {
      assert RunAt(h0, xHash, |ht0|, list0, ht0[c], start0[c], c);
      RunPut(h0, h, xHash, |ht0|, list0, ht0[c], start0[c], c, p, s);
    }
    PutMembers(list0, s, p);
  }

  lemma PutMembers(list: seq<Ptr>, s: nat, p: Ptr)
    requires s <= |list|
    ensures forall q :: q in Put(list, s, p) <==> q == p || q in list
  {
    forall q ensures q in Put(list, s, p) <==> q == p || q in list {
      assert q in list <==> q in list[..s] || q in list[s..] by { assert list == list[..s] + list[s..]; }
    }
  }

  // ---------------------------------------------------------------------
  // Rehash
  // ---------------------------------------------------------------------

  /** The list goes through the first i elements of the old one. */
  ghost predicate Moved(old_: seq<Ptr>, i: nat, list: seq<Ptr>) {
    i <= |old_| && |list| == i && forall q :: q in list <==> q in old_[..i]
  }

  /** rehash, after memory for the new buckets was found. */
  method Rehash(h0: Heap, first0: Ptr, newSize: nat, xHash: nat -> nat, ghost list0: seq<Ptr>)
    returns (h: Heap, first: Ptr, ht: seq<Bucket>, ghost list: seq<Ptr>, ghost start: seq<nat>)
    requires Size(newSize) && newSize > 0 && Linked(h0, first0, list0)
    ensures Linked(h, first, list) && Runs(h, xHash, ht, list, start) && |ht| == newSize && SameEntries(h0, h)
    ensures |list| == |list0| && forall q :: q in list <==> q in list0
  {
    h, first, ht := h0, 0, seq(newSize, _ => Bucket(0, 0));
    list, start := [], seq(newSize, _ => 0);
    var elem := first0;
    ghost var i: nat := 0;
    forall j: nat | j < |list0| ensures Untouched(h0, h, list0, j) { assert LinkAt(h0, list0, j); }
    while elem != 0
      invariant Moved(list0, i, list) && elem == At(list0, i) && SameEntries(h0, h) && |ht| == newSize
      invariant Linked(h, first, list) && Runs(h, xHash, ht, list, start)
      invariant forall j: nat | i <= j < |list0| :: Untouched(h0, h, list0, j)
      decreases |list0| - i
    {
      assert LinkAt(h0, list0, i) && Untouched(h0, h, list0, i);
      var b := Masked(xHash, newSize, h[elem].key);
      MaskedPlace(xHash, newSize, h[elem].key);
      var nextElem := h[elem].next;
      NotYet(list0, i, list);
      ghost var was, before := h, list;
      h, first, ht, list, start := InsertElement(h, first, ht, b, elem, xHash, list, start);
      forall j: nat | i + 1 <= j < |list0| ensures Untouched(h0, h, list0, j) {
        assert Untouched(h0, was, list0, j) && Differ(list0, i, j);
        NotYet(list0, j, before);
      }
      MovedOn(list0, i, before, list);
      elem := nextElem;
      i := i + 1;
    }
    assert i < |list0| ==> LinkAt(h0, list0, i);
    assert list0[..i] == list0;
  }

  predicate Untouched(h0: Heap, h: Heap, list: seq<Ptr>, j: nat) {
    j < |list| && list[j] in h0 && list[j] in h && h[list[j]] == h0[list[j]]
  }

  lemma NotYet(old_: seq<Ptr>, j: nat, list: seq<Ptr>)
    requires Distinct(old_) && j < |old_| && exists i: nat :: i <= j && Moved(old_, i, list)
    ensures old_[j] !in list
  {
    var i: nat :| i <= j && Moved(old_, i, list);
    forall k: nat | k < i ensures old_[k] != old_[j] { assert Differ(old_, k, j); }
  }

  lemma MovedOn(old_: seq<Ptr>, i: nat, before: seq<Ptr>, list: seq<Ptr>)
    requires i < |old_| && Moved(old_, i, before) && |list| == |before| + 1
    requires forall q :: q in list <==> q == old_[i] || q in before
    ensures Moved(old_, i + 1, list)
  {
    assert old_[..i + 1] == old_[..i] + [old_[i]];
  }

  // ---------------------------------------------------------------------
  // Find
  // ---------------------------------------------------------------------

  ghost predicate HasKey(h: Heap, list: seq<Ptr>, id: nat) {
    exists i: nat :: i < |list| && KeyAt(h, list, i, id)
  }

  predicate KeyAt(h: Heap, list: seq<Ptr>, i: nat, id: nat) {
    i < |list| && list[i] in h && h[list[i]].key.id == id
  }

  /** findElementGivenHash. */
  method FindElement(h: Heap, ht: seq<Bucket>, xHash: nat -> nat, key: Key, b: nat, ghost first: Ptr, ghost list: seq<Ptr>, ghost start: seq<nat>)
    returns (elem: Ptr, ghost i: nat)
    requires b < |ht| && b == Place(xHash, |ht|, key) && Linked(h, first, list) && Runs(h, xHash, ht, list, start)
    ensures if elem == 0 then !HasKey(h, list, key.id) else KeyAt(h, list, i, key.id) && list[i] == elem
  {
    ghost var s := start[b];
    assert RunAt(h, xHash, |ht|, list, ht[b], s, b);
    elem := ht[b].chain;
    var count := ht[b].count;
    i := s;
    assert count > 0 ==> LinkAt(h, list, s);
    while count > 0 && elem != 0
      invariant s <= i && i + count == s + ht[b].count && (count > 0 ==> elem == At(list, i) != 0)
      invariant forall k: nat | s <= k < i :: !KeyAt(h, list, k, key.id)
      decreases count
    {
      assert LinkAt(h, list, i);
      if h[elem].key.id == key.id { return; }
      if count > 1 { assert LinkAt(h, list, i + 1); }
      elem := h[elem].next;
      count := count - 1;
      i := i + 1;
    }
    elem := 0;
    forall k: nat | k < |list| ensures !KeyAt(h, list, k, key.id) { assert BucketOf(h, xHash, |ht|, list[k]) == b <==> s <= k < s + ht[b].count; }
  }

  // ---------------------------------------------------------------------
  // Remove
  // ---------------------------------------------------------------------

  lemma RunDrop(h0: Heap, h: Heap, xHash: nat -> nat, n: nat, list: seq<Ptr>, e: Bucket, at: nat, c: nat, s: nat)
    requires s < |list| && RunAt(h0, xHash, n, list, e, at, c) && BucketOf(h0, xHash, n, list[s]) != c && SameEntries(h0, h)
    ensures RunAt(h, xHash, n, Drop(list, s), e, if at > s then at - 1 else at, c)
  {
    var r := Drop(list, s);
    var to := if at > s then at - 1 else at;
    forall j: nat | j < |r| ensures (to <= j < to + e.count) <==> BucketOf(h, xHash, n, r[j]) == c {
      var a := if j < s then j else j + 1;
      assert r[j] == list[a] && BucketOf(h, xHash, n, list[a]) == BucketOf(h0, xHash, n, list[a]);
    }
  }

  lemma RunDropHere(h0: Heap, h: Heap, xHash: nat -> nat, n: nat, list: seq<Ptr>, e: Bucket, at: nat, b: nat, s: nat)
    requires s < |list| && RunAt(h0, xHash, n, list, e, at, b) && BucketOf(h0, xHash, n, list[s]) == b && SameEntries(h0, h)
    ensures e.count > 0
    ensures RunAt(h, xHash, n, Drop(list, s), Bucket(e.count - 1, if e.count == 1 then 0 else if s == at then At(list, s + 1) else e.chain), at, b)
  {
    var r := Drop(list, s);
    forall j: nat | j < |r| ensures (at <= j < at + (e.count - 1)) <==> BucketOf(h, xHash, n, r[j]) == b {
      var a := if j < s then j else j + 1;
      assert r[j] == list[a] && BucketOf(h, xHash, n, list[a]) == BucketOf(h0, xHash, n, list[a]);
    }
  }

  /** removeElementGivenHash, without giving the memory back. */
  method RemoveElement(h0: Heap, first0: Ptr, ht0: seq<Bucket>, b: nat, p: Ptr, ghost xHash: nat -> nat, ghost list0: seq<Ptr>, ghost start0: seq<nat>, ghost s: nat)
    returns (h: Heap, first: Ptr, ht: seq<Bucket>, ghost list: seq<Ptr>, ghost start: seq<nat>)
    requires b < |ht0| && Linked(h0, first0, list0) && Runs(h0, xHash, ht0, list0, start0)
    requires s < |list0| && list0[s] == p && BucketOf(h0, xHash, |ht0|, p) == b
    ensures Linked(h, first, list) && Runs(h, xHash, ht, list, start) && |ht| == |ht0| && SameEntries(h0, h)
    ensures |list| == |list0| - 1 && forall q :: q in list <==> q != p && q in list0
  {
    assert RunAt(h0, xHash, |ht0|, list0, ht0[b], start0[b], b) && LinkAt(h0, list0, s);
    var next := h0[p].next;
    h, first := LinkOut(h0, first0, p, list0, s);
    list := Drop(list0, s);
    start := seq(|ht0|, c requires 0 <= c < |ht0| && |start0| == |ht0| => if c != b && start0[c] > s then start0[c] - 1 else start0[c]);
    RunDropHere(h0, h, xHash, |ht0|, list0, ht0[b], start0[b], b, s);
    var e := ht0[b];
    ChainIs(h0, first0, list0, e, start0[b], s);
    if e.chain == p { e := e.(chain := next); }
    e := e.(count := e.count - 1);
    if e.count == 0 { e := e.(chain := 0); }
    ht := ht0[b := e];
    forall c: nat | c < |ht| && c != b ensures RunAt(h, xHash, |ht|, list, ht[c], start[c], c) {
      assert RunAt(h0, xHash, |ht0|, list0, ht0[c], start0[c], c);
      RunDrop(h0, h, xHash, |ht0|, list0, ht0[c], start0[c], c, s);
    }
    DropMembers(list0, s);
  }

  lemma ChainIs(h: Heap, first: Ptr, list: seq<Ptr>, e: Bucket, at: nat, s: nat)
    requires Linked(h, first, list) && s < |list| && at < |list| && e.chain == list[at]
    ensures e.chain == list[s] <==> s == at
  {
    if s != at { assert Differ(list, s, at); }
  }

  lemma DropMembers(list: seq<Ptr>, s: nat)
    requires s < |list| && Distinct(list)
    ensures forall q :: q in Drop(list, s) <==> q != list[s] && q in list
  {
    var r := Drop(list, s);
    forall q ensures q in r <==> q != list[s] && q in list {
      if q in r {
        var i: nat :| i < |r| && r[i] == q;
        assert Differ(list, if i < s then i else i + 1, s);
      }
      if q in list && q != list[s] {
        var i: nat :| i < |list| && list[i] == q;
        assert r[if i < s then i else i - 1] == q;
      }
    }
  }

  // ---------------------------------------------------------------------
  // The table
  // ---------------------------------------------------------------------

  predicate KeysDiffer(h: Heap, p: Ptr, q: Ptr) {
    p in h && q in h && h[p].key.id != h[q].key.id
  }

  predicate EntryOk(h: Heap, p: Ptr, contents: map<nat, Data>) {
    p in h && h[p].key.id in contents && h[p].data == contents[h[p].key.id] != 0
  }

  predicate KeyIs(h: Heap, p: Ptr, id: nat) {
    p in h && h[p].key.id == id
  }

  /** The elements are these keys, once each, with these data. */
  ghost predicate Holds(h: Heap, contents: map<nat, Data>) {
    && (forall p: Ptr, q: Ptr {:trigger KeysDiffer(h, p, q)} | p in h && q in h && p != q :: KeysDiffer(h, p, q))
    && (forall p: Ptr {:trigger EntryOk(h, p, contents)} | p in h :: EntryOk(h, p, contents))
    && (forall id: nat {:trigger HasId(h, id)} | id in contents :: HasId(h, id))
  }

  ghost predicate HasId(h: Heap, id: nat) {
    exists p: Ptr :: KeyIs(h, p, id)
  }

  /** The elements in memory are those of the list. */
  ghost predicate Complete(h: Heap, list: seq<Ptr>) {
    forall p :: p in h <==> p in list
  }

  lemma HoldsSame(h: Heap, g: Heap, contents: map<nat, Data>)
    requires Holds(h, contents) && SameEntries(h, g)
    ensures Holds(g, contents)
  {
    forall p: Ptr, q: Ptr {:trigger KeysDiffer(g, p, q)} | p in g && q in g && p != q ensures KeysDiffer(g, p, q) { assert KeysDiffer(h, p, q); }
    forall p: Ptr {:trigger EntryOk(g, p, contents)} | p in g ensures EntryOk(g, p, contents) { assert EntryOk(h, p, contents); }
    forall id: nat {:trigger HasId(g, id)} | id in contents ensures HasId(g, id) {
      assert HasId(h, id);
      var p: Ptr :| KeyIs(h, p, id);
      assert KeyIs(g, p, id);
    }
  }

  lemma HoldsNew(h: Heap, contents: map<nat, Data>, p: Ptr, e: Elem)
    requires Holds(h, contents) && p !in h && e.key.id !in contents && e.data != 0
    ensures Holds(h[p := e], contents[e.key.id := e.data])
  {
    var g, after := h[p := e], contents[e.key.id := e.data];
    forall q: Ptr {:trigger EntryOk(g, q, after)} | q in g ensures EntryOk(g, q, after) && (q != p ==> KeysDiffer(g, q, p) && KeysDiffer(g, p, q)) {
      assert q != p ==> EntryOk(h, q, contents);
    }
    forall q: Ptr, r: Ptr {:trigger KeysDiffer(g, q, r)} | q in g && r in g && q != r ensures KeysDiffer(g, q, r) {
      assert q != p ==> EntryOk(h, q, contents);
      assert r != p ==> EntryOk(h, r, contents);
      if q != p && r != p { assert KeysDiffer(h, q, r); }
    }
    forall id: nat {:trigger HasId(g, id)} | id in after ensures HasId(g, id) {
      if id == e.key.id {
        assert KeyIs(g, p, id);
      } else {
        assert HasId(h, id);
        var q: Ptr :| KeyIs(h, q, id);
        assert KeyIs(g, q, id);
      }
    }
  }

  lemma HoldsLess(h: Heap, contents: map<nat, Data>, p: Ptr)
    requires Holds(h, contents) && p in h
    ensures Holds(h - {p}, contents - {h[p].key.id})
  {
    var g, after := h - {p}, contents - {h[p].key.id};
    forall q: Ptr {:trigger EntryOk(g, q, after)} | q in g ensures EntryOk(g, q, after) { assert EntryOk(h, q, contents) && KeysDiffer(h, q, p); }
    forall q: Ptr, r: Ptr {:trigger KeysDiffer(g, q, r)} | q in g && r in g && q != r ensures KeysDiffer(g, q, r) { assert KeysDiffer(h, q, r); }
    forall id: nat {:trigger HasId(g, id)} | id in after ensures HasId(g, id) {
      assert HasId(h, id);
      var q: Ptr :| KeyIs(h, q, id);
      assert KeyIs(g, q, id);
    }
  }

  /** Other data, and another spelling of the key. */
  lemma HoldsOther(h: Heap, contents: map<nat, Data>, p: Ptr, e: Elem)
    requires Holds(h, contents) && p in h && e.key.id == h[p].key.id && e.data != 0
    ensures Holds(h[p := e], contents[e.key.id := e.data])
  {
    var g, after := h[p := e], contents[e.key.id := e.data];
    forall q: Ptr {:trigger EntryOk(g, q, after)} | q in g ensures EntryOk(g, q, after) { assert EntryOk(h, q, contents) && (q != p ==> KeysDiffer(h, q, p)); }
    forall q: Ptr, r: Ptr {:trigger KeysDiffer(g, q, r)} | q in g && r in g && q != r ensures KeysDiffer(g, q, r) { assert KeysDiffer(h, q, r); }
    forall id: nat {:trigger HasId(g, id)} | id in after ensures HasId(g, id) {
      if id in contents {
        assert HasId(h, id);
        var q: Ptr :| KeyIs(h, q, id);
        assert KeyIs(g, q, id);
      } else {
        assert KeyIs(g, p, id);
      }
    }
  }

  /** The links and the buckets do not depend on the data and the spelling. */
  lemma LinksOther(h: Heap, g: Heap, first: Ptr, list: seq<Ptr>, xHash: nat -> nat, ht: seq<Bucket>, start: seq<nat>)
    requires Linked(h, first, list) && Runs(h, xHash, ht, list, start)
    requires forall p | p in h :: p in g && g[p].next == h[p].next && g[p].prev == h[p].prev && g[p].key.id == h[p].key.id
    requires forall p | p in list :: p in h
    ensures Linked(g, first, list) && Runs(g, xHash, ht, list, start)
  {
    forall i: nat | i < |list| ensures LinkAt(g, list, i) { assert LinkAt(h, list, i); }
    forall b: nat | b < |ht| ensures RunAt(g, xHash, |ht|, list, ht[b], start[b], b) {
      assert RunAt(h, xHash, |ht|, list, ht[b], start[b], b);
      forall j: nat | j < |list| ensures BucketOf(g, xHash, |ht|, list[j]) == BucketOf(h, xHash, |ht|, list[j]) {}
    }
  }

  /** Memory for an element, or the null pointer. */
  method Malloc(h: Heap) returns (p: Ptr)
    ensures p == 0 || p !in h
  {
    var gotMemory: bool := *;
    if !gotMemory { return 0; }
    p := 1;
    ghost var left := h.Keys;
    while p in h
      invariant p > 0 && left <= h.Keys && forall q | q in h && q >= p :: q in left
      decreases left
    {
      left := left - {p};
      p := p + 1;
    }
  }

  class Hash {
    var elems: Heap
    var first: Ptr
    var count: nat
    var ht: seq<Bucket>
    const copyKey: bool
    const xHash: nat -> nat

    ghost var list: seq<Ptr>
    ghost var start: seq<nat>
    /** What the table stands for: the data of each key. */
    ghost var contents: map<nat, Data>

    ghost predicate Valid()
      reads this
    {
      && Linked(elems, first, list) && Runs(elems, xHash, ht, list, start) && Complete(elems, list) && Holds(elems, contents)
      && count == |list| && (|ht| == 0 <==> list == []) && Size(|ht|)
    }

    /** sqlite3HashInit. */
    constructor (copyKey: bool, xHash: nat -> nat)
      ensures Valid() && contents == map[]
    {
      this.copyKey, this.xHash := copyKey, xHash;
      elems, first, count, ht, list, start, contents := map[], 0, 0, [], [], [], map[];
    }

    /** sqlite3HashClear. */
    method Clear()
      modifies this
      ensures Valid() && contents == map[]
    {
      elems, first, count, ht, list, start, contents := map[], 0, 0, [], [], [], map[];
    }

    /** sqlite3HashFindElem. */
    method FindElem(key: Key) returns (elem: Ptr, ghost i: nat)
      requires Valid()
      ensures if elem == 0 then key.id !in contents else i < |list| && list[i] == elem && KeyIs(elems, elem, key.id) && key.id in contents
    {
      elem, i := 0, 0;
      if |ht| > 0 { elem, i := FindElement(elems, ht, xHash, key, Place(xHash, |ht|, key), first, list, start); }
      if elem == 0 {
        if key.id in contents {
          assert HasId(elems, key.id);
          var p: Ptr :| KeyIs(elems, p, key.id);
          var j: nat :| j < |list| && list[j] == p;
          assert KeyAt(elems, list, j, key.id);
        }
      } else {
        assert EntryOk(elems, elem, contents);
      }
    }

    /** sqlite3HashFind. */
    method Find(key: Key) returns (data: Data)
      requires Valid()
      ensures data == if key.id in contents then contents[key.id] else 0
    {
      var elem;
      ghost var i;
      elem, i := FindElem(key);
      if elem == 0 { return 0; }
      assert EntryOk(elems, elem, contents);
      return elems[elem].data;
    }

    /** sqlite3HashInsert: the data that was there; or, where memory ran out, the new
        data, and then nothing changes. */
    method Insert(key: Key, data: Data) returns (r: Data)
      requires Valid()
      modifies this
      ensures Valid()
      ensures var id := key.id;
        if id in old(contents) then r == old(contents)[id] && contents == if data == 0 then old(contents) - {id} else old(contents)[id := data]
        else (r == 0 && contents == if data == 0 then old(contents) else old(contents)[id := data]) || (r == data && contents == old(contents))
    {
      var elem;
      ghost var i;
      elem, i := FindElem(key);
      if elem != 0 {
        assert EntryOk(elems, elem, contents);
        r := elems[elem].data;
        if data == 0 { Remove(elem, i); } else { Replace(elem, key, data); }
        return;
      }
      if data == 0 { return 0; }
      r := Add(key, data);
    }

    /** An element more.  The buckets grow where there are fewer of them than elements,
        if there is memory for more. */
    method Add(key: Key, data: Data) returns (r: Data)
      requires Valid() && key.id !in contents && data != 0
      modifies this
      ensures Valid() && if r == 0 then contents == old(contents)[key.id := data] else r == data && contents == old(contents)
    {
      var p := Malloc(elems);
      var keyCopied: bool := *;
      if p == 0 || (copyKey && !keyCopied) { return data; }
      if |ht| == 0 {
        var gotBuckets: bool := *;
        if !gotBuckets { return data; }
        Resize(FIRST_SIZE);
      }
      if count + 1 > |ht| {
        var gotBuckets: bool := *;
        if gotBuckets { Resize(|ht| * 2); }
      }
      Append(p, key, data);
      return 0;
    }

    /** Links and buckets are right; there may be buckets for no elements yet. */
    ghost predicate Ready()
      reads this
    {
      && Linked(elems, first, list) && Runs(elems, xHash, ht, list, start) && Complete(elems, list) && Holds(elems, contents)
      && count == |list| && (|ht| == 0 ==> list == []) && Size(|ht|)
    }

    method Resize(newSize: nat)
      requires Ready() && newSize > 0 && Size(newSize)
      modifies `elems, `first, `ht, `list, `start
      ensures Ready() && |ht| == newSize && elems.Keys == old(elems.Keys)
    {
      ghost var was := elems;
      var h, firstNow, htNow;
      ghost var listNow, startNow;
      h, firstNow, htNow, listNow, startNow := Rehash(elems, first, newSize, xHash, list);
      HoldsSame(elems, h, contents);
      elems, first, ht := h, firstNow, htNow;
      list, start := listNow, startNow;
    }

    method Append(p: Ptr, key: Key, data: Data)
      requires Ready() && |ht| > 0 && p != 0 && p !in elems && key.id !in contents && data != 0
      modifies this
      ensures Valid() && contents == old(contents)[key.id := data]
    {
      var e := Elem(0, 0, data, key);
      var h := elems[p := e];
      HoldsNew(elems, contents, p, e);
      LinksOther(elems, h, first, list, xHash, ht, start);
      ghost var with := h;
      var firstNow, htNow;
      ghost var listNow, startNow;
      h, firstNow, htNow, listNow, startNow := InsertElement(h, first, ht, Place(xHash, |ht|, key), p, xHash, list, start);
      HoldsSame(with, h, contents[key.id := data]);
      elems, first, ht, count := h, firstNow, htNow, count + 1;
      list, start, contents := listNow, startNow, contents[key.id := data];
    }

    /** Other data for a key. */
    method Replace(elem: Ptr, key: Key, data: Data)
      requires Valid() && KeyIs(elems, elem, key.id) && data != 0
      modifies `elems, `contents
      ensures Valid() && contents == old(contents)[key.id := data]
    {
      var e := elems[elem].(data := data);
      if !copyKey { e := e.(key := key); }
      HoldsOther(elems, contents, elem, e);
      LinksOther(elems, elems[elem := e], first, list, xHash, ht, start);
      elems := elems[elem := e];
      contents := contents[key.id := data];
    }

    /** An element less; the last one leaves no buckets. */
    method Remove(elem: Ptr, ghost i: nat)
      requires Valid() && i < |list| && list[i] == elem && elem in elems
      modifies this
      ensures Valid() && contents == old(contents) - {old(elems)[elem].key.id}
    {
      ghost var id := elems[elem].key.id;
      var h, firstNow, htNow;
      ghost var listNow, startNow;
      var b := Place(xHash, |ht|, elems[elem].key);
      h, firstNow, htNow, listNow, startNow := RemoveElement(elems, first, ht, b, elem, xHash, list, start, i);
      HoldsSame(elems, h, contents);
      HoldsLess(h, contents, elem);
      LinksLess(h, elem, firstNow, listNow, xHash, htNow, startNow);
      elems, first, ht, count := h - {elem}, firstNow, htNow, count - 1;
      list, start, contents := listNow, startNow, contents - {id};
      if count == 0 {
        forall k: nat ensures k !in contents { assert k in contents ==> HasId(elems, k); }
        assert contents == map[];
        Clear();
      }
    }
  }

  lemma LinksLess(h: Heap, p: Ptr, first: Ptr, list: seq<Ptr>, xHash: nat -> nat, ht: seq<Bucket>, start: seq<nat>)
    requires Linked(h, first, list) && Runs(h, xHash, ht, list, start) && p !in list
    ensures Linked(h - {p}, first, list) && Runs(h - {p}, xHash, ht, list, start)
  {
    var g := h - {p};
    forall i: nat | i < |list| ensures LinkAt(g, list, i) && BucketOf(g, xHash, |ht|, list[i]) == BucketOf(h, xHash, |ht|, list[i]) {
      assert LinkAt(h, list, i);
    }
    forall b: nat | b < |ht| ensures RunAt(g, xHash, |ht|, list, ht[b], start[b], b) {
      assert RunAt(h, xHash, |ht|, list, ht[b], start[b], b);
    }
  }
}
