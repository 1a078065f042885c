/** Sets of page numbers in three representations (bitvec.c): a bitmap, a hash
    table, and sub-bitmaps. */
module Bitvec {
  import opened Division

  /** The sizes of the union of 500 bytes; NPTR is that for pointers of 4 bytes. */
  const NCHAR: nat := 500
  const NBIT: nat := 4000
  const NINT: nat := 125
  const MXHASH: nat := 62
  const NPTR: nat := 125
  const U32: nat := 0x1_0000_0000

  datatype Ptr = Nil | To(b: Bits)

  /** The union of the three representations. */
  datatype Union = Bitmap(a: seq<bv8>) | Hash(h: seq<nat>) | Subs(s: seq<Ptr>)

  datatype Bits = Bits(iSize: nat, nSet: nat, iDivisor: nat, u: Union)

  // ---------------------------------------------------------------------
  // Bytes
  // ---------------------------------------------------------------------

  /** 1 << k. */
  function Mask(k: nat): bv8
    requires k < 8
  {
    if k == 0 then 1 else Mask(k - 1) << 1
  }

  predicate On(b: bv8, k: nat)
    requires k < 8
  {
    b & Mask(k) != 0
  }

  predicate BitAt(a: seq<bv8>, i: nat)
    requires i / 8 < |a|
  {
    On(a[i / 8], i % 8)
  }

  /** Set or clear one bit of a byte. */
  function Turn(b: bv8, k: nat, on: bool): bv8
    requires k < 8
  {
    if on then b | Mask(k) else b & !Mask(k)
  }

  lemma MaskIs(k: nat)
    requires k < 8
    ensures Mask(k) == if k == 0 then 1 else if k == 1 then 2 else if k == 2 then 4 else if k == 3 then 8
                       else if k == 4 then 16 else if k == 5 then 32 else if k == 6 then 64 else 128
  {
    assert Mask(1) == 2 && Mask(2) == 4 && Mask(3) == 8;
    assert Mask(4) == 16 && Mask(5) == 32 && Mask(6) == 64;
  }

  lemma TurnOn(b: bv8, k: nat, on: bool, j: nat)
    requires k < 8 && j < 8
    ensures On(Turn(b, k, on), j) <==> if j == k then on else On(b, j)
  {
    MaskIs(k);
    MaskIs(j);
  }

  // ---------------------------------------------------------------------
  // The hash table
  // ---------------------------------------------------------------------

  /** BITVEC_HASH, with the product in 32 bits. */
  function HashOf(x: nat): (h: nat)
    ensures h < NINT
  {
    x * 37 % U32 % NINT
  }

  /** The slot d steps after slot s, round the end. */
  function Slot(s: nat, d: nat): (r: nat)
    requires s < NINT && d < NINT
    ensures r < NINT
  {
    if s + d < NINT then s + d else s + d - NINT
  }

  /** How many steps it is from slot s to slot t. */
  function Steps(s: nat, t: nat): (d: nat)
    requires s < NINT && t < NINT
    ensures d < NINT && Slot(s, d) == t
  {
    if s <= t then t - s else t + NINT - s
  }

  function Used(h: seq<nat>, n: nat): nat
    requires n <= |h|
  {
    if n == 0 then 0 else Used(h, n - 1) + if h[n - 1] != 0 then 1 else 0
  }

  lemma {:induction false} FreeSlot(h: seq<nat>, n: nat) returns (t: nat)
    requires n <= |h| && Used(h, n) < n
    ensures t < n && h[t] == 0
  {
    if h[n - 1] == 0 { t := n - 1; } else { t := FreeSlot(h, n - 1); }
  }

  lemma {:induction false} UsedMore(h: seq<nat>, n: nat, t: nat, x: nat)
    requires n <= |h| && t < |h| && h[t] == 0 && x != 0
    ensures Used(h[t := x], n) == Used(h, n) + if t < n then 1 else 0
  {
    if n > 0 { UsedMore(h, n - 1, t, x); }
  }

  /** From the slot a value hashes to, every slot up to its own is in use. */
  predicate PathFull(h: seq<nat>, v: nat, t: nat)
    requires |h| == NINT && t < NINT
  {
    forall d | 0 <= d < Steps(HashOf(v), t) :: h[Slot(HashOf(v), d)] != 0
  }

  lemma PathFullAt(h: seq<nat>, v: nat, t: nat, d: nat)
    requires |h| == NINT && t < NINT && d < NINT && h[Slot(HashOf(v), d)] == 0
    ensures Steps(HashOf(v), t) > d ==> !PathFull(h, v, t)
  {
  }

  predicate HashOk(h: seq<nat>, iSize: nat) {
    && |h| == NINT
    && (forall t | 0 <= t < NINT :: h[t] <= iSize)
    && (forall t | 0 <= t < NINT && h[t] != 0 :: PathFull(h, h[t], t))
    && (forall s, t | 0 <= s < t < NINT && h[s] != 0 :: h[s] != h[t])
  }

  // ---------------------------------------------------------------------
  // Which sub-bitmap, and which number in it
  // ---------------------------------------------------------------------

  /** The sub-bitmap of i, when each handles d: the first has 1 to d. */
  function Bin(i: nat, d: nat): nat
    requires i > 0 && d > 0
  {
    Quot(i - 1, d)
  }

  /** What i is called there. */
  function Rest(i: nat, d: nat): (r: nat)
    requires i > 0 && d > 0
    ensures 1 <= r <= d
  {
    Rem(i - 1, d) + 1
  }

  /** The division and the remainder the code computes. */
  method Divide(i: nat, d: nat) returns (bin: nat, rest: nat)
    requires i > 0 && d > 0
    ensures bin == Bin(i, d) && rest == Rest(i, d)
  {
    bin := (i - 1) / d;
    rest := (i - 1) % d + 1;
    DivIsQuot(i - 1, d);
  }

  /** Different numbers differ in their sub-bitmap or in what they are called
      there. */
  lemma BinsApart(d: nat, i: nat, j: nat)
    requires d > 0 && i >= 1 && j >= 1 && Bin(i, d) == Bin(j, d) && Rest(i, d) == Rest(j, d)
    ensures i == j
  {
    TimesQuot(i - 1, d);
    TimesQuot(j - 1, d);
  }

  /** The number that is called k in sub-bitmap b. */
  function NumberAt(b: nat, k: nat, d: nat): nat {
    Times(b, d) + k
  }

  lemma NumberBack(i: nat, d: nat)
    requires i > 0 && d > 0
    ensures NumberAt(Bin(i, d), Rest(i, d), d) == i
  {
    TimesQuot(i - 1, d);
  }

  lemma NumberBin(b: nat, k: nat, d: nat)
    requires 1 <= k <= d
    ensures NumberAt(b, k, d) >= 1 && Bin(NumberAt(b, k, d), d) == b && Rest(NumberAt(b, k, d), d) == k
  {
    QuotTimes(b, k - 1, d);
  }

  // ---------------------------------------------------------------------
  // What is in the set
  // ---------------------------------------------------------------------

  predicate Has(p: Bits, i: nat)
    decreases p
  {
    1 <= i <= p.iSize &&
    match p.u
    case Bitmap(a) => (i - 1) / 8 < |a| && BitAt(a, i - 1)
    case Hash(h) => i in h
    case Subs(s) => p.iDivisor > 0 && Bin(i, p.iDivisor) < |s| && HasPtr(s[Bin(i, p.iDivisor)], Rest(i, p.iDivisor))
  }

  predicate HasPtr(q: Ptr, i: nat)
    decreases q
  {
    q.To? && Has(q.b, i)
  }

  /** What each sub-bitmap handles. */
  function Divisor(iSize: nat): nat {
    (iSize + NPTR - 1) / NPTR
  }

  /** No sub-bitmap has a number beyond the size of the whole. */
  ghost predicate InRange(s: seq<Ptr>, d: nat, iSize: nat) {
    forall b: nat, k: nat | b < |s| && HasPtr(s[b], k) :: NumberAt(b, k, d) <= iSize
  }

  ghost predicate Valid(p: Bits)
    decreases p
  {
    && p.iSize + NPTR - 1 < U32
    && if p.iSize <= NBIT then p.iDivisor == 0 && p.u.Bitmap? && |p.u.a| == NCHAR
       else if p.iDivisor == 0 then p.u.Hash? && HashOk(p.u.h, p.iSize) && p.nSet == Used(p.u.h, NINT) < MXHASH
       else p.u.Subs? && p.iDivisor == Divisor(p.iSize) && |p.u.s| == NPTR && InRange(p.u.s, p.iDivisor, p.iSize)
            && forall q | q in p.u.s :: q.To? ==> q.b.iSize == p.iDivisor && Valid(q.b)
  }

  /** The index of a sub-bitmap is always within the array, and what a sub-bitmap
      handles is smaller than the whole. */
  lemma BinInRange(iSize: nat, i: nat)
    requires iSize > NBIT && 1 <= i <= iSize
    ensures 0 < Divisor(iSize) < iSize && Bin(i, Divisor(iSize)) < NPTR
  {
    var d := Divisor(iSize);
    TimesQuot(i - 1, d);
    TimesIs(NPTR, d);
    TimesGrow(NPTR, if Bin(i, d) < NPTR then NPTR else Bin(i, d), d);
  }

  // ---------------------------------------------------------------------
  // Create and test
  // ---------------------------------------------------------------------

  function Zeros(n: nat): (h: seq<nat>)
    ensures |h| == n && forall i | 0 <= i < n :: h[i] == 0
  {
    seq(n, _ => 0)
  }

  lemma {:induction false} ZerosUsed(h: seq<nat>, n: nat)
    requires n <= |h| && forall i | 0 <= i < n :: h[i] == 0
    ensures Used(h, n) == 0
  {
    if n > 0 { ZerosUsed(h, n - 1); }
  }

  /** sqlite3BitvecCreate: all bytes zero, in whatever representation the size
      calls for. */
  function Empty(iSize: nat): Bits {
    Bits(iSize, 0, 0, if iSize <= NBIT then Bitmap(seq(NCHAR, _ => 0)) else Hash(Zeros(NINT)))
  }

  lemma EmptyOk(iSize: nat)
    requires iSize + NPTR - 1 < U32
    ensures Valid(Empty(iSize)) && forall i :: !Has(Empty(iSize), i)
  {
    ZerosUsed(Zeros(NINT), NINT);
    forall i ensures !Has(Empty(iSize), i) {}
  }

  /** Walk from a value's slot to the value or to a slot that is free; the table
      is never full, so there is one. */
  method Probe(h: seq<nat>, x: nat, iSize: nat) returns (t: nat)
    requires HashOk(h, iSize) && Used(h, NINT) < NINT && x != 0
    ensures t < NINT && (h[t] == x || (h[t] == 0 && x !in h && PathFull(h, x, t)))
  {
    ghost var z := FreeSlot(h, NINT);
    ghost var d: nat := 0;
    t := HashOf(x);
    while h[t] != 0
      invariant d < NINT && t == Slot(HashOf(x), d) && d <= Steps(HashOf(x), z)
      invariant forall e | 0 <= e < d :: h[Slot(HashOf(x), e)] != 0 && h[Slot(HashOf(x), e)] != x
      decreases NINT - d
    {
      if h[t] == x { return; }
      t := t + 1;
      if t >= NINT { t := 0; }
      d := d + 1;
    }
    NotInTable(h, x, iSize, t, d);
  }

  lemma NotInTable(h: seq<nat>, x: nat, iSize: nat, t: nat, d: nat)
    requires HashOk(h, iSize) && x != 0 && d < NINT && t == Slot(HashOf(x), d) && h[t] == 0
    requires forall e | 0 <= e < d :: h[Slot(HashOf(x), e)] != 0 && h[Slot(HashOf(x), e)] != x
    ensures x !in h && PathFull(h, x, t)
  {
    forall u | 0 <= u < NINT ensures h[u] != x {
      var e := Steps(HashOf(x), u);
      assert Slot(HashOf(x), e) == u;
      PathFullAt(h, x, u, d);
    }
    assert Steps(HashOf(x), t) == d;
  }

  /** sqlite3BitvecTest. */
  method Test(p: Bits, i: nat) returns (r: bool)
    requires Valid(p)
    ensures r == Has(p, i)
    decreases p
  {
    if i > p.iSize || i == 0 { return false; }
    if p.iSize <= NBIT {
      return BitAt(p.u.a, i - 1);
    }
    if p.iDivisor > 0 {
      BinInRange(p.iSize, i);
      var bin, k := Divide(i, p.iDivisor);
      var sub := p.u.s[bin];
      assert sub in p.u.s && Has(p, i) == HasPtr(sub, k);
      if sub.Nil? { return false; }
      r := Test(sub.b, k);
    } else {
      var t := Probe(p.u.h, i, p.iSize);
      return p.u.h[t] == i;
    }
  }

  // ---------------------------------------------------------------------
  // Set
  // ---------------------------------------------------------------------

  /** To set i, the hash table that has j must become sub-bitmaps. */
  predicate Respread(p: Bits, i: nat, j: nat)
    decreases p
  {
    1 <= i <= p.iSize && 1 <= j <= p.iSize && p.iSize > NBIT &&
    match p.u
    case Bitmap(_) => false
    case Hash(h) => i !in h && p.nSet + 1 >= MXHASH && j in h
    case Subs(s) =>
      && p.iDivisor > 0 && Bin(i, p.iDivisor) < |s| && Bin(j, p.iDivisor) == Bin(i, p.iDivisor)
      && RespreadPtr(s[Bin(i, p.iDivisor)], Rest(i, p.iDivisor), Rest(j, p.iDivisor))
  }

  predicate RespreadPtr(q: Ptr, i: nat, j: nat)
    decreases q
  {
    q.To? && Respread(q.b, i, j)
  }

  /** i can be set without more memory. */
  predicate Ready(p: Bits, i: nat)
    decreases p
  {
    1 <= i <= p.iSize &&
    match p.u
    case Bitmap(_) => true
    case Hash(h) => i in h || p.nSet + 1 < MXHASH
    case Subs(s) => p.iDivisor > 0 && Bin(i, p.iDivisor) < |s| && ReadyPtr(s[Bin(i, p.iDivisor)], Rest(i, p.iDivisor))
  }

  predicate ReadyPtr(q: Ptr, i: nat)
    decreases q
  {
    q.To? && Ready(q.b, i)
  }

  /** j should be in q when i is added to p, and is not. */
  ghost predicate Missing(p: Bits, q: Bits, i: nat, j: nat) {
    (Has(p, j) || j == i) && !Has(q, j)
  }

  /** q has nothing but what p has and i; something is missing exactly when not ok, and
      then only i and numbers of the one hash table that became sub-bitmaps. */
  ghost predicate Added(p: Bits, q: Bits, i: nat, ok: bool) {
    && q.iSize == p.iSize && (forall j | Has(q, j) :: Has(p, j) || j == i)
    && (ok <==> forall j :: !Missing(p, q, i, j))
    && (forall j | Missing(p, q, i, j) :: j == i || Respread(p, i, j))
  }

  lemma AllAdded(p: Bits, q: Bits, i: nat)
    requires Added(p, q, i, true)
    ensures forall j :: Has(q, j) <==> Has(p, j) || j == i
  {
    forall j | Has(p, j) || j == i ensures Has(q, j) { assert !Missing(p, q, i, j); }
  }

  /** What is left when there is no memory: all numbers of that table are lost. */
  ghost predicate Starved(p: Bits, q: Bits, i: nat) {
    forall j :: Has(q, j) <==> (Has(p, j) && !Respread(p, i, j)) || (j == i && Ready(p, i))
  }

  /** There is no memory for any request from the nth on. */
  ghost predicate NoMemory(mem: nat -> bool, n: nat) {
    forall k: nat | n <= k :: !mem(k)
  }

  function WithBit(a: seq<bv8>, k: nat, on: bool): (r: seq<bv8>)
    requires k / 8 < |a|
    ensures |r| == |a|
  {
    a[k / 8 := Turn(a[k / 8], k % 8, on)]
  }

  lemma WithBitAt(a: seq<bv8>, k: nat, on: bool, m: nat)
    requires k / 8 < |a| && m / 8 < |a|
    ensures BitAt(WithBit(a, k, on), m) <==> if m == k then on else BitAt(a, m)
  {
    ByteTurned(a, k / 8, k % 8, on, m / 8, m % 8);
  }

  lemma ByteTurned(a: seq<bv8>, n: nat, k: nat, on: bool, m: nat, j: nat)
    requires n < |a| && m < |a| && k < 8 && j < 8
    ensures On(a[n := Turn(a[n], k, on)][m], j) <==> if n == m && j == k then on else On(a[m], j)
  {
    TurnOn(a[n], k, on, j);
  }

  lemma SetBit(p: Bits, i: nat, on: bool)
    requires Valid(p) && p.iSize <= NBIT && 1 <= i <= p.iSize
    ensures var q := p.(u := Bitmap(WithBit(p.u.a, i - 1, on)));
      Valid(q) && forall j :: Has(q, j) <==> if j == i then on else Has(p, j)
  {
    var q := p.(u := Bitmap(WithBit(p.u.a, i - 1, on)));
    forall j: nat ensures Has(q, j) <==> if j == i then on else Has(p, j) {
      if 1 <= j <= p.iSize { WithBitAt(p.u.a, i - 1, on, j - 1); }
    }
  }

  /** A new value in the free slot at the end of its path. */
  lemma PutInTable(p: Bits, i: nat, t: nat)
    requires Valid(p) && p.u.Hash? && 1 <= i <= p.iSize && p.nSet + 1 < MXHASH
    requires t < NINT && p.u.h[t] == 0 && i !in p.u.h && PathFull(p.u.h, i, t)
    ensures var q := p.(nSet := p.nSet + 1, u := Hash(p.u.h[t := i])); Valid(q) && Added(p, q, i, true)
  {
    var h := p.u.h;
    var g := h[t := i];
    UsedMore(h, NINT, t, i);
    forall u | 0 <= u < NINT && g[u] != 0 ensures PathFull(g, g[u], u) {
      assert u != t ==> PathFull(h, h[u], u);
    }
    forall j ensures j in g <==> j == i || (j in h && (j != 0 || j in g)) {
      if j in h && j != 0 { var u :| 0 <= u < NINT && h[u] == j; assert g[u] == j; }
      assert g[t] == i;
    }
  }

  /** p with sub-bitmap bin replaced. */
  function WithSub(p: Bits, bin: nat, q: Bits): Bits
    requires p.u.Subs? && bin < |p.u.s|
  {
    p.(u := Subs(p.u.s[bin := To(q)]))
  }

  lemma WithSubValid(p: Bits, bin: nat, q: Bits)
    requires Valid(p) && p.iSize > NBIT && p.iDivisor > 0 && bin < NPTR && q.iSize == p.iDivisor && Valid(q)
    requires forall k: nat | Has(q, k) :: NumberAt(bin, k, p.iDivisor) <= p.iSize
    ensures Valid(WithSub(p, bin, q))
  {
    var r := WithSub(p, bin, q);
    forall x | x in r.u.s ensures x.To? ==> x.b.iSize == p.iDivisor && Valid(x.b) { assert x == To(q) || x in p.u.s; }
    forall b: nat, k: nat | b < |r.u.s| && HasPtr(r.u.s[b], k) ensures NumberAt(b, k, p.iDivisor) <= p.iSize {
      assert b == bin ==> Has(q, k);
      assert b != bin ==> HasPtr(p.u.s[b], k);
    }
  }

  lemma WithSubHas(p: Bits, bin: nat, q: Bits, j: nat)
    requires p.u.Subs? && p.iDivisor > 0 && bin < |p.u.s| && 1 <= j <= p.iSize
    ensures Has(WithSub(p, bin, q), j) <==> if Bin(j, p.iDivisor) == bin then Has(q, Rest(j, p.iDivisor)) else Has(p, j)
  {
    assert HasPtr(To(q), Rest(j, p.iDivisor)) == Has(q, Rest(j, p.iDivisor));
  }

  /** sub is what sub-bitmap bin is, or the empty one where there is none. */
  ghost predicate IsSub(p: Bits, bin: nat, sub: Bits) {
    && p.u.Subs? && p.iDivisor > 0 && bin < |p.u.s| == NPTR && sub.iSize == p.iDivisor && Valid(sub)
    && if p.u.s[bin].To? then sub == p.u.s[bin].b else sub == Empty(p.iDivisor)
  }

  lemma IsSubHas(p: Bits, bin: nat, sub: Bits)
    requires IsSub(p, bin, sub)
    ensures forall k: nat :: HasPtr(p.u.s[bin], k) == Has(sub, k)
  {
    if p.u.s[bin].Nil? { EmptyOk(p.iDivisor); }
  }

  /** The sub-bitmap of i, set. */
  lemma SetInSub(p: Bits, i: nat, bin: nat, sub: Bits, q: Bits, ok: bool)
    requires Valid(p) && p.iSize > NBIT && p.iDivisor > 0 && 1 <= i <= p.iSize && bin == Bin(i, p.iDivisor) < NPTR
    requires IsSub(p, bin, sub) && Valid(q) && Added(sub, q, Rest(i, p.iDivisor), ok)
    ensures Valid(WithSub(p, bin, q)) && Added(p, WithSub(p, bin, q), i, ok)
  {
    var d, r := p.iDivisor, WithSub(p, bin, q);
    IsSubHas(p, bin, sub);
    NumberBack(i, d);
    WithSubValid(p, bin, q);
    forall j: nat
      ensures Has(r, j) ==> Has(p, j) || j == i
      ensures Missing(p, r, i, j) ==> !ok && (j == i || Respread(p, i, j))
    {
      if 1 <= j <= p.iSize {
        WithSubHas(p, bin, q, j);
        if Bin(j, d) == bin { SubAdded(p, i, bin, sub, q, ok, j); }
      }
    }
    if !ok {
      var k :| Missing(sub, q, Rest(i, d), k);
      SubMissing(p, i, bin, sub, q, k);
    }
  }

  /** What is missing in the sub-bitmap is missing in the whole. */
  lemma SubMissing(p: Bits, i: nat, bin: nat, sub: Bits, q: Bits, k: nat)
    requires Valid(p) && p.iSize > NBIT && p.iDivisor > 0 && 1 <= i <= p.iSize && bin == Bin(i, p.iDivisor) < NPTR
    requires IsSub(p, bin, sub) && Missing(sub, q, Rest(i, p.iDivisor), k)
    ensures Missing(p, WithSub(p, bin, q), i, NumberAt(bin, k, p.iDivisor))
  {
    var d := p.iDivisor;
    var j := NumberAt(bin, k, d);
    IsSubHas(p, bin, sub);
    NumberBack(i, d);
    NumberBin(bin, k, d);
    assert HasPtr(p.u.s[bin], k) == Has(sub, k);
    assert j <= p.iSize;
    WithSubHas(p, bin, q, j);
  }

  lemma SubAdded(p: Bits, i: nat, bin: nat, sub: Bits, q: Bits, ok: bool, j: nat)
    requires Valid(p) && p.iSize > NBIT && p.iDivisor > 0 && 1 <= i <= p.iSize && bin == Bin(i, p.iDivisor) < NPTR && 1 <= j <= p.iSize
    requires IsSub(p, bin, sub) && Added(sub, q, Rest(i, p.iDivisor), ok) && Bin(j, p.iDivisor) == bin
    ensures Has(q, Rest(j, p.iDivisor)) ==> Has(p, j) || j == i
    ensures (Has(p, j) || j == i) && !Has(q, Rest(j, p.iDivisor)) ==> !ok && (j == i || Respread(p, i, j))
  {
    var m, k := Rest(i, p.iDivisor), Rest(j, p.iDivisor);
    IsSubHas(p, bin, sub);
    assert HasPtr(p.u.s[bin], k) == Has(sub, k);
    if k == m { BinsApart(p.iDivisor, i, j); }
    if Missing(sub, q, m, k) && k != m { assert RespreadPtr(p.u.s[bin], m, k) == Respread(sub, m, k); }
  }

  /** sqlite3BitvecSet.  Whether there is memory for the nth request is mem(n); the
      source has no more than a request for each sub-bitmap.  Where ok is false
      something is missing; numbers are lost only where a table was spread again. */
  method Set(p: Bits, i: nat, mem: nat -> bool, n: nat) returns (ok: bool, q: Bits, m: nat)
    requires Valid(p) && 1 <= i <= p.iSize
    ensures Valid(q) && Added(p, q, i, ok) && n <= m
    ensures NoMemory(mem, n) ==> Starved(p, q, i)
    ensures p.u.Subs? ==> q.u.Subs?
    ensures p.u.Hash? && p.nSet + 1 < MXHASH ==> ok && q.u.Hash? && q.nSet <= p.nSet + 1
    decreases p.iSize, if p.u.Hash? then 1 else 0
  {
    if p.iSize <= NBIT {
      SetBit(p, i, true);
      return true, p.(u := Bitmap(WithBit(p.u.a, i - 1, true))), n;
    }
    if p.iDivisor > 0 {
      ok, q, m := SetSub(p, i, mem, n);
      return;
    }
    var h := p.u.h;
    var t := Probe(h, i, p.iSize);
    if h[t] == i { return true, p, n; }
    if p.nSet + 1 >= MXHASH {
      ok, q, m := Spill(p, i, mem, n);
      return;
    }
    PutInTable(p, i, t);
    AllAdded(p, p.(nSet := p.nSet + 1, u := Hash(h[t := i])), i);
    return true, p.(nSet := p.nSet + 1, u := Hash(h[t := i])), n;
  }

  /** There is no memory for the sub-bitmap of i. */
  lemma NoSub(p: Bits, i: nat, bin: nat)
    requires Valid(p) && p.iSize > NBIT && p.iDivisor > 0 && 1 <= i <= p.iSize && bin == Bin(i, p.iDivisor) < NPTR && p.u.s[bin].Nil?
    ensures Added(p, p, i, false) && Starved(p, p, i)
  {
    assert !HasPtr(p.u.s[bin], Rest(i, p.iDivisor));
    assert Missing(p, p, i, i);
  }

  lemma StarvedInSub(p: Bits, i: nat, bin: nat, q: Bits)
    requires Valid(p) && p.iSize > NBIT && p.iDivisor > 0 && 1 <= i <= p.iSize && bin == Bin(i, p.iDivisor) < NPTR && p.u.s[bin].To?
    requires Starved(p.u.s[bin].b, q, Rest(i, p.iDivisor)) && q.iSize == p.iDivisor
    ensures Starved(p, WithSub(p, bin, q), i)
  {
    var d, r, sub := p.iDivisor, WithSub(p, bin, q), p.u.s[bin].b;
    forall j: nat ensures Has(r, j) <==> (Has(p, j) && !Respread(p, i, j)) || (j == i && Ready(p, i)) {
      if 1 <= j <= p.iSize {
        WithSubHas(p, bin, q, j);
        StarvedAt(p, i, bin, q, j);
      }
    }
  }

  lemma StarvedAt(p: Bits, i: nat, bin: nat, q: Bits, j: nat)
    requires Valid(p) && p.iSize > NBIT && p.iDivisor > 0 && 1 <= i <= p.iSize && bin == Bin(i, p.iDivisor) < NPTR && p.u.s[bin].To?
    requires Starved(p.u.s[bin].b, q, Rest(i, p.iDivisor)) && 1 <= j <= p.iSize
    ensures Bin(j, p.iDivisor) == bin ==>
      (Has(q, Rest(j, p.iDivisor)) <==> (Has(p, j) && !Respread(p, i, j)) || (j == i && Ready(p, i)))
    ensures Bin(j, p.iDivisor) != bin ==> !Respread(p, i, j) && j != i
  {
    var d, sub := p.iDivisor, p.u.s[bin].b;
    if Bin(j, d) == bin {
      var m, k := Rest(i, d), Rest(j, d);
      assert HasPtr(p.u.s[bin], k) == Has(sub, k);
      assert RespreadPtr(p.u.s[bin], m, k) == Respread(sub, m, k);
      assert ReadyPtr(p.u.s[bin], m) == Ready(sub, m);
      if k == m { BinsApart(d, i, j); }
    }
  }

  /** Set a number in its sub-bitmap, which is made if it is not there. */
  method SetSub(p: Bits, i: nat, mem: nat -> bool, n: nat) returns (ok: bool, q: Bits, m: nat)
    requires Valid(p) && 1 <= i <= p.iSize && p.iSize > NBIT && p.iDivisor > 0
    ensures Valid(q) && Added(p, q, i, ok) && q.u.Subs? && n <= m
    ensures NoMemory(mem, n) ==> Starved(p, q, i)
    ensures NoMemory(mem, n) && (forall b: nat | b < NPTR :: p.u.s[b].Nil?) ==> q == p
    decreases p.iSize, 0, 0
  {
    BinInRange(p.iSize, i);
    var bin, k := Divide(i, p.iDivisor);
    var sub := Empty(p.iDivisor);
    m := n;
    if p.u.s[bin].Nil? {
      EmptyOk(p.iDivisor);
      m := n + 1;
      if !mem(n) {
        NoSub(p, i, bin);
        return false, p, m;
      }
    } else {
      assert p.u.s[bin] in p.u.s;
      sub := p.u.s[bin].b;
    }
    var r;
    ok, r, m := Set(sub, k, mem, m);
    SetInSub(p, i, bin, sub, r, ok);
    if NoMemory(mem, n) { StarvedInSub(p, i, bin, r); }
    q := WithSub(p, bin, r);
  }

  /** How far a table has been spread: j of its slots and i are in sub-bitmaps. */
  ghost predicate Spread(p: Bits, q: Bits, i: nat, j: nat, ok: bool) {
    && p.u.Hash? && j <= |p.u.h| && (forall x: nat | Has(q, x) :: x == i || x in p.u.h[..j])
    && (ok <==> Has(q, i) && forall k: nat | k < j && p.u.h[k] != 0 :: Has(q, p.u.h[k]))
  }

  lemma SpreadNext(p: Bits, q: Bits, i: nat, j: nat, ok: bool, r: Bits, rc: bool)
    requires Valid(p) && p.u.Hash? && j < NINT && i !in p.u.h && i > 0 && Spread(p, q, i, j, ok) && p.u.h[j] != 0
    requires Added(q, r, p.u.h[j], rc)
    ensures Spread(p, r, i, j + 1, ok && rc)
  {
    var h, v := p.u.h, p.u.h[j];
    assert h[..j + 1] == h[..j] + [v];
    if !ok {
      if !Has(q, i) {
        assert !Has(r, i);
      } else {
        var k: nat :| k < j && h[k] != 0 && !Has(q, h[k]);
        assert h[k] != v && !Has(r, h[k]);
      }
    } else if !rc {
      var x :| Missing(q, r, v, x);
      if x != i && x != v { var k: nat :| k < j && h[k] == x; }
    } else {
      forall k: nat | k < j + 1 && h[k] != 0 ensures Has(r, h[k]) {
        assert k < j ==> Has(q, h[k]);
        assert !Missing(q, r, v, h[k]);
      }
      assert !Missing(q, r, v, i);
    }
  }

  lemma SpreadAll(p: Bits, q: Bits, i: nat, ok: bool)
    requires Valid(p) && p.u.Hash? && 1 <= i <= p.iSize && q.iSize == p.iSize && i !in p.u.h && p.nSet + 1 >= MXHASH
    requires Spread(p, q, i, NINT, ok)
    ensures Added(p, q, i, ok)
  {
    var h := p.u.h;
    assert h[..NINT] == h;
    forall j: nat ensures Missing(p, q, i, j) ==> !ok && (j == i || Respread(p, i, j)) {
      if Missing(p, q, i, j) && j != i { var k: nat :| k < NINT && h[k] == j; }
    }
    if !ok {
      if Has(q, i) {
        var k: nat :| k < NINT && h[k] != 0 && !Has(q, h[k]);
        assert Missing(p, q, i, h[k]);
      } else {
        assert Missing(p, q, i, i);
      }
    }
  }

  /** The table is full enough: turn it into sub-bitmaps and put everything in
      again. */
  method Spill(p: Bits, i: nat, mem: nat -> bool, n: nat) returns (ok: bool, q: Bits, m: nat)
    requires Valid(p) && 1 <= i <= p.iSize && p.u.Hash? && i !in p.u.h && p.nSet + 1 >= MXHASH
    ensures Valid(q) && Added(p, q, i, ok) && q.u.Subs? && n <= m
    ensures NoMemory(mem, n) ==> forall x :: !Has(q, x)
    decreases p.iSize, 0, 1
  {
    var aiValues := p.u.h;
    var start := Bits(p.iSize, p.nSet + 1, Divisor(p.iSize), Subs(seq(NPTR, _ => Nil)));
    BinInRange(p.iSize, i);
    SpillStart(start);
    ok, q, m := SetSub(start, i, mem, n);
    SpreadFirst(p, start, q, i, ok);
    var j: nat := 0;
    while j < NINT
      invariant j <= NINT && Valid(q) && q.u.Subs? && q.iSize == p.iSize && n <= m
      invariant Spread(p, q, i, j, ok)
      invariant NoMemory(mem, n) ==> q == start
    {
      if aiValues[j] != 0 {
        var rc, r;
        rc, r, m := SetSub(q, aiValues[j], mem, m);
        SpreadNext(p, q, i, j, ok, r, rc);
        ok, q := ok && rc, r;
      } else {
        assert aiValues[..j + 1] == aiValues[..j] + [0];
      }
      j := j + 1;
    }
    SpreadAll(p, q, i, ok);
  }

  lemma SpreadFirst(p: Bits, start: Bits, q: Bits, i: nat, ok: bool)
    requires p.u.Hash? && (forall x :: !Has(start, x)) && Added(start, q, i, ok)
    ensures Spread(p, q, i, 0, ok)
  {
    assert ok <==> !Missing(start, q, i, i);
  }

  lemma SpillStart(p: Bits)
    requires NBIT < p.iSize && p.iSize + NPTR - 1 < U32 && p.iDivisor == Divisor(p.iSize) > 0 && p.u == Subs(seq(NPTR, _ => Nil))
    ensures Valid(p) && forall x :: !Has(p, x)
  {
    forall x: nat ensures !Has(p, x) {
      if 1 <= x <= p.iSize {
        BinInRange(p.iSize, x);
        assert p.u.s[Bin(x, p.iDivisor)] == Nil;
      }
    }
  }

  // ---------------------------------------------------------------------
  // A table whose numbers are lost
  // ---------------------------------------------------------------------

  /** A number that hashes to slot t; 98 * 37 is 1 more than a multiple of 125. */
  function NumberFor(t: nat): (v: nat)
    ensures 125 <= v < 250
  {
    98 * t % 125 + 125
  }

  lemma NumberForHash(t: nat)
    requires t < NINT
    ensures HashOf(NumberFor(t)) == t
  {
    var q, v := 98 * t / 125, NumberFor(t);
    assert v == 98 * t - 125 * q + 125;
    RemainderIs(v * 37, t, 29 * t - 37 * q + 37);
  }

  lemma RemainderIs(x: nat, t: nat, k: int)
    requires t < NINT && x == t + 125 * k && x < U32
    ensures x % U32 % NINT == t
  {
  }

  /** A table with numbers in its first 61 slots. */
  function FullTable(): (h: seq<nat>)
    ensures |h| == NINT && forall t | 0 <= t < NINT :: h[t] == if t < 61 then NumberFor(t) else 0
  {
    seq(NINT, t requires 0 <= t < NINT => if t < 61 then NumberFor(t) else 0)
  }

  lemma {:induction false} FullTableUsed(n: nat)
    requires n <= NINT
    ensures Used(FullTable(), n) == if n < 61 then n else 61
  {
    if n > 0 { FullTableUsed(n - 1); }
  }

  function Full(): Bits {
    Bits(4001, 61, 0, Hash(FullTable()))
  }

  lemma FullValid()
    ensures Valid(Full())
  {
    var h := FullTable();
    FullTableUsed(NINT);
    forall t: nat | t < NINT && h[t] != 0 ensures HashOf(h[t]) == t && PathFull(h, h[t], t) {
      NumberForHash(t);
      assert Steps(t, t) == 0;
    }
  }

  /** Setting one number more without memory loses all 61. */
  method SpillLoses() returns (ok: bool, q: Bits)
    ensures Valid(Full()) && !ok && forall t: nat | t < 61 :: Has(Full(), NumberFor(t)) && !Has(q, NumberFor(t))
  {
    FullValid();
    var m;
    ok, q, m := Set(Full(), 1, _ => false, 0);
    forall t: nat | t < 61 ensures Has(Full(), NumberFor(t)) && Respread(Full(), 1, NumberFor(t)) {
      assert FullTable()[t] == NumberFor(t);
    }
    assert Missing(Full(), q, 1, NumberFor(0));
  }

  // ---------------------------------------------------------------------
  // Clear
  // ---------------------------------------------------------------------

  /** q has what p has but for i. */
  ghost predicate Removed(p: Bits, q: Bits, i: nat) {
    q.iSize == p.iSize && forall j :: Has(q, j) <==> Has(p, j) && j != i
  }

  lemma ClearInSub(p: Bits, i: nat, bin: nat, q: Bits)
    requires Valid(p) && p.iSize > NBIT && p.iDivisor > 0 && 1 <= i <= p.iSize && bin == Bin(i, p.iDivisor) < NPTR
    requires p.u.s[bin].To? && Valid(q) && Removed(p.u.s[bin].b, q, Rest(i, p.iDivisor))
    ensures Valid(WithSub(p, bin, q)) && Removed(p, WithSub(p, bin, q), i)
  {
    assert p.u.s[bin] in p.u.s;
    var r := WithSub(p, bin, q);
    WithSubValid(p, bin, q);
    forall j: nat ensures Has(r, j) <==> Has(p, j) && j != i {
      if 1 <= j <= p.iSize {
        WithSubHas(p, bin, q, j);
        SubRemoved(p, i, bin, q, j);
      }
    }
  }

  lemma SubRemoved(p: Bits, i: nat, bin: nat, q: Bits, j: nat)
    requires p.u.Subs? && p.iDivisor > 0 && bin < |p.u.s| && 1 <= i && bin == Bin(i, p.iDivisor) && 1 <= j <= p.iSize
    requires p.u.s[bin].To? && Removed(p.u.s[bin].b, q, Rest(i, p.iDivisor))
    ensures Bin(j, p.iDivisor) == bin ==> (Has(q, Rest(j, p.iDivisor)) <==> Has(p, j) && j != i)
    ensures Bin(j, p.iDivisor) != bin ==> j != i
  {
    var k := Rest(j, p.iDivisor);
    if Bin(j, p.iDivisor) == bin {
      assert HasPtr(p.u.s[bin], k) == Has(p.u.s[bin].b, k);
      if Rest(j, p.iDivisor) == Rest(i, p.iDivisor) { BinsApart(p.iDivisor, i, j); }
    }
  }

  /** sqlite3BitvecClear. */
  method Clear(p: Bits, i: nat) returns (q: Bits)
    requires Valid(p) && 1 <= i <= p.iSize
    ensures Valid(q) && Removed(p, q, i)
    decreases p
  {
    if p.iSize <= NBIT {
      SetBit(p, i, false);
      return p.(u := Bitmap(WithBit(p.u.a, i - 1, false)));
    }
    if p.iDivisor > 0 {
      BinInRange(p.iSize, i);
      var bin, k := Divide(i, p.iDivisor);
      assert p.u.s[bin] in p.u.s;
      if p.u.s[bin].To? {
        var r := Clear(p.u.s[bin].b, k);
        ClearInSub(p, i, bin, r);
        return WithSub(p, bin, r);
      }
      assert !Has(p, i);
      return p;
    }
    q := Rebuild(p, i);
  }

  lemma {:induction false} UsedMonotone(h: seq<nat>, n: nat, m: nat)
    requires n <= m <= |h|
    ensures Used(h, n) <= Used(h, m)
  {
    if n < m { UsedMonotone(h, n, m - 1); }
  }

  /** q has the values up to place j but i, and nothing else. */
  ghost predicate Rebuilt(q: Bits, aiValues: seq<nat>, j: nat, i: nat) {
    && (forall x: nat | Has(q, x) :: x in aiValues && x != i)
    && (forall k: nat | k < j && k < |aiValues| && aiValues[k] != 0 && aiValues[k] != i :: Has(q, aiValues[k]))
  }

  lemma RebuiltStep(q: Bits, r: Bits, aiValues: seq<nat>, j: nat, i: nat)
    requires j < |aiValues| && Rebuilt(q, aiValues, j, i) && aiValues[j] != i && Added(q, r, aiValues[j], true)
    ensures Rebuilt(r, aiValues, j + 1, i)
  {
    AllAdded(q, r, aiValues[j]);
  }

  lemma RebuiltAll(p: Bits, q: Bits, i: nat)
    requires p.u.Hash? && q.iSize == p.iSize && Rebuilt(q, p.u.h, |p.u.h|, i) && forall k: nat | k < |p.u.h| :: p.u.h[k] <= p.iSize
    ensures Removed(p, q, i)
  {
    forall x: nat ensures Has(q, x) <==> Has(p, x) && x != i {
      if Has(p, x) && x != i { var k: nat :| k < |p.u.h| && p.u.h[k] == x; }
    }
  }

  /** Empty the table and put everything in again but i. */
  method Rebuild(p: Bits, i: nat) returns (q: Bits)
    requires Valid(p) && p.u.Hash?
    ensures Valid(q) && Removed(p, q, i)
  {
    var aiValues := p.u.h;
    q := p.(nSet := 0, u := Hash(Zeros(NINT)));
    ZerosUsed(Zeros(NINT), NINT);
    var j: nat := 0;
    while j < NINT
      invariant j <= NINT && Valid(q) && q.u.Hash? && q.iSize == p.iSize && q.nSet <= Used(aiValues, j)
      invariant Rebuilt(q, aiValues, j, i)
    {
      UsedMonotone(aiValues, j + 1, NINT);
      if aiValues[j] != 0 && aiValues[j] != i {
        var ok, r, _ := Set(q, aiValues[j], _ => true, 0);
        RebuiltStep(q, r, aiValues, j, i);
        q := r;
      }
      j := j + 1;
    }
    RebuiltAll(p, q, i);
  }
}
