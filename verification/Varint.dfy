/** Writing variable-length integers (util.c:505-530), and reading them back. */
module Varints {
  import opened CellFormat

  /** n bytes of seven bits of v each, all marked as followed by another. */
  function Groups(v: nat, n: nat): (p: seq<Byte>)
    ensures |p| == n
  {
    if n == 0 then [] else Groups(v / 128, n - 1) + [v % 128 + 128]
  }

  /** v without its last n groups of seven bits. */
  function Above(v: nat, n: nat): nat {
    if n == 0 then v else Above(v / 128, n - 1)
  }

  /** The last n groups of seven bits of v after acc. */
  function Joined(acc: nat, v: nat, n: nat): nat {
    if n == 0 then acc else Joined(acc, v / 128, n - 1) * 128 + v % 128
  }

  lemma {:induction false} JoinedAll(v: nat, n: nat)
    requires Above(v, n) == 0
    ensures Joined(0, v, n) == v
  {
    if n > 0 { JoinedAll(v / 128, n - 1); }
  }

  ghost predicate Holds(d: seq<Byte>, i: nat, p: seq<Byte>) {
    i + |p| <= |d| && forall j: nat | j < |p| :: d[i + j] == p[j]
  }

  lemma {:induction false} ReadGroups(d: seq<Byte>, a: nat, i: nat, acc: nat, v: nat, n: nat)
    requires a <= i && i + n <= a + 8 && Holds(d, i, Groups(v, n))
    ensures VarintFrom(d, a, i, acc) == VarintFrom(d, a, i + n, Joined(acc, v, n))
  {
    if n > 0 {
      var p, q := Groups(v, n), Groups(v / 128, n - 1);
      forall j: nat | j < |q| ensures d[i + j] == q[j] { assert p[j] == q[j]; }
      ReadGroups(d, a, i, acc, v / 128, n - 1);
      assert d[i + (n - 1)] == p[n - 1];
    }
  }

  const U56: nat := 0x100_0000_0000_0000
  const U64: nat := 0x1_0000_0000_0000_0000

  /** What is written for v: nine bytes where eight groups of seven bits are not
      enough, else as few bytes as possible. */
  ghost predicate Written(v: nat, p: seq<Byte>) {
    1 <= |p| <= 9 && if v >= U56 then p == Groups(v / 256, 8) + [v % 256] else Short(v, p)
  }

  /** The last byte is not marked; all groups are there, and without the first one
      not. */
  ghost predicate Short(v: nat, p: seq<Byte>) {
    var n: int := |p| - 1;
    0 <= n <= 7 && p == Groups(v / 128, n) + [v % 128] && Above(v, n + 1) == 0 && (n > 0 ==> Above(v, n) != 0)
  }

  /** 128 to the n. */
  function Bound(n: nat): nat {
    if n == 0 then 1 else 128 * Bound(n - 1)
  }

  lemma BoundEight()
    ensures Bound(8) == U56
  {
    assert Bound(2) == 0x4000 && Bound(4) == 0x1000_0000 && Bound(6) == 0x400_0000_0000;
  }

  lemma {:induction false} AboveBound(v: nat, n: nat)
    requires v < Bound(n)
    ensures Above(v, n) == 0
  {
    if n > 0 { AboveBound(v / 128, n - 1); }
  }

  lemma {:induction false} AboveNext(v: nat, n: nat)
    ensures Above(v, n + 1) == Above(v, n) / 128
  {
    if n > 0 { AboveNext(v / 128, n - 1); }
  }

  /** One group more is the group before these. */
  lemma {:induction false} GroupsGrow(v: nat, n: nat)
    ensures Groups(v, n + 1) == [Above(v, n) % 128 + 128] + Groups(v, n)
  {
    if n > 0 {
      GroupsGrow(v / 128, n - 1);
    }
  }

  /** sqlite3PutVarint. */
  method PutVarint(v0: nat) returns (p: seq<Byte>)
    requires v0 < U64
    ensures Written(v0, p)
  {
    if v0 < U56 {
      p := PutShort(v0);
      return;
    }
    var v: nat := v0 / 256;
    p := [];
    var i: int := 7;
    while i >= 0
      invariant -1 <= i <= 7 && p == Groups(v0 / 256, 7 - i) && v == Above(v0 / 256, 7 - i)
    {
      GroupsGrow(v0 / 256, 7 - i);
      AboveNext(v0 / 256, 7 - i);
      p := [v % 128 + 128] + p;
      v := v / 128;
      i := i - 1;
    }
    p := p + [v0 % 256];
  }

  /** The groups from the last to the first; buf is the buffer turned round. */
  method PutShort(v0: nat) returns (buf: seq<Byte>)
    requires v0 < U56
    ensures Short(v0, buf)
  {
    BoundEight();
    var v: nat := v0 / 128;
    ghost var n: nat := 0;
    var more: seq<Byte> := [];
    while v != 0
      invariant n <= 7 && more == Groups(v0 / 128, n) && v == Above(v0 / 128, n) < Bound(7 - n)
      invariant n > 0 ==> Above(v0, n) != 0
      decreases v
    {
      GroupsGrow(v0 / 128, n);
      AboveNext(v0 / 128, n);
      more := [v % 128 + 128] + more;
      v := v / 128;
      n := n + 1;
    }
    buf := more + [v0 % 128];
  }

  /** What was written is read back, wherever it stands. */
  lemma ReadWritten(v: nat, p: seq<Byte>, d: seq<Byte>, a: nat)
    requires v < U64 && Written(v, p) && Holds(d, a, p)
    ensures GetVarint(d, a) == Varint(v, |p|)
  {
    var n: nat := |p| - 1;
    var w := if v >= U56 then v / 256 else v / 128;
    var groups := Groups(w, n);
    forall j: nat | j < n ensures d[a + j] == groups[j] { assert p[j] == groups[j]; }
    ReadGroups(d, a, a, 0, w, n);
    assert d[a + n] == p[n];
    if v >= U56 {
      BoundEight();
      AboveBound(w, n);
    }
    JoinedAll(w, n);
  }
}
