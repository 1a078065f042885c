/** Products, quotients and remainders by repeated addition and subtraction. */
module Division {

  /** Multiplication as repeated addition. */
  function Times(q: nat, n: nat): nat {
    if q == 0 then 0 else n + Times(q - 1, n)
  }

  lemma {:induction false} TimesIs(q: nat, n: nat)
    ensures Times(q, n) == q * n
  {
    if q > 0 { TimesIs(q - 1, n); }
  }

  lemma {:induction false} TimesAdd(a: nat, b: nat, n: nat)
    ensures Times(a + b, n) == Times(a, n) + Times(b, n)
  {
    if a > 0 { TimesAdd(a - 1, b, n); }
  }

  lemma {:induction false} TimesPlus(q: nat, j: nat)
    ensures Times(q, j + 1) == Times(q, j) + q
  {
    if q > 0 { TimesPlus(q - 1, j); }
  }

  /** n / d and n % d. */
  function Quot(n: nat, d: nat): nat
    requires d > 0
  {
    if n < d then 0 else 1 + Quot(n - d, d)
  }

  function Rem(n: nat, d: nat): (r: nat)
    requires d > 0
    ensures r < d
  {
    if n < d then n else Rem(n - d, d)
  }

  /** How many pieces of d hold n. */
  function Pieces(n: nat, d: nat): nat
    requires d > 0
  {
    if n == 0 then 0 else if n <= d then 1 else 1 + Pieces(n - d, d)
  }

  lemma {:induction false} TimesQuot(n: nat, d: nat)
    requires d > 0
    ensures n == Times(Quot(n, d), d) + Rem(n, d)
  {
    if n >= d { TimesQuot(n - d, d); }
  }

  lemma {:induction false} QuotTimes(q: nat, r: nat, d: nat)
    requires r < d
    ensures Quot(Times(q, d) + r, d) == q && Rem(Times(q, d) + r, d) == r
  {
    if q > 0 { QuotTimes(q - 1, r, d); }
  }

  lemma {:induction false} PiecesTimes(q: nat, r: nat, d: nat)
    requires 0 < r <= d
    ensures Pieces(Times(q, d) + r, d) == q + 1
  {
    if q > 0 { PiecesTimes(q - 1, r, d); }
  }

  lemma {:induction false} PiecesGrow(a: nat, b: nat, d: nat)
    requires a <= b && d > 0
    ensures Pieces(a, d) <= Pieces(b, d)
  {
    if a > d { PiecesGrow(a - d, b - d, d); }
  }

  lemma {:induction false} QuotBelow(a: nat, b: nat, d: nat)
    requires a < b && d > 0
    ensures Quot(a, d) < Pieces(b, d)
  {
    if a >= d { QuotBelow(a - d, b - d, d); }
  }

  lemma {:induction false} TimesGrow(a: nat, b: nat, d: nat)
    requires a <= b
    ensures Times(a, d) <= Times(b, d)
  {
    if a > 0 { TimesGrow(a - 1, b - 1, d); }
  }

  /** The pieces are enough, and one fewer is not; there are no more of them than
      units. */
  lemma {:induction false} TimesPieces(n: nat, d: nat)
    requires n > 0 && d > 0
    ensures Times(Pieces(n, d) - 1, d) < n <= Times(Pieces(n, d), d) && 1 <= Pieces(n, d) <= n
  {
    if n > d { TimesPieces(n - d, d); }
  }

  /** There is one quotient and one remainder. */
  lemma SameParts(d: nat, q: nat, r: nat, p: nat, s: nat)
    requires r < d && s < d && Times(q, d) + r == Times(p, d) + s
    ensures q == p && r == s
  {
    QuotTimes(q, r, d);
    QuotTimes(p, s, d);
  }

  /** The machine's division and remainder. */
  lemma DivIsQuot(n: nat, d: nat)
    requires d > 0
    ensures n / d == Quot(n, d) && n % d == Rem(n, d)
  {
    var q, r := n / d, n % d;
    TimesQuot(n, d);
    TimesIs(q, d);
    SameParts(d, q, r, Quot(n, d), Rem(n, d));
  }

  /** The machine's division rounding up. */
  lemma DivIsPieces(n: nat, d: nat)
    requires d > 0
    ensures (n + d - 1) / d == Pieces(n, d)
  {
    DivIsQuot(n + d - 1, d);
    UpIsPieces(n, d);
  }

  lemma {:induction false} UpIsPieces(n: nat, d: nat)
    requires d > 0
    ensures Quot(n + d - 1, d) == Pieces(n, d)
  {
    if n > d { UpIsPieces(n - d, d); }
  }
}
