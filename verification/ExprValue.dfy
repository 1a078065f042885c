/** What the code for an expression computes, and when that is what the expression
    means: OP_And, OP_Or and OP_Not make integers of their operands, jumps do not
    (vdbe.c:1725-1775; expr.c:2893-3162). */
module ExprValue {
  import opened SqlLogic
  import opened ExprCode

  // ---------------------------------------------------------------------
  // What the code computes
  // ---------------------------------------------------------------------

  /** The value that the code puts into a register. */
  function Computed(e: Expr, row: Row, regs: Regs): Val
    decreases e, 0
  {
    match e
    case Leaf(i) => row(i)
    case Lit(v) => v
    case Reg(k) => Get(regs, k)
    case Cmp(op, l, r) => ToVal(Compare(op, Computed(l, row, regs), Computed(r, row, regs)))
    case IsNull(l) => ToVal(if Computed(l, row, regs).Null? then True else False)
    case NotNull(l) => ToVal(if Computed(l, row, regs).Null? then False else True)
    case And(l, r) => ToVal(And3(IntTruth(Computed(l, row, regs)), IntTruth(Computed(r, row, regs))))
    case Or(l, r) => ToVal(Or3(IntTruth(Computed(l, row, regs)), IntTruth(Computed(r, row, regs))))
    case Not(l) => ToVal(Not3(IntTruth(Computed(l, row, regs))))
    case Between(x, y, z) =>
      var v := Computed(x, row, regs);
      ToVal(And3(Compare(Ge, v, Computed(y, row, regs)), Compare(Le, v, Computed(z, row, regs))))
    case Case(w) => ComputedWhens(w, row, regs)
    case CaseOf(x, w) => ComputedWhensOf(Computed(x, row, regs), w, row, regs)
  }

  function ComputedWhens(w: Whens, row: Row, regs: Regs): Val
    decreases w, 0
  {
    match w
    case NoElse => Null
    case Else(e) => Computed(e, row, regs)
    case When(t, e, rest) => if JumpTruth(t, row, regs) == True then Computed(e, row, regs) else ComputedWhens(rest, row, regs)
  }

  function ComputedWhensOf(v: Val, w: Whens, row: Row, regs: Regs): Val
    decreases w, 0
  {
    match w
    case NoElse => Null
    case Else(e) => Computed(e, row, regs)
    case When(t, e, rest) =>
      if Compare(Eq, v, Computed(t, row, regs)) == True then Computed(e, row, regs) else ComputedWhensOf(v, rest, row, regs)
  }

  /** What the jumps for a condition take it for: there AND, OR and NOT are jumps
      themselves. */
  function JumpTruth(e: Expr, row: Row, regs: Regs): Truth
    decreases e, 1
  {
    match e
    case And(l, r) => And3(JumpTruth(l, row, regs), JumpTruth(r, row, regs))
    case Or(l, r) => Or3(JumpTruth(l, row, regs), JumpTruth(r, row, regs))
    case Not(l) => Not3(JumpTruth(l, row, regs))
    case _ => TruthOf(Computed(e, row, regs))
  }

  /** It depends on the registers that occur, and no others. */
  lemma {:induction false} ComputedKept(e: Expr, row: Row, a: Regs, b: Regs)
    requires forall q | Uses(e, q) :: Get(a, q) == Get(b, q)
    ensures Computed(e, row, a) == Computed(e, row, b) && JumpTruth(e, row, a) == JumpTruth(e, row, b)
    decreases e
  {
    match e
    case Leaf(_) =>
    case Lit(_) =>
    case Reg(k) => assert Uses(e, k);
    case Cmp(_, l, r) => KeptIn(e, l, a, b); KeptIn(e, r, a, b); ComputedKept(l, row, a, b); ComputedKept(r, row, a, b);
    case IsNull(l) => KeptIn(e, l, a, b); ComputedKept(l, row, a, b);
    case NotNull(l) => KeptIn(e, l, a, b); ComputedKept(l, row, a, b);
    case And(l, r) => KeptIn(e, l, a, b); KeptIn(e, r, a, b); ComputedKept(l, row, a, b); ComputedKept(r, row, a, b);
    case Or(l, r) => KeptIn(e, l, a, b); KeptIn(e, r, a, b); ComputedKept(l, row, a, b); ComputedKept(r, row, a, b);
    case Not(l) => KeptIn(e, l, a, b); ComputedKept(l, row, a, b);
    case Between(x, y, z) =>
      KeptIn(e, x, a, b); KeptIn(e, y, a, b); KeptIn(e, z, a, b);
      ComputedKept(x, row, a, b); ComputedKept(y, row, a, b); ComputedKept(z, row, a, b);
    case Case(w) =>
      forall q | UsesIn(w, q) ensures Get(a, q) == Get(b, q) { assert Uses(e, q); }
      ComputedWhensKept(w, row, a, b);
    case CaseOf(x, w) =>
      forall q | UsesIn(w, q) ensures Get(a, q) == Get(b, q) { assert Uses(e, q); }
      KeptIn(e, x, a, b);
      ComputedKept(x, row, a, b);
      ComputedWhensOfKept(Computed(x, row, a), w, row, a, b);
  }

  lemma {:induction false} ComputedWhensKept(w: Whens, row: Row, a: Regs, b: Regs)
    requires forall q | UsesIn(w, q) :: Get(a, q) == Get(b, q)
    ensures ComputedWhens(w, row, a) == ComputedWhens(w, row, b)
    decreases w
  {
    match w
    case NoElse =>
    case Else(e) =>
      forall q | Uses(e, q) ensures Get(a, q) == Get(b, q) { assert UsesIn(w, q); }
      ComputedKept(e, row, a, b);
    case When(t, e, rest) =>
      forall q | Uses(t, q) || Uses(e, q) || UsesIn(rest, q) ensures Get(a, q) == Get(b, q) { assert UsesIn(w, q); }
      ComputedKept(t, row, a, b);
      ComputedKept(e, row, a, b);
      ComputedWhensKept(rest, row, a, b);
  }

  lemma {:induction false} ComputedWhensOfKept(v: Val, w: Whens, row: Row, a: Regs, b: Regs)
    requires forall q | UsesIn(w, q) :: Get(a, q) == Get(b, q)
    ensures ComputedWhensOf(v, w, row, a) == ComputedWhensOf(v, w, row, b)
    decreases w
  {
    match w
    case NoElse =>
    case Else(e) =>
      forall q | Uses(e, q) ensures Get(a, q) == Get(b, q) { assert UsesIn(w, q); }
      ComputedKept(e, row, a, b);
    case When(t, e, rest) =>
      forall q | Uses(t, q) || Uses(e, q) || UsesIn(rest, q) ensures Get(a, q) == Get(b, q) { assert UsesIn(w, q); }
      ComputedKept(t, row, a, b);
      ComputedKept(e, row, a, b);
      ComputedWhensOfKept(v, rest, row, a, b);
  }

  // ---------------------------------------------------------------------
  // Numbers between -1 and 1
  // ---------------------------------------------------------------------

  /** A number that is not zero and has no integer part. */
  predicate Fraction(v: Val) {
    v.Num? && v.r != 0.0 && -1.0 < v.r < 1.0
  }

  /** AND meets a fraction only where the other operand is false. */
  predicate AndRight(a: Val, b: Val) {
    (Fraction(a) ==> TruthOf(b) == False) && (Fraction(b) ==> TruthOf(a) == False)
  }

  /** OR meets a fraction only where the other operand has an integer part. */
  predicate OrRight(a: Val, b: Val) {
    (Fraction(a) ==> IntTruth(b) == True) && (Fraction(b) ==> IntTruth(a) == True)
  }

  /** The three opcodes are right on exactly these operands. */
  lemma OpcodesExactly(a: Val, b: Val)
    ensures AndLogic(IntTruth(a), IntTruth(b)) == And3(TruthOf(a), TruthOf(b)) <==> AndRight(a, b)
    ensures OrLogic(IntTruth(a), IntTruth(b)) == Or3(TruthOf(a), TruthOf(b)) <==> OrRight(a, b)
    ensures Not3(IntTruth(a)) == Not3(TruthOf(a)) <==> !Fraction(a)
  {
    if a.Num? && b.Num? { assert Fraction(a) || IntTruth(a) == TruthOf(a); }
  }

  // ---------------------------------------------------------------------
  // Whole expressions
  // ---------------------------------------------------------------------

  /** Every AND, OR and NOT whose value is computed on the way meets operands on
      which its opcode is right. */
  predicate Met(e: Expr, row: Row, regs: Regs)
    decreases e, 0
  {
    match e
    case Leaf(_) => true
    case Lit(_) => true
    case Reg(_) => true
    case Cmp(_, l, r) => Met(l, row, regs) && Met(r, row, regs)
    case IsNull(l) => Met(l, row, regs)
    case NotNull(l) => Met(l, row, regs)
    case And(l, r) => Met(l, row, regs) && Met(r, row, regs) && AndRight(Eval(l, row, regs), Eval(r, row, regs))
    case Or(l, r) => Met(l, row, regs) && Met(r, row, regs) && OrRight(Eval(l, row, regs), Eval(r, row, regs))
    case Not(l) => Met(l, row, regs) && !Fraction(Eval(l, row, regs))
    case Between(x, y, z) => Met(x, row, regs) && Met(y, row, regs) && Met(z, row, regs)
    case Case(w) => MetWhens(w, row, regs)
    case CaseOf(x, w) => Met(x, row, regs) && MetWhensOf(Eval(x, row, regs), w, row, regs)
  }

  predicate MetWhens(w: Whens, row: Row, regs: Regs)
    decreases w, 0
  {
    match w
    case NoElse => true
    case Else(e) => Met(e, row, regs)
    case When(t, e, rest) =>
      MetJump(t, row, regs) && if TruthOf(Eval(t, row, regs)) == True then Met(e, row, regs) else MetWhens(rest, row, regs)
  }

  predicate MetWhensOf(v: Val, w: Whens, row: Row, regs: Regs)
    decreases w, 0
  {
    match w
    case NoElse => true
    case Else(e) => Met(e, row, regs)
    case When(t, e, rest) =>
      Met(t, row, regs) && if Compare(Eq, v, Eval(t, row, regs)) == True then Met(e, row, regs) else MetWhensOf(v, rest, row, regs)
  }

  /** The same for a condition that is jumped on. */
  predicate MetJump(e: Expr, row: Row, regs: Regs)
    decreases e, 1
  {
    match e
    case And(l, r) => MetJump(l, row, regs) && MetJump(r, row, regs)
    case Or(l, r) => MetJump(l, row, regs) && MetJump(r, row, regs)
    case Not(l) => MetJump(l, row, regs)
    case _ => Met(e, row, regs)
  }

  /** Every value and every condition on the way is computed as what it is. */
  predicate Right(e: Expr, row: Row, regs: Regs)
    decreases e, 0
  {
    Computed(e, row, regs) == Eval(e, row, regs) &&
    match e
    case Leaf(_) => true
    case Lit(_) => true
    case Reg(_) => true
    case Cmp(_, l, r) => Right(l, row, regs) && Right(r, row, regs)
    case IsNull(l) => Right(l, row, regs)
    case NotNull(l) => Right(l, row, regs)
    case And(l, r) => Right(l, row, regs) && Right(r, row, regs)
    case Or(l, r) => Right(l, row, regs) && Right(r, row, regs)
    case Not(l) => Right(l, row, regs)
    case Between(x, y, z) => Right(x, row, regs) && Right(y, row, regs) && Right(z, row, regs)
    case Case(w) => RightWhens(w, row, regs)
    case CaseOf(x, w) => Right(x, row, regs) && RightWhensOf(Eval(x, row, regs), w, row, regs)
  }

  predicate RightWhens(w: Whens, row: Row, regs: Regs)
    decreases w, 0
  {
    match w
    case NoElse => true
    case Else(e) => Right(e, row, regs)
    case When(t, e, rest) =>
      RightJump(t, row, regs) && if TruthOf(Eval(t, row, regs)) == True then Right(e, row, regs) else RightWhens(rest, row, regs)
  }

  predicate RightWhensOf(v: Val, w: Whens, row: Row, regs: Regs)
    decreases w, 0
  {
    match w
    case NoElse => true
    case Else(e) => Right(e, row, regs)
    case When(t, e, rest) =>
      Right(t, row, regs) && if Compare(Eq, v, Eval(t, row, regs)) == True then Right(e, row, regs) else RightWhensOf(v, rest, row, regs)
  }

  predicate RightJump(e: Expr, row: Row, regs: Regs)
    decreases e, 1
  {
    JumpTruth(e, row, regs) == TruthOf(Eval(e, row, regs)) &&
    match e
    case And(l, r) => RightJump(l, row, regs) && RightJump(r, row, regs)
    case Or(l, r) => RightJump(l, row, regs) && RightJump(r, row, regs)
    case Not(l) => RightJump(l, row, regs)
    case _ => Right(e, row, regs)
  }

  ghost predicate Exactly(e: Expr, row: Row, regs: Regs) {
    (Right(e, row, regs) <==> Met(e, row, regs)) && (RightJump(e, row, regs) <==> MetJump(e, row, regs))
  }

  /** One AND, OR or NOT. */
  lemma LogicExactly(e: Expr, row: Row, regs: Regs)
    requires (e.And? || e.Or? || e.Not?) && Exactly(e.l, row, regs) && (!e.Not? ==> Exactly(e.r, row, regs))
    ensures Exactly(e, row, regs)
  {
    match e
    case And(l, r) => OpcodesExactly(Eval(l, row, regs), Eval(r, row, regs));
    case Or(l, r) => OpcodesExactly(Eval(l, row, regs), Eval(r, row, regs));
    case Not(l) => OpcodesExactly(Eval(l, row, regs), Null);
  }

  /** Everything on the way is right exactly when every AND, OR and NOT meets such
      operands. */
  lemma {:induction false} RightExactly(e: Expr, row: Row, regs: Regs)
    ensures Right(e, row, regs) <==> Met(e, row, regs)
    ensures RightJump(e, row, regs) <==> MetJump(e, row, regs)
    decreases e
  {
    match e
    case Leaf(_) =>
    case Lit(_) =>
    case Reg(_) =>
    case Cmp(_, l, r) => RightExactly(l, row, regs); RightExactly(r, row, regs);
    case IsNull(l) => RightExactly(l, row, regs);
    case NotNull(l) => RightExactly(l, row, regs);
    case And(l, r) => RightExactly(l, row, regs); RightExactly(r, row, regs); LogicExactly(e, row, regs);
    case Or(l, r) => RightExactly(l, row, regs); RightExactly(r, row, regs); LogicExactly(e, row, regs);
    case Not(l) => RightExactly(l, row, regs); LogicExactly(e, row, regs);
    case Between(x, y, z) => RightExactly(x, row, regs); RightExactly(y, row, regs); RightExactly(z, row, regs);
    case Case(w) => WhensExactly(w, row, regs);
    case CaseOf(x, w) => RightExactly(x, row, regs); WhensOfExactly(Eval(x, row, regs), w, row, regs);
  }

  lemma {:induction false} WhensExactly(w: Whens, row: Row, regs: Regs)
    ensures RightWhens(w, row, regs) <==> MetWhens(w, row, regs)
    ensures RightWhens(w, row, regs) ==> ComputedWhens(w, row, regs) == EvalWhens(w, row, regs)
    decreases w
  {
    match w
    case NoElse =>
    case Else(e) => RightExactly(e, row, regs);
    case When(t, e, rest) => RightExactly(t, row, regs); RightExactly(e, row, regs); WhensExactly(rest, row, regs);
  }

  lemma {:induction false} WhensOfExactly(v: Val, w: Whens, row: Row, regs: Regs)
    ensures RightWhensOf(v, w, row, regs) <==> MetWhensOf(v, w, row, regs)
    ensures RightWhensOf(v, w, row, regs) ==> ComputedWhensOf(v, w, row, regs) == EvalWhensOf(v, w, row, regs)
    decreases w
  {
    match w
    case NoElse =>
    case Else(e) => RightExactly(e, row, regs);
    case When(t, e, rest) => RightExactly(t, row, regs); RightExactly(e, row, regs); WhensOfExactly(v, rest, row, regs);
  }

  // ---------------------------------------------------------------------
  // Rows
  // ---------------------------------------------------------------------

  /** All numbers written in an expression are 0 or have an integer part, and there
      are no registers. */
  predicate WholeLits(e: Expr)
    decreases e
  {
    match e
    case Leaf(_) => true
    case Lit(v) => !Fraction(v)
    case Reg(_) => false
    case Cmp(_, l, r) => WholeLits(l) && WholeLits(r)
    case IsNull(l) => WholeLits(l)
    case NotNull(l) => WholeLits(l)
    case And(l, r) => WholeLits(l) && WholeLits(r)
    case Or(l, r) => WholeLits(l) && WholeLits(r)
    case Not(l) => WholeLits(l)
    case Between(x, y, z) => WholeLits(x) && WholeLits(y) && WholeLits(z)
    case Case(w) => WholeWhens(w)
    case CaseOf(x, w) => WholeLits(x) && WholeWhens(w)
  }

  predicate WholeWhens(w: Whens)
    decreases w
  {
    match w
    case NoElse => true
    case Else(e) => WholeLits(e)
    case When(t, e, rest) => WholeLits(t) && WholeLits(e) && WholeWhens(rest)
  }

  /** No column is a fraction. */
  ghost predicate WholeRow(row: Row) {
    forall i: nat :: !Fraction(row(i))
  }

  lemma {:induction false} WholeIsMet(e: Expr, row: Row, regs: Regs)
    requires WholeLits(e) && WholeRow(row)
    ensures Met(e, row, regs) && MetJump(e, row, regs) && !Fraction(Eval(e, row, regs))
    decreases e
  {
    match e
    case Leaf(_) =>
    case Lit(_) =>
    case Cmp(_, l, r) => WholeIsMet(l, row, regs); WholeIsMet(r, row, regs);
    case IsNull(l) => WholeIsMet(l, row, regs);
    case NotNull(l) => WholeIsMet(l, row, regs);
    case And(l, r) => WholeIsMet(l, row, regs); WholeIsMet(r, row, regs);
    case Or(l, r) => WholeIsMet(l, row, regs); WholeIsMet(r, row, regs);
    case Not(l) => WholeIsMet(l, row, regs);
    case Between(x, y, z) => WholeIsMet(x, row, regs); WholeIsMet(y, row, regs); WholeIsMet(z, row, regs);
    case Case(w) => WholeWhensMet(w, Null, row, regs);
    case CaseOf(x, w) => WholeIsMet(x, row, regs); WholeWhensMet(w, Eval(x, row, regs), row, regs);
  }

  lemma {:induction false} WholeWhensMet(w: Whens, v: Val, row: Row, regs: Regs)
    requires WholeWhens(w) && WholeRow(row)
    ensures MetWhens(w, row, regs) && !Fraction(EvalWhens(w, row, regs))
    ensures MetWhensOf(v, w, row, regs) && !Fraction(EvalWhensOf(v, w, row, regs))
    decreases w
  {
    match w
    case NoElse =>
    case Else(e) => WholeIsMet(e, row, regs);
    case When(t, e, rest) => WholeIsMet(t, row, regs); WholeIsMet(e, row, regs); WholeWhensMet(rest, v, row, regs);
  }

  ghost predicate AllRight(row: Row, regs: Regs) {
    forall e: Expr | WholeLits(e) :: JumpTruth(e, row, regs) == TruthOf(Eval(e, row, regs))
  }

  /** A row is one on which every condition without fractions in it is jumped on as
      what it is, just when none of its columns is a fraction. */
  lemma RowExactly(row: Row, regs: Regs)
    ensures AllRight(row, regs) <==> WholeRow(row)
  {
    if WholeRow(row) {
      forall e: Expr | WholeLits(e) ensures JumpTruth(e, row, regs) == TruthOf(Eval(e, row, regs)) {
        WholeIsMet(e, row, regs);
        RightExactly(e, row, regs);
      }
    } else {
      var i: nat :| Fraction(row(i));
      NotOfFraction(i, row, regs);
    }
  }

  /** x = 1.0 for a column x with NOT before it. */
  lemma NotOfFraction(i: nat, row: Row, regs: Regs)
    requires Fraction(row(i))
    ensures !AllRight(row, regs)
  {
    var l := Not(Leaf(i));
    var e := Cmp(Eq, l, Lit(Num(1.0)));
    assert WholeLits(Leaf(i)) && WholeLits(Lit(Num(1.0))) && WholeLits(l) && WholeLits(e);
    assert Computed(Leaf(i), row, regs) == Eval(Leaf(i), row, regs) == row(i);
    assert Computed(l, row, regs) == Num(1.0) && Eval(l, row, regs) == Num(0.0);
    assert Computed(Lit(Num(1.0)), row, regs) == Eval(Lit(Num(1.0)), row, regs) == Num(1.0);
    assert JumpTruth(e, row, regs) == True && TruthOf(Eval(e, row, regs)) == False;
  }
}
