/** Values, three-valued logic (ISO/IEC 9075:1992, section 8.12) and boolean
    expressions. */
module SqlLogic {

  /** NULL or a number. */
  datatype Val = Null | Num(r: real)

  datatype Truth = True | False | Unknown

  function And3(a: Truth, b: Truth): Truth {
    if a == False || b == False then False else if a == True && b == True then True else Unknown
  }

  function Or3(a: Truth, b: Truth): Truth {
    if a == True || b == True then True else if a == False && b == False then False else Unknown
  }

  function Not3(a: Truth): Truth {
    match a case True => False case False => True case Unknown => Unknown
  }

  /** False, unknown, true, in this order. */
  function Degree(t: Truth): nat {
    match t case False => 0 case Unknown => 1 case True => 2
  }

  /** The tables of the standard: AND is the smaller, OR the larger, NOT the mirror. */
  lemma Tables(a: Truth, b: Truth)
    ensures Degree(And3(a, b)) == if Degree(a) < Degree(b) then Degree(a) else Degree(b)
    ensures Degree(Or3(a, b)) == if Degree(a) < Degree(b) then Degree(b) else Degree(a)
    ensures Degree(Not3(a)) == 2 - Degree(a)
  {
  }

  /** A number is true unless it is zero. */
  function TruthOf(v: Val): Truth {
    if v.Null? then Unknown else if v.r != 0.0 then True else False
  }

  function ToVal(t: Truth): Val {
    match t case True => Num(1.0) case False => Num(0.0) case Unknown => Null
  }

  datatype CmpOp = Eq | Ne | Lt | Le | Gt | Ge

  predicate Holds(op: CmpOp, a: real, b: real) {
    match op
    case Eq => a == b
    case Ne => a != b
    case Lt => a < b
    case Le => a <= b
    case Gt => a > b
    case Ge => a >= b
  }

  /** Numbers are compared in their order: one of less, equal and greater holds, less when
      the difference is positive, and the others are made of these. */
  lemma OneHolds(a: real, b: real)
    ensures Holds(Lt, a, b) <==> b - a > 0.0
    ensures Holds(Gt, a, b) <==> Holds(Lt, b, a)
    ensures Holds(Eq, a, b) <==> !Holds(Lt, a, b) && !Holds(Gt, a, b)
    ensures Holds(Le, a, b) <==> Holds(Lt, a, b) || Holds(Eq, a, b)
    ensures Holds(Ge, a, b) <==> Holds(Gt, a, b) || Holds(Eq, a, b)
    ensures Holds(Ne, a, b) <==> !Holds(Eq, a, b)
  {
  }

  function Compare(op: CmpOp, a: Val, b: Val): Truth {
    if a.Null? || b.Null? then Unknown else if Holds(op, a.r, b.r) then True else False
  }

  /** The comparison that holds when op does not. */
  function Opposite(op: CmpOp): CmpOp {
    match op case Eq => Ne case Ne => Eq case Lt => Ge case Ge => Lt case Le => Gt case Gt => Le
  }

  lemma OppositeIsNot(op: CmpOp, a: Val, b: Val)
    ensures Compare(Opposite(op), a, b) == Not3(Compare(op, a, b))
  {
  }

  // ---------------------------------------------------------------------
  // Expressions
  // ---------------------------------------------------------------------

  /** Leaf(i) is a column or parameter; Reg(k) stands for a value already in
      register k. */
  datatype Expr =
    | Leaf(i: nat) | Lit(v: Val) | Reg(k: nat)
    | Cmp(op: CmpOp, l: Expr, r: Expr)
    | IsNull(l: Expr) | NotNull(l: Expr)
    | And(l: Expr, r: Expr) | Or(l: Expr, r: Expr) | Not(l: Expr)
    | Between(x: Expr, y: Expr, z: Expr)
    | Case(w: Whens)
    | CaseOf(x: Expr, w: Whens)

  /** The arms of a CASE, and its ELSE, which may be missing. */
  datatype Whens = NoElse | Else(e: Expr) | When(test: Expr, e: Expr, rest: Whens)

  type Row = nat -> Val
  type Regs = map<nat, Val>

  function Get(regs: Regs, k: nat): Val {
    if k in regs then regs[k] else Null
  }

  /** What an expression means. */
  function Eval(e: Expr, row: Row, regs: Regs): Val
    decreases e
  {
    match e
    case Leaf(i) => row(i)
    case Lit(v) => v
    case Reg(k) => Get(regs, k)
    case Cmp(op, l, r) => ToVal(Compare(op, Eval(l, row, regs), Eval(r, row, regs)))
    case IsNull(l) => ToVal(if Eval(l, row, regs).Null? then True else False)
    case NotNull(l) => ToVal(if Eval(l, row, regs).Null? then False else True)
    case And(l, r) => ToVal(And3(TruthOf(Eval(l, row, regs)), TruthOf(Eval(r, row, regs))))
    case Or(l, r) => ToVal(Or3(TruthOf(Eval(l, row, regs)), TruthOf(Eval(r, row, regs))))
    case Not(l) => ToVal(Not3(TruthOf(Eval(l, row, regs))))
    case Between(x, y, z) =>
      var v := Eval(x, row, regs);
      ToVal(And3(Compare(Ge, v, Eval(y, row, regs)), Compare(Le, v, Eval(z, row, regs))))
    case Case(w) => EvalWhens(w, row, regs)
    case CaseOf(x, w) => EvalWhensOf(Eval(x, row, regs), w, row, regs)
  }

  /** CASE WHEN: the result of the first arm whose test is true. */
  function EvalWhens(w: Whens, row: Row, regs: Regs): Val
    decreases w
  {
    match w
    case NoElse => Null
    case Else(e) => Eval(e, row, regs)
    case When(t, e, rest) => if TruthOf(Eval(t, row, regs)) == True then Eval(e, row, regs) else EvalWhens(rest, row, regs)
  }

  /** CASE x WHEN: the result of the first arm that x equals. */
  function EvalWhensOf(v: Val, w: Whens, row: Row, regs: Regs): Val
    decreases w
  {
    match w
    case NoElse => Null
    case Else(e) => Eval(e, row, regs)
    case When(t, e, rest) => if Compare(Eq, v, Eval(t, row, regs)) == True then Eval(e, row, regs) else EvalWhensOf(v, rest, row, regs)
  }

  lemma TruthOfToVal(t: Truth)
    ensures TruthOf(ToVal(t)) == t
  {
  }

  /** Does register q occur in the expression? */
  predicate Uses(e: Expr, q: nat)
    decreases e
  {
    match e
    case Leaf(_) => false
    case Lit(_) => false
    case Reg(k) => k == q
    case Cmp(_, l, r) => Uses(l, q) || Uses(r, q)
    case IsNull(l) => Uses(l, q)
    case NotNull(l) => Uses(l, q)
    case And(l, r) => Uses(l, q) || Uses(r, q)
    case Or(l, r) => Uses(l, q) || Uses(r, q)
    case Not(l) => Uses(l, q)
    case Between(x, y, z) => Uses(x, q) || Uses(y, q) || Uses(z, q)
    case Case(w) => UsesIn(w, q)
    case CaseOf(x, w) => Uses(x, q) || UsesIn(w, q)
  }

  predicate UsesIn(w: Whens, q: nat)
    decreases w
  {
    match w
    case NoElse => false
    case Else(e) => Uses(e, q)
    case When(t, e, rest) => Uses(t, q) || Uses(e, q) || UsesIn(rest, q)
  }

  /** The value depends on the registers that occur, and no others. */
  lemma {:induction false} EvalKept(e: Expr, row: Row, a: Regs, b: Regs)
    requires forall q | Uses(e, q) :: Get(a, q) == Get(b, q)
    ensures Eval(e, row, a) == Eval(e, row, b)
    decreases e
  {
    match e
    case Leaf(_) =>
    case Lit(_) =>
    case Reg(k) => assert Uses(e, k);
    case Cmp(_, l, r) => KeptIn(e, l, a, b); KeptIn(e, r, a, b); EvalKept(l, row, a, b); EvalKept(r, row, a, b);
    case IsNull(l) => KeptIn(e, l, a, b); EvalKept(l, row, a, b);
    case NotNull(l) => KeptIn(e, l, a, b); EvalKept(l, row, a, b);
    case And(l, r) => KeptIn(e, l, a, b); KeptIn(e, r, a, b); EvalKept(l, row, a, b); EvalKept(r, row, a, b);
    case Or(l, r) => KeptIn(e, l, a, b); KeptIn(e, r, a, b); EvalKept(l, row, a, b); EvalKept(r, row, a, b);
    case Not(l) => KeptIn(e, l, a, b); EvalKept(l, row, a, b);
    case Between(x, y, z) =>
      KeptIn(e, x, a, b); KeptIn(e, y, a, b); KeptIn(e, z, a, b);
      EvalKept(x, row, a, b); EvalKept(y, row, a, b); EvalKept(z, row, a, b);
    case Case(w) =>
      forall q | UsesIn(w, q) ensures Get(a, q) == Get(b, q) { assert Uses(e, q); }
      WhensKept(w, row, a, b);
    case CaseOf(x, w) =>
      forall q | UsesIn(w, q) ensures Get(a, q) == Get(b, q) { assert Uses(e, q); }
      KeptIn(e, x, a, b);
      EvalKept(x, row, a, b);
      WhensOfKept(Eval(x, row, a), w, row, a, b);
  }

  lemma KeptIn(e: Expr, part: Expr, a: Regs, b: Regs)
    requires forall q | Uses(e, q) :: Get(a, q) == Get(b, q)
    requires forall q: nat :: Uses(part, q) ==> Uses(e, q)
    ensures forall q | Uses(part, q) :: Get(a, q) == Get(b, q)
  {
    forall q | Uses(part, q) ensures Get(a, q) == Get(b, q) { assert Uses(e, q); }
  }

  lemma {:induction false} WhensKept(w: Whens, row: Row, a: Regs, b: Regs)
    requires forall q | UsesIn(w, q) :: Get(a, q) == Get(b, q)
    ensures EvalWhens(w, row, a) == EvalWhens(w, row, b)
    decreases w
  {
    match w
    case NoElse =>
    case Else(e) =>
      forall q | Uses(e, q) ensures Get(a, q) == Get(b, q) { assert UsesIn(w, q); }
      EvalKept(e, row, a, b);
    case When(t, e, rest) =>
      forall q | Uses(t, q) || Uses(e, q) || UsesIn(rest, q) ensures Get(a, q) == Get(b, q) { assert UsesIn(w, q); }
      EvalKept(t, row, a, b);
      EvalKept(e, row, a, b);
      WhensKept(rest, row, a, b);
  }

  lemma {:induction false} WhensOfKept(v: Val, w: Whens, row: Row, a: Regs, b: Regs)
    requires forall q | UsesIn(w, q) :: Get(a, q) == Get(b, q)
    ensures EvalWhensOf(v, w, row, a) == EvalWhensOf(v, w, row, b)
    decreases w
  {
    match w
    case NoElse =>
    case Else(e) =>
      forall q | Uses(e, q) ensures Get(a, q) == Get(b, q) { assert UsesIn(w, q); }
      EvalKept(e, row, a, b);
    case When(t, e, rest) =>
      forall q | Uses(t, q) || Uses(e, q) || UsesIn(rest, q) ensures Get(a, q) == Get(b, q) { assert UsesIn(w, q); }
      EvalKept(t, row, a, b);
      EvalKept(e, row, a, b);
      WhensOfKept(v, rest, row, a, b);
  }
}
