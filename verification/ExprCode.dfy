/** Compiling boolean expressions to jumps (expr.c:2295-2380, 2525-2680,
    2683-2710, 2880-3162), with the instructions that this needs (vdbe.c). */
module ExprCode {
  import opened SqlLogic

  // ---------------------------------------------------------------------
  // The machine
  // ---------------------------------------------------------------------

  /** Where to jump: a label that is resolved later, or an address. */
  datatype Dest = Lab(l: nat) | At(a: nat)

  datatype Instr =
    | OpLoad(i: nat, out: nat)                                          // a column or parameter
    | OpConst(v: Val, out: nat)
    | OpCopy(from: nat, out: nat)
    | OpJump(op: CmpOp, p1: nat, dest: Dest, p3: nat, jumpIfNull: bool)  // compare p3 with p1
    | OpStore(op: CmpOp, p1: nat, out: nat, p3: nat)
    | OpAnd(p1: nat, p2: nat, out: nat)
    | OpOr(p1: nat, p2: nat, out: nat)
    | OpNot(p1: nat)
    | OpIf(p1: nat, dest: Dest, jumpIfNull: bool)
    | OpIfNot(p1: nat, dest: Dest, jumpIfNull: bool)
    | OpIsNull(p1: nat, dest: Dest)
    | OpNotNull(p1: nat, dest: Dest)
    | OpGoto(dest: Dest)
    | OpAddImm(p1: nat, n: real)

  /** The program so far: instructions, resolved labels, and how many labels and
      registers have been given out. */
  datatype Gen = Gen(code: seq<Instr>, labels: map<nat, nat>, nLabel: nat, nMem: nat)

  datatype State = State(pc: nat, regs: Regs)

  /** The integer part of a number decides: OP_And, OP_Or and OP_Not first make
      integers of their operands. */
  function IntTruth(v: Val): Truth {
    if v.Null? then Unknown else if -1.0 < v.r < 1.0 then False else True
  }

  /** and_logic of OP_And, with 0 false, 1 true and 2 NULL. */
  function AndLogic(a: Truth, b: Truth): Truth {
    match (a, b)
    case (False, _) => False
    case (True, True) => True
    case (True, False) => False
    case (True, Unknown) => Unknown
    case (Unknown, False) => False
    case (Unknown, _) => Unknown
  }

  function OrLogic(a: Truth, b: Truth): Truth {
    match (a, b)
    case (True, _) => True
    case (False, False) => False
    case (False, True) => True
    case (False, Unknown) => Unknown
    case (Unknown, True) => True
    case (Unknown, _) => Unknown
  }

  function Addr(p: Gen, d: Dest): nat {
    match d
    case Lab(l) => if l in p.labels then p.labels[l] else |p.code|
    case At(a) => a
  }

  /** Does a comparison or a test with this outcome jump? */
  predicate Takes(t: Truth, jumpIfNull: bool) {
    t == True || (t == Unknown && jumpIfNull)
  }

  function Step(p: Gen, row: Row, s: State): State {
    if s.pc >= |p.code| then s
    else
      var next := State(s.pc + 1, s.regs);
      match p.code[s.pc]
      case OpLoad(i, out) => next.(regs := s.regs[out := row(i)])
      case OpConst(v, out) => next.(regs := s.regs[out := v])
      case OpCopy(from, out) => next.(regs := s.regs[out := Get(s.regs, from)])
      case OpJump(op, p1, dest, p3, jin) =>
        if Takes(Compare(op, Get(s.regs, p3), Get(s.regs, p1)), jin) then next.(pc := Addr(p, dest)) else next
      case OpStore(op, p1, out, p3) => next.(regs := s.regs[out := ToVal(Compare(op, Get(s.regs, p3), Get(s.regs, p1)))])
      case OpAnd(p1, p2, out) =>
        next.(regs := s.regs[out := ToVal(AndLogic(IntTruth(Get(s.regs, p1)), IntTruth(Get(s.regs, p2))))])
      case OpOr(p1, p2, out) =>
        next.(regs := s.regs[out := ToVal(OrLogic(IntTruth(Get(s.regs, p1)), IntTruth(Get(s.regs, p2))))])
      case OpNot(p1) => next.(regs := s.regs[p1 := ToVal(Not3(IntTruth(Get(s.regs, p1))))])
      case OpIf(p1, dest, jin) => if Takes(TruthOf(Get(s.regs, p1)), jin) then next.(pc := Addr(p, dest)) else next
      case OpIfNot(p1, dest, jin) => if Takes(Not3(TruthOf(Get(s.regs, p1))), jin) then next.(pc := Addr(p, dest)) else next
      case OpIsNull(p1, dest) => if Get(s.regs, p1).Null? then next.(pc := Addr(p, dest)) else next
      case OpNotNull(p1, dest) => if !Get(s.regs, p1).Null? then next.(pc := Addr(p, dest)) else next
      case OpGoto(dest) => next.(pc := Addr(p, dest))
      case OpAddImm(p1, n) => next.(regs := s.regs[p1 := var v := Get(s.regs, p1); if v.Null? then v else Num(v.r + n)])
  }

  function Run(p: Gen, row: Row, s: State, n: nat): State
    decreases n
  {
    if n == 0 then s else Run(p, row, Step(p, row, s), n - 1)
  }

  ghost predicate Reaches(p: Gen, row: Row, s: State, t: State) {
    exists n: nat :: Run(p, row, s, n) == t
  }

  lemma ReachNone(p: Gen, row: Row, s: State)
    ensures Reaches(p, row, s, s)
  {
    assert Run(p, row, s, 0) == s;
  }

  lemma ReachStep(p: Gen, row: Row, s: State)
    ensures Reaches(p, row, s, Step(p, row, s))
  {
    assert Run(p, row, Step(p, row, s), 0) == Step(p, row, s);
    assert Run(p, row, s, 1) == Step(p, row, s);
  }

  lemma {:induction false} RunMore(p: Gen, row: Row, s: State, n: nat, m: nat)
    ensures Run(p, row, Run(p, row, s, n), m) == Run(p, row, s, n + m)
    decreases n
  {
    if n > 0 { RunMore(p, row, Step(p, row, s), n - 1, m); }
  }

  lemma ReachOn(p: Gen, row: Row, s: State, t: State, u: State)
    requires Reaches(p, row, s, t) && Reaches(p, row, t, u)
    ensures Reaches(p, row, s, u)
  {
    var n: nat :| Run(p, row, s, n) == t;
    var m: nat :| Run(p, row, t, m) == u;
    RunMore(p, row, s, n, m);
  }

  /** One more step of the machine. */
  lemma ReachThen(p: Gen, row: Row, s: State, t: State)
    requires Reaches(p, row, s, t)
    ensures Reaches(p, row, s, Step(p, row, t))
  {
    ReachStep(p, row, t);
    ReachOn(p, row, s, t, Step(p, row, t));
  }

  // ---------------------------------------------------------------------
  // The code generator
  // ---------------------------------------------------------------------

  function Emit(g: Gen, i: Instr): Gen {
    g.(code := g.code + [i])
  }

  function NewTemp(g: Gen): Gen {
    g.(nMem := g.nMem + 1)
  }

  function NewLabel(g: Gen): Gen {
    g.(nLabel := g.nLabel + 1)
  }

  /** sqlite3VdbeResolveLabel: the label stands for the next instruction. */
  function Resolve(g: Gen, l: nat): Gen {
    g.(labels := g.labels[l := |g.code|])
  }

  function Size(e: Expr): (n: nat)
    ensures n > 0
    decreases e
  {
    match e
    case Leaf(_) => 1
    case Lit(_) => 1
    case Reg(_) => 1
    case Cmp(_, l, r) => 1 + Size(l) + Size(r)
    case IsNull(l) => 1 + Size(l)
    case NotNull(l) => 1 + Size(l)
    case And(l, r) => 1 + Size(l) + Size(r)
    case Or(l, r) => 1 + Size(l) + Size(r)
    case Not(l) => 1 + Size(l)
    case Between(x, y, z) => 6 + Size(x) + Size(y) + Size(z)
    case Case(w) => 1 + WhensSize(w)
    case CaseOf(x, w) => 1 + Size(x) + WhensSize(w)
  }

  function WhensSize(w: Whens): (n: nat)
    ensures n > 0
    decreases w
  {
    match w
    case NoElse => 1
    case Else(e) => 1 + Size(e)
    case When(t, e, rest) => 4 + Size(t) + Size(e) + WhensSize(rest)
  }

  /** x >= y AND x <= z, with x in register k. */
  function Both(k: nat, y: Expr, z: Expr): (e: Expr)
    ensures Size(e) == 5 + Size(y) + Size(z)
  {
    assert Size(Reg(k)) == 1;
    assert Size(Cmp(Ge, Reg(k), y)) == 2 + Size(y);
    assert Size(Cmp(Le, Reg(k), z)) == 2 + Size(z);
    And(Cmp(Ge, Reg(k), y), Cmp(Le, Reg(k), z))
  }

  datatype Placed = Placed(g: Gen, r: nat)

  /** sqlite3ExprCodeTarget: code for the value; tells the register it is in. */
  function CodeTarget(g: Gen, e: Expr, target: nat): Placed
    decreases Size(e), 0
  {
    match e
    case Leaf(i) => Placed(Emit(g, OpLoad(i, target)), target)
    case Lit(v) => Placed(Emit(g, OpConst(v, target)), target)
    case Reg(k) => Placed(g, k)
    case Cmp(op, l, r) =>
      var p1 := CodeTemp(g, l);
      var p2 := CodeTemp(p1.g, r);
      Placed(Emit(p2.g, OpStore(op, p2.r, target, p1.r)), target)
    case And(l, r) =>
      var p1 := CodeTemp(g, l);
      var p2 := CodeTemp(p1.g, r);
      Placed(Emit(p2.g, OpAnd(p2.r, p1.r, target)), target)
    case Or(l, r) =>
      var p1 := CodeTemp(g, l);
      var p2 := CodeTemp(p1.g, r);
      Placed(Emit(p2.g, OpOr(p2.r, p1.r, target)), target)
    case Not(l) =>
      var p := CodeTarget(g, l, target);
      Placed(Emit(p.g, OpNot(p.r)), p.r)
    case IsNull(l) =>
      var p := CodeTemp(Emit(g, OpConst(Num(1.0), target)), l);
      Placed(Emit(Emit(p.g, OpIsNull(p.r, At(|p.g.code| + 2))), OpAddImm(target, -1.0)), target)
    case NotNull(l) =>
      var p := CodeTemp(Emit(g, OpConst(Num(1.0), target)), l);
      Placed(Emit(Emit(p.g, OpNotNull(p.r, At(|p.g.code| + 2))), OpAddImm(target, -1.0)), target)
    case Between(x, y, z) =>
      var p1 := CodeTemp(g, x);
      var p2 := CodeTemp(p1.g, y);
      var r3 := p2.g.nMem;
      var g3 := Emit(NewTemp(NewTemp(p2.g)), OpStore(Ge, p2.r, r3, p1.r));
      var p4 := CodeTemp(g3, z);
      Placed(Emit(Emit(p4.g, OpStore(Le, p4.r, r3 + 1, p1.r)), OpAnd(r3, r3 + 1, target)), target)
    case Case(w) =>
      var end := g.nLabel;
      Placed(Resolve(CodeWhens(NewLabel(g), w, target, end), end), target)
    case CaseOf(x, w) =>
      var end := g.nLabel;
      var p := CodeTemp(NewLabel(g), x);
      Placed(Resolve(CodeWhensOf(p.g, p.r, w, target, end), end), target)
  }

  /** sqlite3ExprCodeTemp. */
  function CodeTemp(g: Gen, e: Expr): Placed
    decreases Size(e), 1
  {
    CodeTarget(NewTemp(g), e, g.nMem)
  }

  /** sqlite3ExprCode: the value ends up in the target. */
  function CodeInto(g: Gen, e: Expr, target: nat): Gen
    decreases Size(e), 1
  {
    var p := CodeTarget(g, e, target);
    if p.r == target then p.g else Emit(p.g, OpCopy(p.r, target))
  }

  /** The arms of CASE WHEN. */
  function CodeWhens(g: Gen, w: Whens, target: nat, end: nat): Gen
    decreases WhensSize(w), 0
  {
    match w
    case NoElse => Emit(g, OpConst(Null, target))
    case Else(e) => CodeInto(g, e, target)
    case When(t, e, rest) =>
      var next := g.nLabel;
      var g1 := IfFalse(NewLabel(g), t, next, true);
      var g2 := Emit(CodeInto(g1, e, target), OpGoto(Lab(end)));
      CodeWhens(Resolve(g2, next), rest, target, end)
  }

  /** The arms of CASE x WHEN, with x in register k. */
  function CodeWhensOf(g: Gen, k: nat, w: Whens, target: nat, end: nat): Gen
    decreases WhensSize(w), 0
  {
    match w
    case NoElse => Emit(g, OpConst(Null, target))
    case Else(e) => CodeInto(g, e, target)
    case When(t, e, rest) =>
      var next := g.nLabel;
      var test := Cmp(Eq, Reg(k), t);
      assert Size(test) == 1 + Size(Reg(k)) + Size(t);
      var g1 := IfFalse(NewLabel(g), test, next, true);
      var g2 := Emit(CodeInto(g1, e, target), OpGoto(Lab(end)));
      CodeWhensOf(Resolve(g2, next), k, rest, target, end)
  }

  /** sqlite3ExprIfTrue. */
  function IfTrue(g: Gen, e: Expr, dest: nat, jin: bool): Gen
    decreases Size(e), 2
  {
    match e
    case And(l, r) =>
      var d2 := g.nLabel;
      Resolve(IfTrue(IfFalse(NewLabel(g), l, d2, !jin), r, dest, jin), d2)
    case Or(l, r) => IfTrue(IfTrue(g, l, dest, jin), r, dest, jin)
    case Not(l) => IfFalse(g, l, dest, jin)
    case Cmp(op, l, r) =>
      var p1 := CodeTemp(g, l);
      var p2 := CodeTemp(p1.g, r);
      Emit(p2.g, OpJump(op, p2.r, Lab(dest), p1.r, jin))
    case IsNull(l) => var p := CodeTemp(g, l); Emit(p.g, OpIsNull(p.r, Lab(dest)))
    case NotNull(l) => var p := CodeTemp(g, l); Emit(p.g, OpNotNull(p.r, Lab(dest)))
    case Between(x, y, z) =>
      var p := CodeTemp(g, x);
      IfTrue(p.g, Both(p.r, y, z), dest, jin)
    case _ => var p := CodeTemp(g, e); Emit(p.g, OpIf(p.r, Lab(dest), jin))
  }

  /** sqlite3ExprIfFalse. */
  function IfFalse(g: Gen, e: Expr, dest: nat, jin: bool): Gen
    decreases Size(e), 2
  {
    match e
    case And(l, r) => IfFalse(IfFalse(g, l, dest, jin), r, dest, jin)
    case Or(l, r) =>
      var d2 := g.nLabel;
      Resolve(IfFalse(IfTrue(NewLabel(g), l, d2, !jin), r, dest, jin), d2)
    case Not(l) => IfTrue(g, l, dest, jin)
    case Cmp(op, l, r) =>
      var p1 := CodeTemp(g, l);
      var p2 := CodeTemp(p1.g, r);
      Emit(p2.g, OpJump(Opposite(op), p2.r, Lab(dest), p1.r, jin))
    case IsNull(l) => var p := CodeTemp(g, l); Emit(p.g, OpNotNull(p.r, Lab(dest)))
    case NotNull(l) => var p := CodeTemp(g, l); Emit(p.g, OpIsNull(p.r, Lab(dest)))
    case Between(x, y, z) =>
      var p := CodeTemp(g, x);
      IfFalse(p.g, Both(p.r, y, z), dest, jin)
    case _ => var p := CodeTemp(g, e); Emit(p.g, OpIfNot(p.r, Lab(dest), jin))
  }

  // ---------------------------------------------------------------------
  // What code generation keeps
  // ---------------------------------------------------------------------

  /** Resolved labels have been given out. */
  predicate Wf(g: Gen) {
    forall l | l in g.labels :: l < g.nLabel
  }

  /** h has everything of g: it goes on after the code, and resolves only labels
      that are new. */
  ghost predicate Later(g: Gen, h: Gen) {
    && |g.code| <= |h.code| && h.code[..|g.code|] == g.code
    && g.nLabel <= h.nLabel && g.nMem <= h.nMem
    && (forall l | l in g.labels :: l in h.labels && h.labels[l] == g.labels[l])
    && (forall l | l in h.labels :: l in g.labels || g.nLabel <= l < h.nLabel)
  }

  lemma LaterTrans(g: Gen, h: Gen, k: Gen)
    requires Later(g, h) && Later(h, k)
    ensures Later(g, k)
  {
    assert k.code[..|g.code|] == k.code[..|h.code|][..|g.code|];
  }

  lemma LaterResolve(g: Gen, h: Gen, l: nat)
    requires Wf(g) && Later(g, h) && g.nLabel <= l < h.nLabel
    ensures Later(g, Resolve(h, l))
  {
  }

  lemma LaterWf(g: Gen, h: Gen)
    requires Wf(g) && Later(g, h)
    ensures Wf(h)
  {
  }

  lemma {:induction false} TargetLater(g: Gen, e: Expr, target: nat)
    requires Wf(g)
    ensures Later(g, CodeTarget(g, e, target).g)
    decreases Size(e), 0
  {
    var h := CodeTarget(g, e, target).g;
    match e
    case Leaf(_) =>
    case Lit(_) =>
    case Reg(_) =>
    case Cmp(_, l, r) => PairLater(g, l, r); LaterTrans(g, CodeTemp(CodeTemp(g, l).g, r).g, h);
    case And(l, r) => PairLater(g, l, r); LaterTrans(g, CodeTemp(CodeTemp(g, l).g, r).g, h);
    case Or(l, r) => PairLater(g, l, r); LaterTrans(g, CodeTemp(CodeTemp(g, l).g, r).g, h);
    case Not(l) => TargetLater(g, l, target); LaterTrans(g, CodeTarget(g, l, target).g, h);
    case IsNull(l) =>
      var g1 := Emit(g, OpConst(Num(1.0), target));
      TempLater(g1, l);
      LaterTrans(g, g1, CodeTemp(g1, l).g);
      LaterTrans(g, CodeTemp(g1, l).g, h);
    case NotNull(l) =>
      var g1 := Emit(g, OpConst(Num(1.0), target));
      TempLater(g1, l);
      LaterTrans(g, g1, CodeTemp(g1, l).g);
      LaterTrans(g, CodeTemp(g1, l).g, h);
    case Between(x, y, z) => BetweenLater(g, x, y, z, target);
    case Case(w) =>
      var g1 := NewLabel(g);
      WhensLater(g1, w, target, g.nLabel);
      LaterTrans(g, g1, CodeWhens(g1, w, target, g.nLabel));
      LaterResolve(g, CodeWhens(g1, w, target, g.nLabel), g.nLabel);
    case CaseOf(x, w) =>
      var g1 := NewLabel(g);
      TempLater(g1, x);
      var p := CodeTemp(g1, x);
      LaterWf(g1, p.g);
      WhensOfLater(p.g, p.r, w, target, g.nLabel);
      LaterTrans(g, g1, p.g);
      LaterTrans(g, p.g, CodeWhensOf(p.g, p.r, w, target, g.nLabel));
      LaterResolve(g, CodeWhensOf(p.g, p.r, w, target, g.nLabel), g.nLabel);
  }

  lemma {:induction false} TempLater(g: Gen, e: Expr)
    requires Wf(g)
    ensures Later(g, CodeTemp(g, e).g) && Wf(CodeTemp(g, e).g)
    ensures Later(NewTemp(g), CodeTemp(g, e).g)
    decreases Size(e), 1
  {
    TargetLater(NewTemp(g), e, g.nMem);
    LaterTrans(g, NewTemp(g), CodeTemp(g, e).g);
    LaterWf(g, CodeTemp(g, e).g);
  }

  lemma {:induction false} PairLater(g: Gen, l: Expr, r: Expr)
    requires Wf(g)
    ensures var p1 := CodeTemp(g, l); var p2 := CodeTemp(p1.g, r);
      Later(g, p1.g) && Later(p1.g, p2.g) && Later(g, p2.g) && Wf(p1.g) && Wf(p2.g)
    decreases Size(l) + Size(r), 2
  {
    var p1 := CodeTemp(g, l);
    TempLater(g, l);
    TempLater(p1.g, r);
    LaterTrans(g, p1.g, CodeTemp(p1.g, r).g);
  }

  lemma {:induction false} BetweenLater(g: Gen, x: Expr, y: Expr, z: Expr, target: nat)
    requires Wf(g)
    ensures Later(g, CodeTarget(g, Between(x, y, z), target).g)
    decreases Size(x) + Size(y) + Size(z) + 1, 0
  {
    var p1 := CodeTemp(g, x);
    var p2 := CodeTemp(p1.g, y);
    PairLater(g, x, y);
    var g3 := Emit(NewTemp(NewTemp(p2.g)), OpStore(Ge, p2.r, p2.g.nMem, p1.r));
    LaterTrans(g, p2.g, g3);
    TempLater(g3, z);
    var p4 := CodeTemp(g3, z);
    LaterTrans(g, g3, p4.g);
    LaterTrans(g, p4.g, CodeTarget(g, Between(x, y, z), target).g);
  }

  lemma {:induction false} IntoLater(g: Gen, e: Expr, target: nat)
    requires Wf(g)
    ensures Later(g, CodeInto(g, e, target)) && Wf(CodeInto(g, e, target))
    decreases Size(e), 1
  {
    TargetLater(g, e, target);
    LaterTrans(g, CodeTarget(g, e, target).g, CodeInto(g, e, target));
    LaterWf(g, CodeInto(g, e, target));
  }

  /** One arm of a CASE. */
  lemma {:induction false} ArmLater(g: Gen, t: Expr, e: Expr, target: nat, end: nat)
    requires Wf(g)
    ensures var next := g.nLabel;
      var g1 := IfFalse(NewLabel(g), t, next, true);
      var g2 := Emit(CodeInto(g1, e, target), OpGoto(Lab(end)));
      && Later(NewLabel(g), g1) && Later(g1, CodeInto(g1, e, target)) && Later(g1, g2)
      && Later(NewLabel(g), g2) && Later(g, Resolve(g2, next)) && Wf(Resolve(g2, next)) && Wf(g1)
    decreases Size(t) + Size(e) + 1, 0
  {
    var next, g0 := g.nLabel, NewLabel(g);
    var g1 := IfFalse(g0, t, next, true);
    IfFalseLater(g0, t, next, true);
    LaterWf(g0, g1);
    var g2 := Emit(CodeInto(g1, e, target), OpGoto(Lab(end)));
    IntoLater(g1, e, target);
    LaterTrans(g1, CodeInto(g1, e, target), g2);
    LaterTrans(g0, g1, g2);
    LaterTrans(g, g0, g2);
    LaterResolve(g, g2, next);
    LaterWf(g, Resolve(g2, next));
  }

  lemma {:induction false} WhensLater(g: Gen, w: Whens, target: nat, end: nat)
    requires Wf(g)
    ensures Later(g, CodeWhens(g, w, target, end))
    decreases WhensSize(w), 0
  {
    match w
    case NoElse =>
    case Else(e) => IntoLater(g, e, target);
    case When(t, e, rest) =>
      ArmLater(g, t, e, target, end);
      var g3 := Resolve(Emit(CodeInto(IfFalse(NewLabel(g), t, g.nLabel, true), e, target), OpGoto(Lab(end))), g.nLabel);
      WhensLater(g3, rest, target, end);
      LaterTrans(g, g3, CodeWhens(g3, rest, target, end));
  }

  lemma {:induction false} WhensOfLater(g: Gen, k: nat, w: Whens, target: nat, end: nat)
    requires Wf(g)
    ensures Later(g, CodeWhensOf(g, k, w, target, end))
    decreases WhensSize(w), 0
  {
    match w
    case NoElse =>
    case Else(e) => IntoLater(g, e, target);
    case When(t, e, rest) =>
      var test := Cmp(Eq, Reg(k), t);
      assert Size(test) == 1 + Size(Reg(k)) + Size(t);
      ArmLater(g, test, e, target, end);
      var g3 := Resolve(Emit(CodeInto(IfFalse(NewLabel(g), test, g.nLabel, true), e, target), OpGoto(Lab(end))), g.nLabel);
      WhensOfLater(g3, k, rest, target, end);
      LaterTrans(g, g3, CodeWhensOf(g3, k, rest, target, end));
  }

  lemma {:induction false} IfTrueLater(g: Gen, e: Expr, dest: nat, jin: bool)
    requires Wf(g)
    ensures Later(g, IfTrue(g, e, dest, jin)) && Wf(IfTrue(g, e, dest, jin))
    decreases Size(e), 2
  {
    var h := IfTrue(g, e, dest, jin);
    match e
    case And(l, r) =>
      var d2, g0 := g.nLabel, NewLabel(g);
      var g1 := IfFalse(g0, l, d2, !jin);
      IfFalseLater(g0, l, d2, !jin);
      IfTrueLater(g1, r, dest, jin);
      LaterTrans(g0, g1, IfTrue(g1, r, dest, jin));
      LaterTrans(g, g0, IfTrue(g1, r, dest, jin));
      LaterResolve(g, IfTrue(g1, r, dest, jin), d2);
    case Or(l, r) =>
      IfTrueLater(g, l, dest, jin);
      IfTrueLater(IfTrue(g, l, dest, jin), r, dest, jin);
      LaterTrans(g, IfTrue(g, l, dest, jin), h);
    case Not(l) => IfFalseLater(g, l, dest, jin);
    case Cmp(_, l, r) => PairLater(g, l, r); LaterTrans(g, CodeTemp(CodeTemp(g, l).g, r).g, h);
    case IsNull(l) => TempLater(g, l); LaterTrans(g, CodeTemp(g, l).g, h);
    case NotNull(l) => TempLater(g, l); LaterTrans(g, CodeTemp(g, l).g, h);
    case Between(x, y, z) =>
      TempLater(g, x);
      var p := CodeTemp(g, x);
      IfTrueLater(p.g, Both(p.r, y, z), dest, jin);
      LaterTrans(g, p.g, h);
    case _ => TempLater(g, e); LaterTrans(g, CodeTemp(g, e).g, h);
    LaterWf(g, h);
  }

  lemma {:induction false} IfFalseLater(g: Gen, e: Expr, dest: nat, jin: bool)
    requires Wf(g)
    ensures Later(g, IfFalse(g, e, dest, jin)) && Wf(IfFalse(g, e, dest, jin))
    decreases Size(e), 2
  {
    var h := IfFalse(g, e, dest, jin);
    match e
    case Or(l, r) =>
      var d2, g0 := g.nLabel, NewLabel(g);
      var g1 := IfTrue(g0, l, d2, !jin);
      IfTrueLater(g0, l, d2, !jin);
      IfFalseLater(g1, r, dest, jin);
      LaterTrans(g0, g1, IfFalse(g1, r, dest, jin));
      LaterTrans(g, g0, IfFalse(g1, r, dest, jin));
      LaterResolve(g, IfFalse(g1, r, dest, jin), d2);
    case And(l, r) =>
      IfFalseLater(g, l, dest, jin);
      IfFalseLater(IfFalse(g, l, dest, jin), r, dest, jin);
      LaterTrans(g, IfFalse(g, l, dest, jin), h);
    case Not(l) => IfTrueLater(g, l, dest, jin);
    case Cmp(_, l, r) => PairLater(g, l, r); LaterTrans(g, CodeTemp(CodeTemp(g, l).g, r).g, h);
    case IsNull(l) => TempLater(g, l); LaterTrans(g, CodeTemp(g, l).g, h);
    case NotNull(l) => TempLater(g, l); LaterTrans(g, CodeTemp(g, l).g, h);
    case Between(x, y, z) =>
      TempLater(g, x);
      var p := CodeTemp(g, x);
      IfFalseLater(p.g, Both(p.r, y, z), dest, jin);
      LaterTrans(g, p.g, h);
    case _ => TempLater(g, e); LaterTrans(g, CodeTemp(g, e).g, h);
    LaterWf(g, h);
  }
}
