/** The compiled code does what the expression means (expr.c:2880-3162,
    2589-2644). */
module ExprOk {
  import opened SqlLogic
  import opened ExprCode
  import opened ExprValue

  // ---------------------------------------------------------------------
  // Expressions that can be compiled
  // ---------------------------------------------------------------------

  /** No NOT is put directly on a register, which it would overwrite.  A register
      stands only for the x of BETWEEN and CASE. */
  predicate Safe(e: Expr)
    decreases e
  {
    match e
    case Leaf(_) => true
    case Lit(_) => true
    case Reg(_) => true
    case Cmp(_, l, r) => Safe(l) && Safe(r)
    case IsNull(l) => Safe(l)
    case NotNull(l) => Safe(l)
    case And(l, r) => Safe(l) && Safe(r)
    case Or(l, r) => Safe(l) && Safe(r)
    case Not(l) => Safe(l) && !l.Reg?
    case Between(x, y, z) => Safe(x) && Safe(y) && Safe(z)
    case Case(w) => SafeWhens(w)
    case CaseOf(x, w) => Safe(x) && SafeWhens(w)
  }

  predicate SafeWhens(w: Whens)
    decreases w
  {
    match w
    case NoElse => true
    case Else(e) => Safe(e)
    case When(t, e, rest) => Safe(t) && Safe(e) && SafeWhens(rest)
  }

  /** What a user writes is safe: it has no registers. */
  lemma {:induction false} NoRegsSafe(e: Expr)
    requires NoRegs(e)
    ensures Safe(e)
    decreases e
  {
    match e
    case Leaf(_) =>
    case Lit(_) =>
    case Reg(k) => assert Uses(e, k);
    case Cmp(_, l, r) => NoRegsIn(e, l); NoRegsIn(e, r); NoRegsSafe(l); NoRegsSafe(r);
    case IsNull(l) => NoRegsIn(e, l); NoRegsSafe(l);
    case NotNull(l) => NoRegsIn(e, l); NoRegsSafe(l);
    case And(l, r) => NoRegsIn(e, l); NoRegsIn(e, r); NoRegsSafe(l); NoRegsSafe(r);
    case Or(l, r) => NoRegsIn(e, l); NoRegsIn(e, r); NoRegsSafe(l); NoRegsSafe(r);
    case Not(l) =>
      NoRegsIn(e, l);
      NoRegsSafe(l);
      if l.Reg? { assert Uses(l, l.k); }
    case Between(x, y, z) => NoRegsIn(e, x); NoRegsIn(e, y); NoRegsIn(e, z); NoRegsSafe(x); NoRegsSafe(y); NoRegsSafe(z);
    case Case(w) =>
      forall q: nat ensures !UsesIn(w, q) { assert !Uses(e, q); }
      NoRegsSafeWhens(w);
    case CaseOf(x, w) =>
      forall q: nat ensures !UsesIn(w, q) { assert !Uses(e, q); }
      NoRegsIn(e, x);
      NoRegsSafe(x);
      NoRegsSafeWhens(w);
  }

  lemma {:induction false} NoRegsSafeWhens(w: Whens)
    requires forall q: nat :: !UsesIn(w, q)
    ensures SafeWhens(w)
    decreases w
  {
    match w
    case NoElse =>
    case Else(e) =>
      forall q: nat ensures !Uses(e, q) { assert !UsesIn(w, q); }
      NoRegsSafe(e);
    case When(t, e, rest) =>
      forall q: nat ensures !Uses(t, q) && !Uses(e, q) && !UsesIn(rest, q) { assert !UsesIn(w, q); }
      NoRegsSafe(t);
      NoRegsSafe(e);
      NoRegsSafeWhens(rest);
  }

  /** A condition as a user writes it: it has no registers. */
  ghost predicate NoRegs(e: Expr) {
    forall q: nat :: !Uses(e, q)
  }

  lemma NoRegsIn(e: Expr, part: Expr)
    requires NoRegs(e) && forall q: nat :: Uses(part, q) ==> Uses(e, q)
    ensures NoRegs(part)
  {
  }

  lemma UsesReg(op: CmpOp, k: nat, e: Expr, q: nat)
    ensures Uses(Cmp(op, Reg(k), e), q) <==> q == k || Uses(e, q)
  {
    assert Uses(Reg(k), q) <==> q == k;
  }

  // ---------------------------------------------------------------------
  // Programs that contain the code
  // ---------------------------------------------------------------------

  /** The finished program has the code and the labels of g. */
  ghost predicate Fits(p: Gen, g: Gen) {
    && |g.code| <= |p.code| && p.code[..|g.code|] == g.code
    && forall l | l in g.labels :: l in p.labels && p.labels[l] == g.labels[l]
  }

  lemma FitsEarlier(p: Gen, g: Gen, h: Gen)
    requires Later(g, h) && Fits(p, h)
    ensures Fits(p, g)
  {
    assert p.code[..|g.code|] == p.code[..|h.code|][..|g.code|];
  }

  /** The last instruction of g is in the program. */
  lemma LastInstr(p: Gen, g: Gen, i: Instr)
    requires Fits(p, Emit(g, i))
    ensures |g.code| < |p.code| && p.code[|g.code|] == i && Fits(p, g)
  {
    var h := Emit(g, i);
    assert p.code[|g.code|] == p.code[..|h.code|][|g.code|];
    assert p.code[..|g.code|] == p.code[..|h.code|][..|g.code|];
  }

  /** Registers before n, but for one, have not changed. */
  ghost predicate Keeps(a: Regs, b: Regs, n: nat, but: nat) {
    forall q: nat | q < n && q != but :: Get(a, q) == Get(b, q)
  }

  lemma KeepsTrans(a: Regs, b: Regs, c: Regs, n: nat, m: nat, but: nat, but2: nat)
    requires Keeps(a, b, n, but) && Keeps(b, c, m, but2) && n <= m && (but2 == but || but2 >= n)
    ensures Keeps(a, c, n, but)
  {
  }

  /** The registers an expression uses are given out and not the target. */
  ghost predicate UsesOk(e: Expr, n: nat, target: nat) {
    forall q: nat | Uses(e, q) :: q < n && q != target
  }

  ghost predicate UsesOkIn(w: Whens, n: nat, target: nat) {
    forall q: nat | UsesIn(w, q) :: q < n && q != target
  }

  lemma ComputedKeeps(e: Expr, row: Row, a: Regs, b: Regs, n: nat, but: nat)
    requires UsesOk(e, n, but) && Keeps(a, b, n, but)
    ensures Computed(e, row, a) == Computed(e, row, b) && JumpTruth(e, row, a) == JumpTruth(e, row, b)
  {
    ComputedKept(e, row, a, b);
  }

  /** An expression that may be compiled here: its registers are safe. */
  ghost predicate CanValue(e: Expr, n: nat, target: nat) {
    UsesOk(e, n, target) && Safe(e)
  }

  ghost predicate CanJump(e: Expr, n: nat) {
    UsesOk(e, n, n) && Safe(e)
  }

  lemma CanKeeps(e: Expr, row: Row, a: Regs, b: Regs, n: nat, m: nat, but: nat, target: nat)
    requires CanValue(e, n, but) && Keeps(a, b, n, but) && n <= m && target >= n
    ensures CanValue(e, m, target) && Computed(e, row, b) == Computed(e, row, a)
  {
    ComputedKeeps(e, row, a, b, n, but);
  }

  // ---------------------------------------------------------------------
  // Values
  // ---------------------------------------------------------------------

  /** From s the program gets to t, past the code, with value v in the register. */
  ghost predicate Computes(p: Gen, row: Row, s: State, at: Placed, t: State, v: Val, n: nat, but: nat) {
    Reaches(p, row, s, t) && t.pc == |at.g.code| && Get(t.regs, at.r) == v && Keeps(s.regs, t.regs, n, but)
  }

  /** Go on to the instruction that was emitted last. */
  lemma DoLast(p: Gen, row: Row, s: State, t: State, g: Gen, i: Instr) returns (u: State)
    requires Reaches(p, row, s, t) && t.pc == |g.code| && Fits(p, Emit(g, i))
    ensures Reaches(p, row, s, u) && u == Step(p, row, t) && t.pc < |p.code| && p.code[t.pc] == i
  {
    LastInstr(p, g, i);
    ReachThen(p, row, s, t);
    u := Step(p, row, t);
  }

  lemma {:induction false} TempOk(p: Gen, row: Row, g: Gen, e: Expr, regs: Regs) returns (t: State)
    requires Wf(g) && Fits(p, CodeTemp(g, e).g) && CanValue(e, g.nMem, g.nMem)
    ensures Computes(p, row, State(|g.code|, regs), CodeTemp(g, e), t, Computed(e, row, regs), g.nMem, g.nMem)
    ensures CodeTemp(g, e).r < CodeTemp(g, e).g.nMem && g.nMem < CodeTemp(g, e).g.nMem
    ensures CodeTemp(g, e).r == if e.Reg? then e.k else g.nMem
    decreases Size(e), 3
  {
    TempLater(g, e);
    t := TargetOk(p, row, NewTemp(g), e, g.nMem, regs);
    if e.Reg? { assert Uses(e, e.k); }
  }

  /** Two operands, one after the other. */
  lemma {:induction false} PairOk(p: Gen, row: Row, g: Gen, l: Expr, r: Expr, regs: Regs) returns (t: State)
    requires Wf(g) && Fits(p, CodeTemp(CodeTemp(g, l).g, r).g)
    requires CanValue(l, g.nMem, g.nMem) && CanValue(r, g.nMem, g.nMem)
    ensures var p1 := CodeTemp(g, l); var p2 := CodeTemp(p1.g, r);
      && Computes(p, row, State(|g.code|, regs), p2, t, Computed(r, row, regs), g.nMem, g.nMem)
      && Get(t.regs, p1.r) == Computed(l, row, regs) && p1.r < p2.g.nMem && p2.r < p2.g.nMem && g.nMem < p2.g.nMem
    decreases Size(l) + Size(r), 4
  {
    var p1 := CodeTemp(g, l);
    var p2 := CodeTemp(p1.g, r);
    PairLater(g, l, r);
    FitsEarlier(p, p1.g, p2.g);
    var a := TempOk(p, row, g, l, regs);
    CanKeeps(r, row, regs, a.regs, g.nMem, p1.g.nMem, g.nMem, p1.g.nMem);
    t := TempOk(p, row, p1.g, r, a.regs);
    ReachOn(p, row, State(|g.code|, regs), a, t);
    KeepsTrans(regs, a.regs, t.regs, g.nMem, p1.g.nMem, g.nMem, p1.g.nMem);
  }

  lemma CompareOk(p: Gen, row: Row, g: Gen, e: Expr, target: nat, regs: Regs) returns (t: State)
    requires e.Cmp? && Wf(g) && Fits(p, CodeTarget(g, e, target).g) && CanValue(e, g.nMem, target) && target < g.nMem
    ensures Computes(p, row, State(|g.code|, regs), CodeTarget(g, e, target), t, Computed(e, row, regs), g.nMem, target)
    decreases Size(e), 0
  {
    var p1 := CodeTemp(g, e.l);
    var p2 := CodeTemp(p1.g, e.r);
    UsesPair(e, e.l, e.r, g.nMem, target);
    LastInstr(p, p2.g, OpStore(e.op, p2.r, target, p1.r));
    var a := PairOk(p, row, g, e.l, e.r, regs);
    t := DoLast(p, row, State(|g.code|, regs), a, p2.g, OpStore(e.op, p2.r, target, p1.r));
  }

  lemma UsesPair(e: Expr, l: Expr, r: Expr, n: nat, target: nat)
    requires UsesOk(e, n, target)
    requires forall q: nat :: Uses(l, q) || Uses(r, q) ==> Uses(e, q)
    ensures UsesOk(l, n, n) && UsesOk(r, n, n)
  {
    forall q: nat | Uses(l, q) || Uses(r, q) ensures q < n { assert Uses(e, q); }
  }

  lemma AndOrOk(p: Gen, row: Row, g: Gen, e: Expr, target: nat, regs: Regs) returns (t: State)
    requires (e.And? || e.Or?) && Wf(g) && Fits(p, CodeTarget(g, e, target).g) && CanValue(e, g.nMem, target) && target < g.nMem
    ensures Computes(p, row, State(|g.code|, regs), CodeTarget(g, e, target), t, Computed(e, row, regs), g.nMem, target)
    decreases Size(e), 0
  {
    var p1 := CodeTemp(g, e.l);
    var p2 := CodeTemp(p1.g, e.r);
    var i := if e.And? then OpAnd(p2.r, p1.r, target) else OpOr(p2.r, p1.r, target);
    UsesPair(e, e.l, e.r, g.nMem, target);
    LastInstr(p, p2.g, i);
    var a := PairOk(p, row, g, e.l, e.r, regs);
    t := DoLast(p, row, State(|g.code|, regs), a, p2.g, i);
    LogicIs(IntTruth(Computed(e.l, row, regs)), IntTruth(Computed(e.r, row, regs)));
  }

  /** The tables of OP_And and OP_Or. */
  lemma LogicIs(a: Truth, b: Truth)
    ensures AndLogic(b, a) == And3(a, b) && OrLogic(b, a) == Or3(a, b)
  {
  }

  lemma NotOk(p: Gen, row: Row, g: Gen, e: Expr, target: nat, regs: Regs) returns (t: State)
    requires e.Not? && Wf(g) && Fits(p, CodeTarget(g, e, target).g) && CanValue(e, g.nMem, target) && target < g.nMem
    ensures Computes(p, row, State(|g.code|, regs), CodeTarget(g, e, target), t, Computed(e, row, regs), g.nMem, target)
    ensures CodeTarget(g, e, target).r == target
    decreases Size(e), 0
  {
    var q := CodeTarget(g, e.l, target);
    UsesOne(e, e.l, g.nMem, target);
    LastInstr(p, q.g, OpNot(q.r));
    var a := TargetOk(p, row, g, e.l, target, regs);
    t := DoLast(p, row, State(|g.code|, regs), a, q.g, OpNot(q.r));
  }

  lemma UsesOne(e: Expr, l: Expr, n: nat, target: nat)
    requires UsesOk(e, n, target)
    requires forall q: nat :: Uses(l, q) ==> Uses(e, q)
    ensures UsesOk(l, n, target) && UsesOk(l, n, n)
  {
    forall q: nat | Uses(l, q) ensures q < n && q != target { assert Uses(e, q); }
  }

  lemma IsNullFits(p: Gen, g: Gen, e: Expr, target: nat)
    requires (e.IsNull? || e.NotNull?) && Wf(g) && Fits(p, CodeTarget(g, e, target).g)
    ensures var g1 := Emit(g, OpConst(Num(1.0), target));
      var q := CodeTemp(g1, e.l);
      var i := if e.IsNull? then OpIsNull(q.r, At(|q.g.code| + 2)) else OpNotNull(q.r, At(|q.g.code| + 2));
      && CodeTarget(g, e, target) == Placed(Emit(Emit(q.g, i), OpAddImm(target, -1.0)), target)
      && Fits(p, g1) && Fits(p, q.g) && Wf(g1)
  {
    var g1 := Emit(g, OpConst(Num(1.0), target));
    var q := CodeTemp(g1, e.l);
    var i := if e.IsNull? then OpIsNull(q.r, At(|q.g.code| + 2)) else OpNotNull(q.r, At(|q.g.code| + 2));
    LastInstr(p, Emit(q.g, i), OpAddImm(target, -1.0));
    LastInstr(p, q.g, i);
    TempLater(g1, e.l);
    FitsEarlier(p, g1, q.g);
  }

  lemma IsNullOk(p: Gen, row: Row, g: Gen, e: Expr, target: nat, regs: Regs) returns (t: State)
    requires (e.IsNull? || e.NotNull?) && Wf(g) && Fits(p, CodeTarget(g, e, target).g) && CanValue(e, g.nMem, target) && target < g.nMem
    ensures Computes(p, row, State(|g.code|, regs), CodeTarget(g, e, target), t, Computed(e, row, regs), g.nMem, target)
    decreases Size(e), 0
  {
    var s := State(|g.code|, regs);
    var g1 := Emit(g, OpConst(Num(1.0), target));
    var q := CodeTemp(g1, e.l);
    var i := if e.IsNull? then OpIsNull(q.r, At(|q.g.code| + 2)) else OpNotNull(q.r, At(|q.g.code| + 2));
    var g3 := Emit(q.g, i);
    UsesOne(e, e.l, g.nMem, target);
    IsNullFits(p, g, e, target);
    ReachNone(p, row, s);
    var s1 := DoLast(p, row, s, s, g, OpConst(Num(1.0), target));
    CanKeeps(e.l, row, regs, s1.regs, g.nMem, g1.nMem, target, g1.nMem);
    var a := TempOk(p, row, g1, e.l, s1.regs);
    ReachOn(p, row, s, s1, a);
    t := NullTail(p, row, s, a, q.g, i, q.r, e.IsNull?, target);
  }

  /** The test and the instruction it may skip: 1 becomes 0 unless it is skipped. */
  lemma NullTail(p: Gen, row: Row, s: State, a: State, g: Gen, i: Instr, r: nat, isNull: bool, target: nat) returns (t: State)
    requires Reaches(p, row, s, a) && a.pc == |g.code| && Get(a.regs, target) == Num(1.0)
    requires i == if isNull then OpIsNull(r, At(|g.code| + 2)) else OpNotNull(r, At(|g.code| + 2))
    requires Fits(p, Emit(Emit(g, i), OpAddImm(target, -1.0)))
    ensures Reaches(p, row, s, t) && t.pc == |g.code| + 2 && (forall q: nat | q != target :: Get(t.regs, q) == Get(a.regs, q))
    ensures Get(t.regs, target) == ToVal(if Get(a.regs, r).Null? == isNull then True else False)
  {
    LastInstr(p, Emit(g, i), OpAddImm(target, -1.0));
    t := DoLast(p, row, s, a, g, i);
    if t.pc == |g.code| + 1 { t := DoLast(p, row, s, t, Emit(g, i), OpAddImm(target, -1.0)); }
  }

  /** The first half of a BETWEEN: x and y, and x >= y in r3. */
  lemma {:induction false} LowerOk(p: Gen, row: Row, g: Gen, x: Expr, y: Expr, regs: Regs) returns (b: State)
    requires Wf(g) && CanValue(x, g.nMem, g.nMem) && CanValue(y, g.nMem, g.nMem)
    requires Fits(p, Lower(g, x, y).g)
    ensures var p1 := CodeTemp(g, x); var h := Lower(g, x, y);
      && Computes(p, row, State(|g.code|, regs), h, b, ToVal(Compare(Ge, Computed(x, row, regs), Computed(y, row, regs))), g.nMem, g.nMem)
      && Get(b.regs, p1.r) == Computed(x, row, regs) && p1.r < h.r && h.g.nMem == h.r + 2 && g.nMem < h.r && Wf(h.g)
    decreases Size(x) + Size(y), 5
  {
    var p1 := CodeTemp(g, x);
    var p2 := CodeTemp(p1.g, y);
    var g2 := NewTemp(NewTemp(p2.g));
    PairLater(g, x, y);
    LastInstr(p, g2, OpStore(Ge, p2.r, p2.g.nMem, p1.r));
    assert Fits(p, p2.g);
    var a := PairOk(p, row, g, x, y, regs);
    b := DoLast(p, row, State(|g.code|, regs), a, g2, OpStore(Ge, p2.r, p2.g.nMem, p1.r));
  }

  function Lower(g: Gen, x: Expr, y: Expr): Placed {
    var p1 := CodeTemp(g, x);
    var p2 := CodeTemp(p1.g, y);
    Placed(Emit(NewTemp(NewTemp(p2.g)), OpStore(Ge, p2.r, p2.g.nMem, p1.r)), p2.g.nMem)
  }

  lemma {:induction false} BetweenOk(p: Gen, row: Row, g: Gen, e: Expr, target: nat, regs: Regs) returns (t: State)
    requires e.Between? && Wf(g) && Fits(p, CodeTarget(g, e, target).g) && CanValue(e, g.nMem, target) && target < g.nMem
    ensures Computes(p, row, State(|g.code|, regs), CodeTarget(g, e, target), t, Computed(e, row, regs), g.nMem, target)
    decreases Size(e), 0
  {
    var s := State(|g.code|, regs);
    var p1, h := CodeTemp(g, e.x), Lower(g, e.x, e.y);
    var p4 := CodeTemp(h.g, e.z);
    var g5 := Emit(p4.g, OpStore(Le, p4.r, h.r + 1, p1.r));
    UsesPair(e, e.x, e.y, g.nMem, target);
    UsesOne(e, e.z, g.nMem, target);
    BetweenFits(p, g, e, target);
    var b := LowerOk(p, row, g, e.x, e.y, regs);
    CanKeeps(e.z, row, regs, b.regs, g.nMem, h.g.nMem, g.nMem, h.g.nMem);
    var c := TempOk(p, row, h.g, e.z, b.regs);
    ReachOn(p, row, s, b, c);
    t := BetweenTail(p, row, s, c, p4.g, p1.r, p4.r, h.r, target);
    BetweenValue(Computed(e.x, row, regs), Computed(e.y, row, regs), Computed(e.z, row, regs));
  }

  /** The second half: x <= z in r3 + 1, and both halves together. */
  lemma BetweenTail(p: Gen, row: Row, s: State, c: State, g: Gen, rx: nat, rz: nat, r3: nat, target: nat) returns (t: State)
    requires Reaches(p, row, s, c) && c.pc == |g.code|
    requires Fits(p, Emit(Emit(g, OpStore(Le, rz, r3 + 1, rx)), OpAnd(r3, r3 + 1, target)))
    ensures Reaches(p, row, s, t) && t.pc == |g.code| + 2
    ensures forall q: nat | q != r3 + 1 && q != target :: Get(t.regs, q) == Get(c.regs, q)
    ensures Get(t.regs, target) == ToVal(AndLogic(IntTruth(Get(c.regs, r3)), IntTruth(ToVal(Compare(Le, Get(c.regs, rx), Get(c.regs, rz))))))
  {
    var g5 := Emit(g, OpStore(Le, rz, r3 + 1, rx));
    LastInstr(p, g5, OpAnd(r3, r3 + 1, target));
    var d := DoLast(p, row, s, c, g, OpStore(Le, rz, r3 + 1, rx));
    t := DoLast(p, row, s, d, g5, OpAnd(r3, r3 + 1, target));
  }

  lemma BetweenFits(p: Gen, g: Gen, e: Expr, target: nat)
    requires e.Between? && Wf(g) && Fits(p, CodeTarget(g, e, target).g)
    ensures var p1, h := CodeTemp(g, e.x), Lower(g, e.x, e.y);
      var p4 := CodeTemp(h.g, e.z);
      var g5 := Emit(p4.g, OpStore(Le, p4.r, h.r + 1, p1.r));
      && CodeTarget(g, e, target) == Placed(Emit(g5, OpAnd(h.r, h.r + 1, target)), target)
      && Fits(p, h.g) && Fits(p, p4.g) && Fits(p, g5)
  {
    var p1, h := CodeTemp(g, e.x), Lower(g, e.x, e.y);
    var p4 := CodeTemp(h.g, e.z);
    var g5 := Emit(p4.g, OpStore(Le, p4.r, h.r + 1, p1.r));
    PairLater(g, e.x, e.y);
    LastInstr(p, g5, OpAnd(h.r, h.r + 1, target));
    LastInstr(p, p4.g, OpStore(Le, p4.r, h.r + 1, p1.r));
    TempLater(h.g, e.z);
    FitsEarlier(p, h.g, p4.g);
  }

  lemma BetweenValue(x: Val, y: Val, z: Val)
    ensures var a, b := Compare(Ge, x, y), Compare(Le, x, z);
      AndLogic(IntTruth(ToVal(a)), IntTruth(ToVal(b))) == And3(a, b)
  {
  }

  /** Code for a value puts the value in the register it tells, and changes no
      other register that is in use. */
  lemma {:induction false} TargetOk(p: Gen, row: Row, g: Gen, e: Expr, target: nat, regs: Regs) returns (t: State)
    requires Wf(g) && Fits(p, CodeTarget(g, e, target).g) && CanValue(e, g.nMem, target) && target < g.nMem
    ensures Computes(p, row, State(|g.code|, regs), CodeTarget(g, e, target), t, Computed(e, row, regs), g.nMem, target)
    ensures CodeTarget(g, e, target).r == if e.Reg? then e.k else target
    decreases Size(e), 2
  {
    var s := State(|g.code|, regs);
    match e
    case Leaf(i) => ReachNone(p, row, s); t := DoLast(p, row, s, s, g, OpLoad(i, target));
    case Lit(v) => ReachNone(p, row, s); t := DoLast(p, row, s, s, g, OpConst(v, target));
    case Reg(k) => ReachNone(p, row, s); t := s;
    case Cmp(_, _, _) => t := CompareOk(p, row, g, e, target, regs);
    case And(_, _) => t := AndOrOk(p, row, g, e, target, regs);
    case Or(_, _) => t := AndOrOk(p, row, g, e, target, regs);
    case Not(_) => t := NotOk(p, row, g, e, target, regs);
    case IsNull(_) => t := IsNullOk(p, row, g, e, target, regs);
    case NotNull(_) => t := IsNullOk(p, row, g, e, target, regs);
    case Between(_, _, _) => t := BetweenOk(p, row, g, e, target, regs);
    case Case(w) => t := CaseOk(p, row, g, w, target, regs);
    case CaseOf(x, w) => t := CaseOfOk(p, row, g, x, w, target, regs);
  }

  lemma {:induction false} IntoOk(p: Gen, row: Row, g: Gen, e: Expr, target: nat, regs: Regs) returns (t: State)
    requires Wf(g) && Fits(p, CodeInto(g, e, target)) && CanValue(e, g.nMem, target) && target < g.nMem
    ensures Computes(p, row, State(|g.code|, regs), Placed(CodeInto(g, e, target), target), t, Computed(e, row, regs), g.nMem, target)
    decreases Size(e), 3
  {
    var q := CodeTarget(g, e, target);
    if q.r == target {
      t := TargetOk(p, row, g, e, target, regs);
    } else {
      LastInstr(p, q.g, OpCopy(q.r, target));
      var a := TargetOk(p, row, g, e, target, regs);
      t := DoLast(p, row, State(|g.code|, regs), a, q.g, OpCopy(q.r, target));
    }
  }

  // ---------------------------------------------------------------------
  // Jumps
  // ---------------------------------------------------------------------

  /** From s the program gets to t: to the label if the jump is taken, and else
      past the code. */
  ghost predicate Branches(p: Gen, row: Row, s: State, h: Gen, t: State, taken: bool, dest: nat, n: nat) {
    && Reaches(p, row, s, t) && dest in p.labels && t.pc == (if taken then p.labels[dest] else |h.code|)
    && Keeps(s.regs, t.regs, n, n)
  }

  lemma CanJumpKeeps(e: Expr, row: Row, a: Regs, b: Regs, n: nat, m: nat)
    requires CanJump(e, n) && Keeps(a, b, n, n) && n <= m
    ensures CanJump(e, m) && JumpTruth(e, row, b) == JumpTruth(e, row, a)
  {
    ComputedKeeps(e, row, a, b, n, n);
  }

  /** The instruction that a comparison becomes, for either outcome. */
  lemma {:induction false} CmpJumpOk(p: Gen, row: Row, g: Gen, e: Expr, op: CmpOp, dest: nat, jin: bool, regs: Regs) returns (t: State)
    requires e.Cmp? && Wf(g) && CanJump(e, g.nMem) && dest in p.labels
    requires var p1 := CodeTemp(g, e.l); var p2 := CodeTemp(p1.g, e.r); Fits(p, Emit(p2.g, OpJump(op, p2.r, Lab(dest), p1.r, jin)))
    ensures var p1 := CodeTemp(g, e.l); var p2 := CodeTemp(p1.g, e.r);
      Branches(p, row, State(|g.code|, regs), Emit(p2.g, OpJump(op, p2.r, Lab(dest), p1.r, jin)), t,
               Takes(Compare(op, Computed(e.l, row, regs), Computed(e.r, row, regs)), jin), dest, g.nMem)
    decreases Size(e), 0
  {
    var p1 := CodeTemp(g, e.l);
    var p2 := CodeTemp(p1.g, e.r);
    UsesPair(e, e.l, e.r, g.nMem, g.nMem);
    LastInstr(p, p2.g, OpJump(op, p2.r, Lab(dest), p1.r, jin));
    var a := PairOk(p, row, g, e.l, e.r, regs);
    t := DoLast(p, row, State(|g.code|, regs), a, p2.g, OpJump(op, p2.r, Lab(dest), p1.r, jin));
  }

  /** A value in a temporary register, and an instruction that tests it. */
  lemma {:induction false} TestOk(p: Gen, row: Row, g: Gen, e: Expr, i: Instr, dest: nat, regs: Regs) returns (t: State, a: State)
    requires Wf(g) && CanValue(e, g.nMem, g.nMem) && dest in p.labels
    requires Fits(p, Emit(CodeTemp(g, e).g, i))
    ensures Reaches(p, row, State(|g.code|, regs), t) && t == Step(p, row, a)
    ensures a.pc == |CodeTemp(g, e).g.code| && a.pc < |p.code| && p.code[a.pc] == i
    ensures Get(a.regs, CodeTemp(g, e).r) == Computed(e, row, regs) && Keeps(regs, a.regs, g.nMem, g.nMem)
    decreases Size(e), 4
  {
    var q := CodeTemp(g, e);
    LastInstr(p, q.g, i);
    a := TempOk(p, row, g, e, regs);
    t := DoLast(p, row, State(|g.code|, regs), a, q.g, i);
  }

  /** IS NULL and NOT NULL: one instruction, which of the two depends on when to
      jump. */
  lemma {:induction false} NullJumpOk(p: Gen, row: Row, g: Gen, e: Expr, onTrue: bool, dest: nat, jin: bool, regs: Regs) returns (t: State)
    requires (e.IsNull? || e.NotNull?) && Wf(g) && CanJump(e, g.nMem) && dest in p.labels
    requires Fits(p, if onTrue then IfTrue(g, e, dest, jin) else IfFalse(g, e, dest, jin))
    ensures var v := JumpTruth(e, row, regs);
      Branches(p, row, State(|g.code|, regs), if onTrue then IfTrue(g, e, dest, jin) else IfFalse(g, e, dest, jin), t,
               Takes(if onTrue then v else Not3(v), jin), dest, g.nMem)
    decreases Size(e), 0
  {
    var q := CodeTemp(g, e.l);
    var i := if e.IsNull? == onTrue then OpIsNull(q.r, Lab(dest)) else OpNotNull(q.r, Lab(dest));
    UsesOne(e, e.l, g.nMem, g.nMem);
    var a;
    t, a := TestOk(p, row, g, e.l, i, dest, regs);
  }

  /** sqlite3ExprIfTrue: the code jumps exactly when the value is true, or NULL
      and jumpIfNull is set. */
  lemma {:induction false} IfTrueOk(p: Gen, row: Row, g: Gen, e: Expr, dest: nat, jin: bool, regs: Regs) returns (t: State)
    requires Wf(g) && Fits(p, IfTrue(g, e, dest, jin)) && CanJump(e, g.nMem) && dest in p.labels
    ensures Branches(p, row, State(|g.code|, regs), IfTrue(g, e, dest, jin), t, Takes(JumpTruth(e, row, regs), jin), dest, g.nMem)
    decreases Size(e), 5
  {
    var a;
    match e
    case And(l, r) => t := AndTrueOk(p, row, g, l, r, dest, jin, regs);
    case Or(l, r) => t := OrTrueOk(p, row, g, l, r, dest, jin, regs);
    case Not(l) =>
      UsesOne(e, l, g.nMem, g.nMem);
      t := IfFalseOk(p, row, g, l, dest, jin, regs);
    case Cmp(op, l, r) => t := CmpJumpOk(p, row, g, e, op, dest, jin, regs);
    case IsNull(l) => t := NullJumpOk(p, row, g, e, true, dest, jin, regs);
    case NotNull(l) => t := NullJumpOk(p, row, g, e, true, dest, jin, regs);
    case Between(x, y, z) => t := BetweenJumpOk(p, row, g, x, y, z, true, dest, jin, regs);
    case _ => t, a := TestOk(p, row, g, e, OpIf(CodeTemp(g, e).r, Lab(dest), jin), dest, regs);
  }

  /** sqlite3ExprIfFalse: the code jumps exactly when the value is false, or NULL
      and jumpIfNull is set. */
  lemma {:induction false} IfFalseOk(p: Gen, row: Row, g: Gen, e: Expr, dest: nat, jin: bool, regs: Regs) returns (t: State)
    requires Wf(g) && Fits(p, IfFalse(g, e, dest, jin)) && CanJump(e, g.nMem) && dest in p.labels
    ensures Branches(p, row, State(|g.code|, regs), IfFalse(g, e, dest, jin), t, Takes(Not3(JumpTruth(e, row, regs)), jin), dest, g.nMem)
    decreases Size(e), 5
  {
    var a;
    match e
    case And(l, r) => t := AndFalseOk(p, row, g, l, r, dest, jin, regs);
    case Or(l, r) => t := OrFalseOk(p, row, g, l, r, dest, jin, regs);
    case Not(l) =>
      UsesOne(e, l, g.nMem, g.nMem);
      t := IfTrueOk(p, row, g, l, dest, jin, regs);
    case Cmp(op, l, r) =>
      OppositeIsNot(op, Computed(l, row, regs), Computed(r, row, regs));
      t := CmpJumpOk(p, row, g, e, Opposite(op), dest, jin, regs);
    case IsNull(l) => t := NullJumpOk(p, row, g, e, false, dest, jin, regs);
    case NotNull(l) => t := NullJumpOk(p, row, g, e, false, dest, jin, regs);
    case Between(x, y, z) => t := BetweenJumpOk(p, row, g, x, y, z, false, dest, jin, regs);
    case _ => t, a := TestOk(p, row, g, e, OpIfNot(CodeTemp(g, e).r, Lab(dest), jin), dest, regs);
  }

  /** Both halves of a condition use only registers that the whole uses. */
  lemma CanHalves(e: Expr, l: Expr, r: Expr, row: Row, regs: Regs, n: nat)
    requires CanJump(e, n) && (e == And(l, r) || e == Or(l, r))
    ensures CanJump(l, n) && CanJump(r, n)
  {
    UsesPair(e, l, r, n, n);
  }

  /** The code of both halves is there, and the label between them is behind it. */
  lemma AndTrueFits(p: Gen, g: Gen, l: Expr, r: Expr, dest: nat, jin: bool)
    requires Wf(g) && Fits(p, IfTrue(g, And(l, r), dest, jin))
    ensures var d2, g0 := g.nLabel, NewLabel(g);
      var g1 := IfFalse(g0, l, d2, !jin);
      var g2 := IfTrue(g1, r, dest, jin);
      && Wf(g0) && Wf(g1) && Fits(p, g1) && Fits(p, g2) && d2 in p.labels && p.labels[d2] == |g2.code|
      && IfTrue(g, And(l, r), dest, jin) == Resolve(g2, d2) && g.nMem <= g1.nMem
  {
    var d2, g0 := g.nLabel, NewLabel(g);
    var g1 := IfFalse(g0, l, d2, !jin);
    var g2 := IfTrue(g1, r, dest, jin);
    IfFalseLater(g0, l, d2, !jin);
    IfTrueLater(g1, r, dest, jin);
    assert d2 !in g2.labels;
    FitsEarlier(p, g1, g2);
    assert d2 in Resolve(g2, d2).labels;
  }

  lemma {:induction false} AndTrueOk(p: Gen, row: Row, g: Gen, l: Expr, r: Expr, dest: nat, jin: bool, regs: Regs) returns (t: State)
    requires Wf(g) && Fits(p, IfTrue(g, And(l, r), dest, jin)) && CanJump(And(l, r), g.nMem) && dest in p.labels
    ensures Branches(p, row, State(|g.code|, regs), IfTrue(g, And(l, r), dest, jin), t,
                     Takes(JumpTruth(And(l, r), row, regs), jin), dest, g.nMem)
    decreases Size(l) + Size(r) + 1, 0
  {
    var s := State(|g.code|, regs);
    var d2, g0 := g.nLabel, NewLabel(g);
    var g1 := IfFalse(g0, l, d2, !jin);
    var g2 := IfTrue(g1, r, dest, jin);
    CanHalves(And(l, r), l, r, row, regs, g.nMem);
    AndTrueFits(p, g, l, r, dest, jin);
    var a := IfFalseOk(p, row, g0, l, d2, !jin, regs);
    if Takes(Not3(JumpTruth(l, row, regs)), !jin) {
      t := a;
    } else {
      CanJumpKeeps(r, row, regs, a.regs, g.nMem, g1.nMem);
      t := IfTrueOk(p, row, g1, r, dest, jin, a.regs);
      ReachOn(p, row, s, a, t);
    }
  }

  lemma {:induction false} OrTrueOk(p: Gen, row: Row, g: Gen, l: Expr, r: Expr, dest: nat, jin: bool, regs: Regs) returns (t: State)
    requires Wf(g) && Fits(p, IfTrue(g, Or(l, r), dest, jin)) && CanJump(Or(l, r), g.nMem) && dest in p.labels
    ensures Branches(p, row, State(|g.code|, regs), IfTrue(g, Or(l, r), dest, jin), t,
                     Takes(JumpTruth(Or(l, r), row, regs), jin), dest, g.nMem)
    decreases Size(l) + Size(r) + 1, 0
  {
    var s := State(|g.code|, regs);
    var g1 := IfTrue(g, l, dest, jin);
    CanHalves(Or(l, r), l, r, row, regs, g.nMem);
    IfTrueLater(g, l, dest, jin);
    IfTrueLater(g1, r, dest, jin);
    FitsEarlier(p, g1, IfTrue(g1, r, dest, jin));
    var a := IfTrueOk(p, row, g, l, dest, jin, regs);
    if Takes(JumpTruth(l, row, regs), jin) {
      t := a;
    } else {
      CanJumpKeeps(r, row, regs, a.regs, g.nMem, g1.nMem);
      t := IfTrueOk(p, row, g1, r, dest, jin, a.regs);
      ReachOn(p, row, s, a, t);
    }
  }

  /** The code of both halves is there, and the label between them is behind it. */
  lemma OrFalseFits(p: Gen, g: Gen, l: Expr, r: Expr, dest: nat, jin: bool)
    requires Wf(g) && Fits(p, IfFalse(g, Or(l, r), dest, jin))
    ensures var d2, g0 := g.nLabel, NewLabel(g);
      var g1 := IfTrue(g0, l, d2, !jin);
      var g2 := IfFalse(g1, r, dest, jin);
      && Wf(g0) && Wf(g1) && Fits(p, g1) && Fits(p, g2) && d2 in p.labels && p.labels[d2] == |g2.code|
      && IfFalse(g, Or(l, r), dest, jin) == Resolve(g2, d2) && g.nMem <= g1.nMem
  {
    var d2, g0 := g.nLabel, NewLabel(g);
    var g1 := IfTrue(g0, l, d2, !jin);
    var g2 := IfFalse(g1, r, dest, jin);
    IfTrueLater(g0, l, d2, !jin);
    IfFalseLater(g1, r, dest, jin);
    assert d2 !in g2.labels;
    FitsEarlier(p, g1, g2);
    assert d2 in Resolve(g2, d2).labels;
  }

  lemma {:induction false} OrFalseOk(p: Gen, row: Row, g: Gen, l: Expr, r: Expr, dest: nat, jin: bool, regs: Regs) returns (t: State)
    requires Wf(g) && Fits(p, IfFalse(g, Or(l, r), dest, jin)) && CanJump(Or(l, r), g.nMem) && dest in p.labels
    ensures Branches(p, row, State(|g.code|, regs), IfFalse(g, Or(l, r), dest, jin), t,
                     Takes(Not3(JumpTruth(Or(l, r), row, regs)), jin), dest, g.nMem)
    decreases Size(l) + Size(r) + 1, 0
  {
    var s := State(|g.code|, regs);
    var d2, g0 := g.nLabel, NewLabel(g);
    var g1 := IfTrue(g0, l, d2, !jin);
    var g2 := IfFalse(g1, r, dest, jin);
    CanHalves(Or(l, r), l, r, row, regs, g.nMem);
    OrFalseFits(p, g, l, r, dest, jin);
    var a := IfTrueOk(p, row, g0, l, d2, !jin, regs);
    if Takes(JumpTruth(l, row, regs), !jin) {
      t := a;
    } else {
      CanJumpKeeps(r, row, regs, a.regs, g.nMem, g1.nMem);
      t := IfFalseOk(p, row, g1, r, dest, jin, a.regs);
      ReachOn(p, row, s, a, t);
    }
  }

  lemma {:induction false} AndFalseOk(p: Gen, row: Row, g: Gen, l: Expr, r: Expr, dest: nat, jin: bool, regs: Regs) returns (t: State)
    requires Wf(g) && Fits(p, IfFalse(g, And(l, r), dest, jin)) && CanJump(And(l, r), g.nMem) && dest in p.labels
    ensures Branches(p, row, State(|g.code|, regs), IfFalse(g, And(l, r), dest, jin), t,
                     Takes(Not3(JumpTruth(And(l, r), row, regs)), jin), dest, g.nMem)
    decreases Size(l) + Size(r) + 1, 0
  {
    var s := State(|g.code|, regs);
    var g1 := IfFalse(g, l, dest, jin);
    CanHalves(And(l, r), l, r, row, regs, g.nMem);
    IfFalseLater(g, l, dest, jin);
    IfFalseLater(g1, r, dest, jin);
    FitsEarlier(p, g1, IfFalse(g1, r, dest, jin));
    var a := IfFalseOk(p, row, g, l, dest, jin, regs);
    if Takes(Not3(JumpTruth(l, row, regs)), jin) {
      t := a;
    } else {
      CanJumpKeeps(r, row, regs, a.regs, g.nMem, g1.nMem);
      t := IfFalseOk(p, row, g1, r, dest, jin, a.regs);
      ReachOn(p, row, s, a, t);
    }
  }

  /** BETWEEN: x once, and then x >= y AND x <= z. */
  lemma {:induction false} BetweenJumpOk(p: Gen, row: Row, g: Gen, x: Expr, y: Expr, z: Expr, onTrue: bool, dest: nat, jin: bool, regs: Regs)
    returns (t: State)
    requires Wf(g) && CanJump(Between(x, y, z), g.nMem) && dest in p.labels
    requires Fits(p, if onTrue then IfTrue(g, Between(x, y, z), dest, jin) else IfFalse(g, Between(x, y, z), dest, jin))
    ensures var e := Between(x, y, z); var v := JumpTruth(e, row, regs);
      Branches(p, row, State(|g.code|, regs), if onTrue then IfTrue(g, e, dest, jin) else IfFalse(g, e, dest, jin), t,
               Takes(if onTrue then v else Not3(v), jin), dest, g.nMem)
    decreases Size(x) + Size(y) + Size(z) + 6, 0
  {
    var s, e := State(|g.code|, regs), Between(x, y, z);
    var q := CodeTemp(g, x);
    var both := Both(q.r, y, z);
    TempLater(g, x);
    IfTrueLater(q.g, both, dest, jin);
    IfFalseLater(q.g, both, dest, jin);
    FitsEarlier(p, q.g, if onTrue then IfTrue(q.g, both, dest, jin) else IfFalse(q.g, both, dest, jin));
    UsesOne(e, x, g.nMem, g.nMem);
    var a := TempOk(p, row, g, x, regs);
    BothOk(e, row, regs, a.regs, g.nMem, q);
    if onTrue {
      t := IfTrueOk(p, row, q.g, both, dest, jin, a.regs);
    } else {
      t := IfFalseOk(p, row, q.g, both, dest, jin, a.regs);
    }
    ReachOn(p, row, s, a, t);
  }

  lemma CmpSafe(op: CmpOp, k: nat, e: Expr)
    ensures Safe(Cmp(op, Reg(k), e)) <==> Safe(e)
  {
    assert Safe(Reg(k));
  }

  lemma BothMeans(k: nat, y: Expr, z: Expr, row: Row, regs: Regs)
    ensures Computed(Both(k, y, z), row, regs)
         == ToVal(And3(Compare(Ge, Get(regs, k), Computed(y, row, regs)), Compare(Le, Get(regs, k), Computed(z, row, regs))))
  {
    assert Computed(Reg(k), row, regs) == Get(regs, k);
    assert Computed(Cmp(Ge, Reg(k), y), row, regs) == ToVal(Compare(Ge, Get(regs, k), Computed(y, row, regs)));
    assert Computed(Cmp(Le, Reg(k), z), row, regs) == ToVal(Compare(Le, Get(regs, k), Computed(z, row, regs)));
  }

  lemma BothOk(e: Expr, row: Row, regs: Regs, a: Regs, n: nat, q: Placed)
    requires e.Between? && CanJump(e, n) && Keeps(regs, a, n, n) && q.r < q.g.nMem && n <= q.g.nMem
    requires Get(a, q.r) == Computed(e.x, row, regs)
    ensures var both := Both(q.r, e.y, e.z);
      CanJump(both, q.g.nMem) && JumpTruth(both, row, a) == JumpTruth(e, row, regs)
  {
    UsesPair(e, e.y, e.z, n, n);
    ComputedKeeps(e.y, row, regs, a, n, n);
    ComputedKeeps(e.z, row, regs, a, n, n);
    var both := Both(q.r, e.y, e.z);
    forall k: nat | Uses(both, k) ensures k < q.g.nMem {
      UsesReg(Ge, q.r, e.y, k);
      UsesReg(Le, q.r, e.z, k);
    }
    CmpSafe(Ge, q.r, e.y);
    CmpSafe(Le, q.r, e.z);
    BothMeans(q.r, e.y, e.z, row, a);
  }

  // ---------------------------------------------------------------------
  // CASE
  // ---------------------------------------------------------------------

  /** The parts of an arm use only registers that the arms use. */
  lemma UsesArm(w: Whens, t: Expr, e: Expr, rest: Whens, n: nat, target: nat)
    requires w == When(t, e, rest) && UsesOkIn(w, n, target)
    ensures UsesOk(t, n, target) && UsesOk(t, n, n) && UsesOk(e, n, target) && UsesOkIn(rest, n, target)
  {
    forall q: nat | Uses(t, q) || Uses(e, q) || UsesIn(rest, q) ensures q < n && q != target { assert UsesIn(w, q); }
  }

  /** One arm: from its test either to the end with its result, or to the next
      arm with nothing changed that is in use. */
  lemma {:induction false} ArmOk(p: Gen, row: Row, g: Gen, t: Expr, e: Expr, target: nat, end: nat, regs: Regs) returns (u: State)
    requires Wf(g) && CanJump(t, g.nMem) && CanValue(e, g.nMem, target) && target < g.nMem && end in p.labels
    requires var g1 := IfFalse(NewLabel(g), t, g.nLabel, true);
      Fits(p, Resolve(Emit(CodeInto(g1, e, target), OpGoto(Lab(end))), g.nLabel))
    ensures var g1 := IfFalse(NewLabel(g), t, g.nLabel, true);
      var g2 := Emit(CodeInto(g1, e, target), OpGoto(Lab(end)));
      && Reaches(p, row, State(|g.code|, regs), u) && Keeps(regs, u.regs, g.nMem, target)
      && if JumpTruth(t, row, regs) == True then u.pc == p.labels[end] && Get(u.regs, target) == Computed(e, row, regs)
         else u.pc == |g2.code| && Keeps(regs, u.regs, g.nMem, g.nMem)
    decreases Size(t) + Size(e) + 1, 0
  {
    var s, next, g0 := State(|g.code|, regs), g.nLabel, NewLabel(g);
    var g1 := IfFalse(g0, t, next, true);
    var g2 := Emit(CodeInto(g1, e, target), OpGoto(Lab(end)));
    ArmLater(g, t, e, target, end);
    assert next !in g2.labels;
    assert Fits(p, g2);
    assert next in Resolve(g2, next).labels && p.labels[next] == |g2.code|;
    FitsEarlier(p, g1, g2);
    var a := IfFalseOk(p, row, g0, t, next, true, regs);
    if JumpTruth(t, row, regs) == True {
      ComputedKeeps(e, row, regs, a.regs, g.nMem, g.nMem) by { assert UsesOk(e, g.nMem, g.nMem); }
      LastInstr(p, CodeInto(g1, e, target), OpGoto(Lab(end)));
      var b := IntoOk(p, row, g1, e, target, a.regs);
      ReachOn(p, row, s, a, b);
      u := DoLast(p, row, s, b, CodeInto(g1, e, target), OpGoto(Lab(end)));
    } else {
      u := a;
    }
  }

  /** CASE WHEN: the target gets the result of the first arm whose test is true. */
  lemma {:induction false} WhensOk(p: Gen, row: Row, g: Gen, w: Whens, target: nat, end: nat, regs: Regs) returns (u: State)
    requires Wf(g) && Fits(p, CodeWhens(g, w, target, end)) && target < g.nMem
    requires UsesOkIn(w, g.nMem, target) && SafeWhens(w)
    requires end in p.labels && p.labels[end] == |CodeWhens(g, w, target, end).code|
    ensures Computes(p, row, State(|g.code|, regs), Placed(CodeWhens(g, w, target, end), target), u, ComputedWhens(w, row, regs), g.nMem, target)
    decreases WhensSize(w), 0
  {
    var s := State(|g.code|, regs);
    match w
    case NoElse => ReachNone(p, row, s); u := DoLast(p, row, s, s, g, OpConst(Null, target));
    case Else(e) =>
      forall q: nat | Uses(e, q) ensures q < g.nMem && q != target { assert UsesIn(w, q); }
      u := IntoOk(p, row, g, e, target, regs);
    case When(t, e, rest) =>
      var g3 := Resolve(Emit(CodeInto(IfFalse(NewLabel(g), t, g.nLabel, true), e, target), OpGoto(Lab(end))), g.nLabel);
      UsesArm(w, t, e, rest, g.nMem, target);
      ArmLater(g, t, e, target, end);
      WhensLater(g3, rest, target, end);
      FitsEarlier(p, g3, CodeWhens(g3, rest, target, end));
      var a := ArmOk(p, row, g, t, e, target, end, regs);
      if JumpTruth(t, row, regs) == True {
        u := a;
      } else {
        RestKeeps(rest, row, regs, a.regs, g.nMem, g3.nMem, target);
        u := WhensOk(p, row, g3, rest, target, end, a.regs);
        ReachOn(p, row, s, a, u);
      }
  }

  lemma RestKeeps(w: Whens, row: Row, regs: Regs, a: Regs, n: nat, m: nat, target: nat)
    requires UsesOkIn(w, n, target) && Keeps(regs, a, n, n) && n <= m
    ensures UsesOkIn(w, m, target) && ComputedWhens(w, row, a) == ComputedWhens(w, row, regs)
    ensures forall v :: ComputedWhensOf(v, w, row, a) == ComputedWhensOf(v, w, row, regs)
  {
    ComputedWhensKept(w, row, regs, a);
    forall v ensures ComputedWhensOf(v, w, row, a) == ComputedWhensOf(v, w, row, regs) { ComputedWhensOfKept(v, w, row, regs, a); }
  }

  lemma TestMeans(k: nat, t: Expr, row: Row, regs: Regs)
    ensures JumpTruth(Cmp(Eq, Reg(k), t), row, regs) == Compare(Eq, Get(regs, k), Computed(t, row, regs))
  {
    assert Computed(Reg(k), row, regs) == Get(regs, k);
    assert Computed(Cmp(Eq, Reg(k), t), row, regs) == ToVal(Compare(Eq, Get(regs, k), Computed(t, row, regs)));
  }

  /** CASE x WHEN, with x in register k: the result of the first arm x equals. */
  lemma {:induction false} WhensOfOk(p: Gen, row: Row, g: Gen, k: nat, w: Whens, target: nat, end: nat, regs: Regs) returns (u: State)
    requires Wf(g) && Fits(p, CodeWhensOf(g, k, w, target, end)) && target < g.nMem && k < g.nMem && k != target
    requires UsesOkIn(w, g.nMem, target) && SafeWhens(w)
    requires end in p.labels && p.labels[end] == |CodeWhensOf(g, k, w, target, end).code|
    ensures Computes(p, row, State(|g.code|, regs), Placed(CodeWhensOf(g, k, w, target, end), target), u,
                     ComputedWhensOf(Get(regs, k), w, row, regs), g.nMem, target)
    decreases WhensSize(w), 0
  {
    var s := State(|g.code|, regs);
    match w
    case NoElse => ReachNone(p, row, s); u := DoLast(p, row, s, s, g, OpConst(Null, target));
    case Else(e) =>
      forall q: nat | Uses(e, q) ensures q < g.nMem && q != target { assert UsesIn(w, q); }
      u := IntoOk(p, row, g, e, target, regs);
    case When(t, e, rest) =>
      var test := Cmp(Eq, Reg(k), t);
      assert Size(test) == 1 + Size(Reg(k)) + Size(t);
      var g3 := Resolve(Emit(CodeInto(IfFalse(NewLabel(g), test, g.nLabel, true), e, target), OpGoto(Lab(end))), g.nLabel);
      UsesArm(w, t, e, rest, g.nMem, target);
      forall q: nat | Uses(test, q) ensures q < g.nMem { UsesReg(Eq, k, t, q); }
      CmpSafe(Eq, k, t);
      TestMeans(k, t, row, regs);
      assert Size(Reg(k)) == 1;
      ArmLater(g, test, e, target, end);
      WhensOfLater(g3, k, rest, target, end);
      FitsEarlier(p, g3, CodeWhensOf(g3, k, rest, target, end));
      var a := ArmOk(p, row, g, test, e, target, end, regs);
      if JumpTruth(test, row, regs) == True {
        u := a;
      } else {
        RestKeeps(rest, row, regs, a.regs, g.nMem, g3.nMem, target);
        u := WhensOfOk(p, row, g3, k, rest, target, end, a.regs);
        ReachOn(p, row, s, a, u);
      }
  }

  lemma {:induction false} CaseOk(p: Gen, row: Row, g: Gen, w: Whens, target: nat, regs: Regs) returns (u: State)
    requires Wf(g) && Fits(p, CodeTarget(g, Case(w), target).g) && CanValue(Case(w), g.nMem, target) && target < g.nMem
    ensures Computes(p, row, State(|g.code|, regs), CodeTarget(g, Case(w), target), u, Computed(Case(w), row, regs), g.nMem, target)
    decreases WhensSize(w), 1
  {
    var end, g0 := g.nLabel, NewLabel(g);
    var g1 := CodeWhens(g0, w, target, end);
    WhensLater(g0, w, target, end);
    assert end !in g1.labels;
    assert Fits(p, g1);
    assert end in Resolve(g1, end).labels && p.labels[end] == |g1.code|;
    forall q: nat | UsesIn(w, q) ensures q < g.nMem && q != target { assert Uses(Case(w), q); }
    u := WhensOk(p, row, g0, w, target, end, regs);
  }

  lemma {:induction false} CaseOfOk(p: Gen, row: Row, g: Gen, x: Expr, w: Whens, target: nat, regs: Regs) returns (u: State)
    requires Wf(g) && Fits(p, CodeTarget(g, CaseOf(x, w), target).g) && CanValue(CaseOf(x, w), g.nMem, target) && target < g.nMem
    ensures Computes(p, row, State(|g.code|, regs), CodeTarget(g, CaseOf(x, w), target), u, Computed(CaseOf(x, w), row, regs), g.nMem, target)
    decreases Size(x) + WhensSize(w), 4
  {
    var s, e := State(|g.code|, regs), CaseOf(x, w);
    var end, g0 := g.nLabel, NewLabel(g);
    var q := CodeTemp(g0, x);
    var g1 := CodeWhensOf(q.g, q.r, w, target, end);
    TempLater(g0, x);
    WhensOfLater(q.g, q.r, w, target, end);
    LaterTrans(g0, q.g, g1);
    assert end !in g1.labels;
    assert Fits(p, g1);
    assert end in Resolve(g1, end).labels && p.labels[end] == |g1.code|;
    FitsEarlier(p, q.g, g1);
    UsesOne(e, x, g.nMem, target);
    forall k: nat | UsesIn(w, k) ensures k < g.nMem && k != target { assert Uses(e, k); }
    var a := TempOk(p, row, g0, x, regs);
    RestKeeps(w, row, regs, a.regs, g.nMem, q.g.nMem, target);
    if x.Reg? { assert Uses(e, x.k); }
    u := WhensOfOk(p, row, q.g, q.r, w, target, end, a.regs);
    ReachOn(p, row, s, a, u);
  }

  // ---------------------------------------------------------------------
  // Whole conditions
  // ---------------------------------------------------------------------

  /** Code for a condition at the start of a program; label 0 is where to jump. */
  function Condition(e: Expr, onTrue: bool, jin: bool): Gen {
    var g := Gen([], map[], 1, 0);
    if onTrue then IfTrue(g, e, 0, jin) else IfFalse(g, e, 0, jin)
  }

  /** Run from its start, the program comes to this address. */
  ghost predicate ComesTo(p: Gen, row: Row, pc: nat) {
    exists regs: Regs :: Reaches(p, row, State(0, map[]), State(pc, regs))
  }

  /** For every condition, row and program around it: the code comes to the label
      exactly when the jumps take the condition to be true (false), or NULL with
      jumpIfNull, and otherwise falls through. */
  lemma ConditionJumps(p: Gen, row: Row, e: Expr, onTrue: bool, jin: bool)
    requires Fits(p, Condition(e, onTrue, jin)) && 0 in p.labels && NoRegs(e)
    ensures var v := JumpTruth(e, row, map[]);
      ComesTo(p, row, if Takes(if onTrue then v else Not3(v), jin) then p.labels[0] else |Condition(e, onTrue, jin).code|)
  {
    var g := Gen([], map[], 1, 0);
    NoRegsSafe(e);
    var t;
    if onTrue {
      t := IfTrueOk(p, row, g, e, 0, jin, map[]);
    } else {
      t := IfFalseOk(p, row, g, e, 0, jin, map[]);
    }
    assert t == State(t.pc, t.regs);
  }

  /** Where every AND, OR and NOT whose value is computed meets operands on which its
      opcode is right, that is what the condition means; in particular for a
      condition without fractions on a row without them. */
  lemma ConditionIsMeant(p: Gen, row: Row, e: Expr, onTrue: bool, jin: bool)
    requires Fits(p, Condition(e, onTrue, jin)) && 0 in p.labels && NoRegs(e)
    requires MetJump(e, row, map[]) || (WholeLits(e) && WholeRow(row))
    ensures var v := TruthOf(Eval(e, row, map[]));
      ComesTo(p, row, if Takes(if onTrue then v else Not3(v), jin) then p.labels[0] else |Condition(e, onTrue, jin).code|)
  {
    if WholeLits(e) && WholeRow(row) { WholeIsMet(e, row, map[]); }
    RightExactly(e, row, map[]);
    ConditionJumps(p, row, e, onTrue, jin);
  }

  /** With a fraction, the value of a condition and the jumps for it disagree:
      0.5 AND 1 has the value 0, but the jump for it is taken. */
  lemma FractionsDisagree(row: Row)
    ensures var e := And(Lit(Num(0.5)), Lit(Num(1.0)));
      var p := CodeTarget(Gen([], map[], 0, 1), e, 0).g;
      && Eval(e, row, map[]) == Num(1.0) && JumpTruth(e, row, map[]) == True
      && Get(Run(p, row, State(0, map[]), 3).regs, 0) == Num(0.0) && !Met(e, row, map[])
  {
    var l, r := Lit(Num(0.5)), Lit(Num(1.0));
    var e := And(l, r);
    var g := Gen([], map[], 0, 1);
    var p := CodeTarget(g, e, 0).g;
    assert Eval(l, row, map[]) == Computed(l, row, map[]) == Num(0.5);
    assert Eval(r, row, map[]) == Computed(r, row, map[]) == Num(1.0);
    assert JumpTruth(l, row, map[]) == True && JumpTruth(r, row, map[]) == True;
    assert p.code == [OpConst(Num(0.5), 1), OpConst(Num(1.0), 2), OpAnd(2, 1, 0)];
    var s1 := Step(p, row, State(0, map[]));
    var s2 := Step(p, row, s1);
    var s3 := Step(p, row, s2);
    assert s1 == State(1, map[1 := Num(0.5)]);
    assert s2 == State(2, s1.regs[2 := Num(1.0)]);
    assert Get(s2.regs, 1) == Num(0.5) && Get(s2.regs, 2) == Num(1.0);
    assert Get(s3.regs, 0) == Num(0.0);
    assert Run(p, row, State(0, map[]), 3) == Run(p, row, s1, 2) == Run(p, row, s2, 1) == Run(p, row, s3, 0) == s3;
  }
}
