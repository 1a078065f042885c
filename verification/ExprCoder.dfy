/** The code generator as it runs: it appends instructions to the program,
    gives out registers and labels, and patches jumps (expr.c:2295-2710,
    2880-3162). */
module ExprCoder {
  import opened SqlLogic
  import opened ExprCode

  class Parse {
    var v: Gen

    constructor ()
      ensures v == Gen([], map[], 0, 0)
    {
      v := Gen([], map[], 0, 0);
    }

    method AddOp(i: Instr)
      modifies this
      ensures v == Emit(old(v), i)
    {
      v := v.(code := v.code + [i]);
    }

    method MakeLabel() returns (l: nat)
      modifies this
      ensures v == NewLabel(old(v)) && l == old(v).nLabel
    {
      l := v.nLabel;
      v := v.(nLabel := l + 1);
    }

    method ResolveLabel(l: nat)
      modifies this
      ensures v == Resolve(old(v), l)
    {
      v := v.(labels := v.labels[l := |v.code|]);
    }

    method GetTempReg() returns (r: nat)
      modifies this
      ensures v == NewTemp(old(v)) && r == old(v).nMem
    {
      r := v.nMem;
      v := v.(nMem := r + 1);
    }

    /** sqlite3ExprCodeTemp. */
    method CodeTempReg(e: Expr) returns (r: nat)
      modifies this
      ensures Placed(v, r) == CodeTemp(old(v), e)
      decreases Size(e), 1
    {
      var r1 := GetTempReg();
      r := CodeTargetReg(e, r1);
    }

    /** The two operands of an operator. */
    method Operands(l: Expr, r: Expr) returns (r1: nat, r2: nat)
      modifies this
      ensures var p1 := CodeTemp(old(v), l); var p2 := CodeTemp(p1.g, r); v == p2.g && r1 == p1.r && r2 == p2.r
      decreases Size(l) + Size(r), 2
    {
      r1 := CodeTempReg(l);
      r2 := CodeTempReg(r);
    }

    /** IS NULL and NOT NULL as a value: 1, less 1 unless the jump is taken; the
        jump is patched when its target is reached. */
    method CodeNullTest(l: Expr, isNull: bool, target: nat)
      modifies this
      ensures v == CodeTarget(old(v), if isNull then IsNull(l) else NotNull(l), target).g
      decreases Size(l), 5
    {
      AddOp(OpConst(Num(1.0), target));
      var r1 := CodeTempReg(l);
      var addr := |v.code|;
      ghost var g := v;
      AddOp(if isNull then OpIsNull(r1, At(0)) else OpNotNull(r1, At(0)));
      AddOp(OpAddImm(target, -1.0));
      var here := At(|v.code|);
      v := v.(code := v.code[addr := if isNull then OpIsNull(r1, here) else OpNotNull(r1, here)]);
      assert v.code == g.code + [v.code[addr]] + [OpAddImm(target, -1.0)];
    }

    /** sqlite3ExprCodeTarget. */
    method CodeTargetReg(e: Expr, target: nat) returns (r: nat)
      modifies this
      ensures Placed(v, r) == CodeTarget(old(v), e, target)
      decreases Size(e), 0
    {
      r := target;
      match e
      case Leaf(i) => AddOp(OpLoad(i, target));
      case Lit(x) => AddOp(OpConst(x, target));
      case Reg(k) => r := k;
      case Cmp(op, l, rr) =>
        var r1, r2 := Operands(l, rr);
        AddOp(OpStore(op, r2, target, r1));
      case And(l, rr) =>
        var r1, r2 := Operands(l, rr);
        AddOp(OpAnd(r2, r1, target));
      case Or(l, rr) =>
        var r1, r2 := Operands(l, rr);
        AddOp(OpOr(r2, r1, target));
      case Not(l) =>
        r := CodeTargetReg(l, target);
        AddOp(OpNot(r));
      case IsNull(l) => CodeNullTest(l, true, target);
      case NotNull(l) => CodeNullTest(l, false, target);
      case Between(x, y, z) => CodeBetween(x, y, z, target);
      case Case(w) =>
        var endLabel := MakeLabel();
        CodeArms(w, target, endLabel);
        ResolveLabel(endLabel);
      case CaseOf(x, w) =>
        var endLabel := MakeLabel();
        var k := CodeTempReg(x);
        CodeArmsOf(k, w, target, endLabel);
        ResolveLabel(endLabel);
    }

    method CodeBetween(x: Expr, y: Expr, z: Expr, target: nat)
      modifies this
      ensures v == CodeTarget(old(v), Between(x, y, z), target).g
      decreases Size(x) + Size(y) + Size(z) + 1, 0
    {
      var r1, r2 := Operands(x, y);
      var r3 := GetTempReg();
      var r4 := GetTempReg();
      AddOp(OpStore(Ge, r2, r3, r1));
      r2 := CodeTempReg(z);
      AddOp(OpStore(Le, r2, r4, r1));
      AddOp(OpAnd(r3, r4, target));
    }

    /** sqlite3ExprCode. */
    method CodeIntoReg(e: Expr, target: nat)
      modifies this
      ensures v == CodeInto(old(v), e, target)
      decreases Size(e), 1
    {
      var r := CodeTargetReg(e, target);
      if r != target { AddOp(OpCopy(r, target)); }
    }

    /** The loop over the arms of CASE WHEN, and the ELSE. */
    method CodeArms(w: Whens, target: nat, endLabel: nat)
      modifies this
      ensures v == CodeWhens(old(v), w, target, endLabel)
      decreases WhensSize(w), 0
    {
      var rest := w;
      while rest.When?
        invariant CodeWhens(v, rest, target, endLabel) == CodeWhens(old(v), w, target, endLabel)
        invariant WhensSize(rest) <= WhensSize(w)
        decreases WhensSize(rest)
      {
        var nextCase := MakeLabel();
        JumpIfFalse(rest.test, nextCase, true);
        CodeIntoReg(rest.e, target);
        AddOp(OpGoto(Lab(endLabel)));
        ResolveLabel(nextCase);
        rest := rest.rest;
      }
      if rest.Else? { CodeIntoReg(rest.e, target); } else { AddOp(OpConst(Null, target)); }
    }

    /** The loop over the arms of CASE x WHEN, with x in register k. */
    method CodeArmsOf(k: nat, w: Whens, target: nat, endLabel: nat)
      modifies this
      ensures v == CodeWhensOf(old(v), k, w, target, endLabel)
      decreases WhensSize(w), 0
    {
      var rest := w;
      while rest.When?
        invariant CodeWhensOf(v, k, rest, target, endLabel) == CodeWhensOf(old(v), k, w, target, endLabel)
        invariant WhensSize(rest) <= WhensSize(w)
        decreases WhensSize(rest)
      {
        var nextCase := MakeLabel();
        var test := Cmp(Eq, Reg(k), rest.test);
        assert Size(test) == 1 + Size(Reg(k)) + Size(rest.test) && Size(Reg(k)) == 1;
        JumpIfFalse(test, nextCase, true);
        CodeIntoReg(rest.e, target);
        AddOp(OpGoto(Lab(endLabel)));
        ResolveLabel(nextCase);
        rest := rest.rest;
      }
      if rest.Else? { CodeIntoReg(rest.e, target); } else { AddOp(OpConst(Null, target)); }
    }

    /** sqlite3ExprIfTrue. */
    method JumpIfTrue(e: Expr, dest: nat, jin: bool)
      modifies this
      ensures v == IfTrue(old(v), e, dest, jin)
      decreases Size(e), 2
    {
      match e
      case And(l, r) =>
        var d2 := MakeLabel();
        JumpIfFalse(l, d2, !jin);
        JumpIfTrue(r, dest, jin);
        ResolveLabel(d2);
      case Or(l, r) =>
        JumpIfTrue(l, dest, jin);
        JumpIfTrue(r, dest, jin);
      case Not(l) => JumpIfFalse(l, dest, jin);
      case Cmp(op, l, r) =>
        var r1, r2 := Operands(l, r);
        AddOp(OpJump(op, r2, Lab(dest), r1, jin));
      case IsNull(l) =>
        var r1 := CodeTempReg(l);
        AddOp(OpIsNull(r1, Lab(dest)));
      case NotNull(l) =>
        var r1 := CodeTempReg(l);
        AddOp(OpNotNull(r1, Lab(dest)));
      case Between(x, y, z) =>
        var r1 := CodeTempReg(x);
        JumpIfTrue(Both(r1, y, z), dest, jin);
      case _ =>
        var r1 := CodeTempReg(e);
        AddOp(OpIf(r1, Lab(dest), jin));
    }

    /** sqlite3ExprIfFalse. */
    method JumpIfFalse(e: Expr, dest: nat, jin: bool)
      modifies this
      ensures v == IfFalse(old(v), e, dest, jin)
      decreases Size(e), 2
    {
      match e
      case And(l, r) =>
        JumpIfFalse(l, dest, jin);
        JumpIfFalse(r, dest, jin);
      case Or(l, r) =>
        var d2 := MakeLabel();
        JumpIfTrue(l, d2, !jin);
        JumpIfFalse(r, dest, jin);
        ResolveLabel(d2);
      case Not(l) => JumpIfTrue(l, dest, jin);
      case Cmp(op, l, r) =>
        var r1, r2 := Operands(l, r);
        AddOp(OpJump(Opposite(op), r2, Lab(dest), r1, jin));
      case IsNull(l) =>
        var r1 := CodeTempReg(l);
        AddOp(OpNotNull(r1, Lab(dest)));
      case NotNull(l) =>
        var r1 := CodeTempReg(l);
        AddOp(OpIsNull(r1, Lab(dest)));
      case Between(x, y, z) =>
        var r1 := CodeTempReg(x);
        JumpIfFalse(Both(r1, y, z), dest, jin);
      case _ =>
        var r1 := CodeTempReg(e);
        AddOp(OpIfNot(r1, Lab(dest), jin));
    }
  }
}
