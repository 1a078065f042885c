/** The program that ANALYZE runs over an index: it counts the rows, and for each
    column how often the columns up to there change, and stores estimates made of
    these counts (analyze.c:158-233). */
module AnalyzeCode {

  /** A part of a text that is made. */
  datatype Mark = Number(n: int) | Space

  datatype Value = Null | Int(n: int) | Text(t: seq<Mark>)

  type Row = seq<Value>

  datatype Instr =
    | Integer(n: int, p2: nat)
    | SetNull(p2: nat)
    | Rewind(p2: nat)
    | AddImm(p1: nat, n: int)
    | Column(col: nat, p3: nat)
    | Ne(p1: nat, p2: nat, p3: nat)
    | Goto(p2: nat)
    | Next(p2: nat)
    | IfNot(p1: nat, p2: nat)
    | Blank(p2: nat)
    | SCopy(p1: nat, p2: nat)
    | Concat(p1: nat, p2: nat, p3: nat)
    | Add(p1: nat, p2: nat, p3: nat)
    | Divide(p1: nat, p2: nat, p3: nat)
    | ToInt(p1: nat)
    | Insert(p1: nat)

  // ---------------------------------------------------------------------
  // The machine
  // ---------------------------------------------------------------------

  /** stat is what has been put into sqlite_stat1. */
  datatype State = State(pc: nat, mem: map<nat, Value>, row: nat, stat: seq<Value>)

  function Mem(s: State, r: nat): Value {
    if r in s.mem then s.mem[r] else Null
  }

  function Set(s: State, r: nat, v: Value): State {
    s.(pc := s.pc + 1, mem := s.mem[r := v])
  }

  /** OP_Ne with the flag to jump on NULL. */
  predicate NotEqual(a: Value, b: Value) {
    a.Null? || b.Null? || a != b
  }

  function Chars(v: Value): seq<Mark> {
    match v case Null => [] case Int(n) => [Number(n)] case Text(t) => t
  }

  /** Integer division, which drops the fraction. */
  function Divided(b: int, a: int): int
    requires a != 0
  {
    if b >= 0 then (if a > 0 then b / a else -(b / -a)) else if a > 0 then -((-b) / a) else (-b) / -a
  }

  function Sum(a: Value, b: Value): Value {
    if a.Int? && b.Int? then Int(a.n + b.n) else Null
  }

  function Quotient(b: Value, a: Value): Value {
    if a.Int? && b.Int? && a.n != 0 then Int(Divided(b.n, a.n)) else Null
  }

  function Joined(a: Value, b: Value): Value {
    if a.Null? || b.Null? then Null else Text(Chars(a) + Chars(b))
  }

  function Step(prog: seq<Instr>, rows: seq<Row>, s: State): State {
    if s.pc >= |prog| then s
    else
      match prog[s.pc]
      case Integer(n, p2) => Set(s, p2, Int(n))
      case SetNull(p2) => Set(s, p2, Null)
      case Rewind(p2) => s.(pc := if rows == [] then p2 else s.pc + 1, row := 0)
      case AddImm(p1, n) => Set(s, p1, Sum(Mem(s, p1), Int(n)))
      case Column(col, p3) => Set(s, p3, if s.row < |rows| && col < |rows[s.row]| then rows[s.row][col] else Null)
      case Ne(p1, p2, p3) => s.(pc := if NotEqual(Mem(s, p1), Mem(s, p3)) then p2 else s.pc + 1)
      case Goto(p2) => s.(pc := p2)
      case Next(p2) => if s.row + 1 < |rows| then s.(pc := p2, row := s.row + 1) else s.(pc := s.pc + 1)
      case IfNot(p1, p2) => s.(pc := if Mem(s, p1) == Int(0) then p2 else s.pc + 1)
      case Blank(p2) => Set(s, p2, Text([Space]))
      case SCopy(p1, p2) => Set(s, p2, Mem(s, p1))
      case Concat(p1, p2, p3) => Set(s, p3, Joined(Mem(s, p2), Mem(s, p1)))
      case Add(p1, p2, p3) => Set(s, p3, Sum(Mem(s, p2), Mem(s, p1)))
      case Divide(p1, p2, p3) => Set(s, p3, Quotient(Mem(s, p2), Mem(s, p1)))
      case ToInt(p1) => Set(s, p1, Mem(s, p1))
      case Insert(p1) => s.(pc := s.pc + 1, stat := s.stat + [Mem(s, p1)])
  }

  function Exec(prog: seq<Instr>, rows: seq<Row>, s: State, n: nat): State
    decreases n
  {
    if n == 0 then s else Exec(prog, rows, Step(prog, rows, s), n - 1)
  }

  lemma {:induction false} ExecMore(prog: seq<Instr>, rows: seq<Row>, s: State, n: nat, m: nat)
    ensures Exec(prog, rows, s, n + m) == Exec(prog, rows, Exec(prog, rows, s, n), m)
    decreases n
  {
    if n > 0 { ExecMore(prog, rows, Step(prog, rows, s), n - 1, m); }
  }

  // ---------------------------------------------------------------------
  // The program
  // ---------------------------------------------------------------------

  /** Where things are: the number of columns, the first memory cell, and the address
      of the first instruction. */
  datatype Plan = Plan(nCol: nat, iMem: nat, base: nat)
  {
    function Count(i: nat): nat { iMem + i + 1 }
    function Last(i: nat): nat { iMem + nCol + i + 1 }
    function Col(): nat { iMem + nCol * 2 + 3 }
    function RewindAt(): nat { base + nCol * 2 + 1 }
    function TopOfLoop(): nat { base + nCol * 2 + 2 }
    function Test(i: nat): nat { TopOfLoop() + 1 + i * 2 }
    function Update(i: nat): nat { TopOfLoop() + nCol * 2 + 2 + i * 2 }
    function EndOfLoop(): nat { Update(nCol) }
    function Field(): nat { iMem + nCol * 2 + 2 }
    function Temp(): nat { iMem + nCol * 2 + 3 }
    function StoreAt(): nat { EndOfLoop() + 1 }
    function Guess(i: nat): nat { EndOfLoop() + 3 + i * 7 }
    function Done(): nat { Guess(nCol) + 1 }
  }

  ghost predicate Tests(prog: seq<Instr>, p: Plan, i: nat) {
    && p.Test(i) + 1 < |prog| && prog[p.Test(i)] == Column(i, p.Col())
    && prog[p.Test(i) + 1] == Ne(p.Col(), p.Update(i), p.Last(i))
  }

  ghost predicate Updates(prog: seq<Instr>, p: Plan, i: nat) {
    && p.Update(i) + 1 < |prog| && prog[p.Update(i)] == AddImm(p.Count(i), 1)
    && prog[p.Update(i) + 1] == Column(i, p.Last(i))
  }

  ghost predicate Starts(prog: seq<Instr>, p: Plan) {
    p.RewindAt() <= |prog| && Cleared(prog, p, p.nCol + 1, p.nCol)
  }

  /** The first n counters are set to 0, the first m last values to NULL. */
  ghost predicate Cleared(prog: seq<Instr>, p: Plan, n: nat, m: nat) {
    (forall i: nat | i < n :: ClearsAt(prog, p, i)) && (forall i: nat | i < m :: NullsAt(prog, p, i))
  }

  lemma ClearedKept(a: seq<Instr>, b: seq<Instr>, p: Plan, n: nat, m: nat)
    requires Cleared(a, p, n, m) && n <= p.nCol + 1 && m <= p.nCol && |a| <= |b|
    requires forall k: nat | k < |a| && k < p.RewindAt() :: b[k] == a[k]
    ensures Cleared(b, p, n, m)
  {
    forall i: nat | i < n ensures ClearsAt(b, p, i) { assert ClearsAt(a, p, i); }
    forall i: nat | i < m ensures NullsAt(b, p, i) { assert NullsAt(a, p, i); }
  }

  predicate ClearsAt(prog: seq<Instr>, p: Plan, i: nat) {
    p.base + i < |prog| && prog[p.base + i] == Integer(0, p.iMem + i)
  }

  predicate NullsAt(prog: seq<Instr>, p: Plan, i: nat) {
    p.base + p.nCol + 1 + i < |prog| && prog[p.base + p.nCol + 1 + i] == SetNull(p.Last(i))
  }

  /** The code that appends an estimate to the text. */
  ghost predicate Guesses(prog: seq<Instr>, p: Plan, i: nat) {
    var at, f, t := p.Guess(i), p.Field(), p.Temp();
    && at + 6 < |prog| && prog[at] == Blank(t) && prog[at + 1] == Concat(t, f, f)
    && prog[at + 2] == Add(p.iMem, p.Count(i), t) && prog[at + 3] == AddImm(t, -1)
    && prog[at + 4] == Divide(p.Count(i), t, t) && prog[at + 5] == ToInt(t) && prog[at + 6] == Concat(t, f, f)
  }

  /** The code that stores the result. */
  ghost predicate Stores(prog: seq<Instr>, p: Plan) {
    && p.Done() <= |prog| && prog[p.StoreAt()] == IfNot(p.iMem, p.Done()) && prog[p.StoreAt() + 1] == SCopy(p.iMem, p.Field())
    && (forall i: nat | i < p.nCol :: Guesses(prog, p, i)) && prog[p.Guess(p.nCol)] == Insert(p.Field())
  }

  /** The code that counts. */
  ghost predicate LoopCode(prog: seq<Instr>, p: Plan) {
    && Starts(prog, p) && p.EndOfLoop() < |prog|
    && prog[p.RewindAt()] == Rewind(p.EndOfLoop())
    && prog[p.TopOfLoop()] == AddImm(p.iMem, 1)
    && (forall i: nat | i < p.nCol :: Tests(prog, p, i))
    && prog[p.Test(p.nCol)] == Goto(p.EndOfLoop())
    && (forall i: nat | i < p.nCol :: Updates(prog, p, i))
    && prog[p.EndOfLoop()] == Next(p.TopOfLoop())
  }

  /** The code for one index. */
  ghost predicate Code(prog: seq<Instr>, p: Plan) {
    LoopCode(prog, p) && Stores(prog, p)
  }

  /** More code after it leaves the loop as it is. */
  lemma LoopCodeKept(a: seq<Instr>, b: seq<Instr>, p: Plan)
    requires LoopCode(a, p) && a <= b
    ensures LoopCode(b, p)
  {
    ClearedKept(a, b, p, p.nCol + 1, p.nCol);
    forall j: nat | j < p.nCol ensures Tests(b, p, j) && Updates(b, p, j) { assert Tests(a, p, j) && Updates(a, p, j); }
  }

  /** analyzeOneTable, for one index: jumps forward are patched once their target is
      known. */
  method GenerateCode(prog0: seq<Instr>, nCol: nat, iMem: nat) returns (prog: seq<Instr>)
    ensures Code(prog, Plan(nCol, iMem, |prog0|)) && prog0 <= prog
  {
    var p := Plan(nCol, iMem, |prog0|);
    var loop := GenerateLoop(prog0, nCol, iMem);
    prog := GenerateStore(loop, p);
    LoopCodeKept(loop, prog, p);
  }

  /** The part that stores the result.  The jump over it is patched at the end. */
  method GenerateStore(prog0: seq<Instr>, p: Plan) returns (prog: seq<Instr>)
    requires |prog0| == p.StoreAt()
    ensures prog0 <= prog && Stores(prog, p)
  {
    var addr := |prog0|;
    prog := prog0 + [IfNot(p.iMem, 0), SCopy(p.iMem, p.Field())];
    var i: nat := 0;
    while i < p.nCol
      invariant i <= p.nCol && |prog| == p.Guess(i) && prog0 <= prog[..addr] && prog[addr + 1] == SCopy(p.iMem, p.Field())
      invariant forall j: nat | j < i :: Guesses(prog, p, j)
    {
      ghost var was := prog;
      var f, t, c := p.Field(), p.Temp(), p.Count(i);
      prog := prog + [Blank(t), Concat(t, f, f), Add(p.iMem, c, t), AddImm(t, -1), Divide(c, t, t), ToInt(t), Concat(t, f, f)];
      forall j: nat | j < i ensures Guesses(prog, p, j) { assert Guesses(was, p, j); }
      i := i + 1;
    }
    prog := prog + [Insert(p.Field())];
    ghost var was := prog;
    forall j: nat | j < p.nCol ensures Guesses(was, p, j) { assert Guesses(was[..|was| - 1], p, j); }
    prog := prog[addr := IfNot(p.iMem, |prog|)];
    forall j: nat | j < p.nCol ensures Guesses(prog, p, j) { assert Guesses(was, p, j); }
  }

  method GenerateLoop(prog0: seq<Instr>, nCol: nat, iMem: nat) returns (prog: seq<Instr>)
    ensures var p := Plan(nCol, iMem, |prog0|); LoopCode(prog, p) && prog0 <= prog && |prog| == p.StoreAt()
  {
    var p := Plan(nCol, iMem, |prog0|);
    prog := Initialize(prog0, p);
    ghost var start := prog;
    var rewind := |prog|;
    prog := prog + [Rewind(0)];
    var topOfLoop := |prog|;
    prog := prog + [AddImm(iMem, 1)];
    prog := Compare(prog, p);
    var goto := |prog|;
    ghost var tested := prog;
    prog := prog + [Goto(0)];
    forall j: nat | j < nCol ensures Tested(prog, p, j) { assert Tested(tested, p, j); }
    prog := Patch(prog, p, start, topOfLoop, goto);
    ghost var was := prog;
    prog := prog[rewind := Rewind(|prog|)][goto := Goto(|prog|)] + [Next(topOfLoop)];
    ClearedKept(start, prog, p, nCol + 1, nCol);
    forall j: nat | j < nCol ensures Tests(prog, p, j) && Updates(prog, p, j) { assert Tests(was, p, j) && Updates(was, p, j); }
  }

  method Initialize(prog0: seq<Instr>, p: Plan) returns (prog: seq<Instr>)
    requires p.base == |prog0|
    ensures prog0 <= prog && |prog| == p.RewindAt() && Cleared(prog, p, p.nCol + 1, p.nCol)
  {
    prog := prog0;
    var i: nat := 0;
    while i <= p.nCol
      invariant i <= p.nCol + 1 && prog0 <= prog && |prog| == p.base + i && Cleared(prog, p, i, 0)
    {
      ghost var was := prog;
      prog := prog + [Integer(0, p.iMem + i)];
      ClearedKept(was, prog, p, i, 0);
      i := i + 1;
    }
    i := 0;
    while i < p.nCol
      invariant i <= p.nCol && prog0 <= prog && |prog| == p.base + p.nCol + 1 + i && Cleared(prog, p, p.nCol + 1, i)
    {
      ghost var was := prog;
      prog := prog + [SetNull(p.Last(i))];
      ClearedKept(was, prog, p, p.nCol + 1, i);
      i := i + 1;
    }
  }

  /** The first loop over the columns. */
  method Compare(prog0: seq<Instr>, p: Plan) returns (prog: seq<Instr>)
    requires |prog0| == p.Test(0)
    ensures prog0 <= prog && |prog| == p.Test(p.nCol) && forall j: nat | j < p.nCol :: Tested(prog, p, j)
  {
    prog := prog0;
    var i: nat := 0;
    while i < p.nCol
      invariant i <= p.nCol && prog0 <= prog && |prog| == p.Test(i) && forall j: nat | j < i :: Tested(prog, p, j)
    {
      ghost var was := prog;
      prog := prog + [Column(i, p.Col()), Ne(p.Col(), 0, p.Last(i))];
      forall j: nat | j < i ensures Tested(prog, p, j) { assert Tested(was, p, j); }
      i := i + 1;
    }
  }

  /** The second loop over the columns: it patches the jumps of the first. */
  method Patch(prog0: seq<Instr>, p: Plan, ghost start: seq<Instr>, topOfLoop: nat, goto: nat) returns (prog: seq<Instr>)
    requires |start| == p.RewindAt() && start <= prog0 && topOfLoop == p.TopOfLoop() && goto == p.Test(p.nCol) && |prog0| == goto + 1
    requires forall j: nat | j < p.nCol :: Tested(prog0, p, j)
    requires prog0[topOfLoop] == AddImm(p.iMem, 1)
    ensures start <= prog && |prog| == p.EndOfLoop() && prog[topOfLoop] == AddImm(p.iMem, 1)
    ensures forall j: nat | j < p.nCol :: Tests(prog, p, j) && Updates(prog, p, j)
  {
    prog := prog0;
    var i: nat := 0;
    while i < p.nCol
      invariant i <= p.nCol && start <= prog && |prog| == p.Update(i) && prog[topOfLoop] == AddImm(p.iMem, 1)
      invariant forall j: nat | i <= j < p.nCol :: Tested(prog, p, j)
      invariant forall j: nat | j < i :: Tests(prog, p, j) && Updates(prog, p, j)
    {
      ghost var was := prog;
      assert Tested(prog, p, i);
      prog := prog[topOfLoop + 2 * (i + 1) := Ne(p.Col(), |prog|, p.Last(i))];
      prog := prog + [AddImm(p.Count(i), 1), Column(i, p.Last(i))];
      forall j: nat | i + 1 <= j < p.nCol ensures Tested(prog, p, j) { assert Tested(was, p, j); }
      forall j: nat | j < i ensures Tests(prog, p, j) && Updates(prog, p, j) { assert Tests(was, p, j) && Updates(was, p, j); }
      i := i + 1;
    }
  }

  /** The test of a column, before the jump is patched. */
  predicate Tested(prog: seq<Instr>, p: Plan, i: nat) {
    && p.Test(i) + 1 < |prog| && prog[p.Test(i)] == Column(i, p.Col()) && prog[p.Test(i) + 1] == Ne(p.Col(), 0, p.Last(i))
  }
}
