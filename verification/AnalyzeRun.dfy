/** What the program of ANALYZE leaves in memory, on any rows (analyze.c:143-184), and
    the estimates made of it (analyze.c:186-218). */
module AnalyzeRun {
  import opened AnalyzeCode
  import opened Division

  // ---------------------------------------------------------------------
  // Runs
  // ---------------------------------------------------------------------

  ghost predicate Reaches(prog: seq<Instr>, rows: seq<Row>, s: State, t: State) {
    exists n: nat :: Exec(prog, rows, s, n) == t
  }

  lemma Here(prog: seq<Instr>, rows: seq<Row>, s: State)
    ensures Reaches(prog, rows, s, s)
  {
    assert Exec(prog, rows, s, 0) == s;
  }

  lemma One(prog: seq<Instr>, rows: seq<Row>, s: State)
    ensures Reaches(prog, rows, s, Step(prog, rows, s))
  {
    assert Exec(prog, rows, s, 1) == Exec(prog, rows, Step(prog, rows, s), 0);
  }

  lemma Trans(prog: seq<Instr>, rows: seq<Row>, s: State, t: State, u: State)
    requires Reaches(prog, rows, s, t) && Reaches(prog, rows, t, u)
    ensures Reaches(prog, rows, s, u)
  {
    var n: nat :| Exec(prog, rows, s, n) == t;
    var m: nat :| Exec(prog, rows, t, m) == u;
    ExecMore(prog, rows, s, n, m);
  }

  lemma Two(prog: seq<Instr>, rows: seq<Row>, s: State)
    ensures Reaches(prog, rows, s, Step(prog, rows, Step(prog, rows, s)))
  {
    var t := Step(prog, rows, s);
    One(prog, rows, s);
    One(prog, rows, t);
    Trans(prog, rows, s, t, Step(prog, rows, t));
  }

  // ---------------------------------------------------------------------
  // What is counted
  // ---------------------------------------------------------------------

  /** The first i columns of two rows differ, NULL from everything. */
  predicate Differs(a: Row, b: Row, i: nat)
    requires i <= |a| && i <= |b|
  {
    i > 0 && (Differs(a, b, i - 1) || NotEqual(a[i - 1], b[i - 1]))
  }

  ghost predicate Wide(rows: seq<Row>, nCol: nat) {
    forall r: nat | r < |rows| :: |rows[r]| == nCol
  }

  /** Row r is the first one, or differs in the first i columns from the one before. */
  predicate Changes(rows: seq<Row>, r: nat, i: nat)
    requires r < |rows| && i <= |rows[r]| && (r > 0 ==> i <= |rows[r - 1]|)
  {
    r == 0 || Differs(rows[r - 1], rows[r], i)
  }

  /** How many of the first k rows do. */
  ghost function Groups(rows: seq<Row>, nCol: nat, k: nat, i: nat): nat
    requires k <= |rows| && Wide(rows, nCol) && i <= nCol
  {
    if k == 0 then 0 else Groups(rows, nCol, k - 1, i) + if Changes(rows, k - 1, i) then 1 else 0
  }

  /** The cells of column i after k rows. */
  ghost predicate CellOk(p: Plan, rows: seq<Row>, mem: map<nat, Value>, k: nat, i: nat)
    requires k <= |rows| && Wide(rows, p.nCol) && i < p.nCol
  {
    && p.Count(i) in mem && mem[p.Count(i)] == Int(Groups(rows, p.nCol, k, i + 1))
    && p.Last(i) in mem && mem[p.Last(i)] == if k == 0 then Null else rows[k - 1][i]
  }

  ghost predicate RowsOk(p: Plan, mem: map<nat, Value>, k: nat) {
    p.iMem in mem && mem[p.iMem] == Int(k)
  }

  /** The columns before i are those after k + 1 rows, the others those after k. */
  ghost predicate Partly(p: Plan, rows: seq<Row>, mem: map<nat, Value>, k: nat, i: nat)
    requires k < |rows| && Wide(rows, p.nCol)
  {
    forall j: nat | j < p.nCol :: PartCell(p, rows, mem, k, i, j)
  }

  ghost predicate PartCell(p: Plan, rows: seq<Row>, mem: map<nat, Value>, k: nat, i: nat, j: nat)
    requires k < |rows| && Wide(rows, p.nCol) && j < p.nCol
  {
    CellOk(p, rows, mem, if j < i then k + 1 else k, j)
  }

  lemma AllCounted(p: Plan, rows: seq<Row>, mem: map<nat, Value>, k: nat)
    requires k < |rows| && Wide(rows, p.nCol) && RowsOk(p, mem, k + 1) && Partly(p, rows, mem, k, p.nCol)
    ensures Counted(p, rows, mem, k + 1)
  {
    var n := k + 1;
    forall j: nat | j < p.nCol ensures CellOk(p, rows, mem, n, j) { assert PartCell(p, rows, mem, k, p.nCol, j); }
  }

  ghost predicate Counted(p: Plan, rows: seq<Row>, mem: map<nat, Value>, k: nat)
    requires k <= |rows| && Wide(rows, p.nCol)
  {
    RowsOk(p, mem, k) && forall j: nat | j < p.nCol :: CellOk(p, rows, mem, k, j)
  }

  // ---------------------------------------------------------------------
  // One row
  // ---------------------------------------------------------------------

  /** From the update of column i on: it and all columns after it count. */
  lemma {:induction false} UpdateRun(prog: seq<Instr>, p: Plan, rows: seq<Row>, s: State, k: nat, i: nat) returns (t: State)
    requires LoopCode(prog, p) && k < |rows| && Wide(rows, p.nCol) && i <= p.nCol && (i < p.nCol ==> Changes(rows, k, i + 1))
    requires s.pc == p.Update(i) && s.row == k && RowsOk(p, s.mem, k + 1) && Partly(p, rows, s.mem, k, i)
    ensures Reaches(prog, rows, s, t) && t.stat == s.stat && t.pc == p.EndOfLoop() && t.row == k && Counted(p, rows, t.mem, k + 1)
    decreases p.nCol - i
  {
    if i == p.nCol {
      AllCounted(p, rows, s.mem, k);
      Here(prog, rows, s);
      return s;
    }
    assert Updates(prog, p, i) && PartCell(p, rows, s.mem, k, i, i);
    var u := Step(prog, rows, Step(prog, rows, s));
    Two(prog, rows, s);
    var n := i + 1;
    forall j: nat | j < p.nCol ensures PartCell(p, rows, u.mem, k, n, j) { assert PartCell(p, rows, s.mem, k, i, j); }
    t := UpdateRun(prog, p, rows, u, k, n);
    Trans(prog, rows, s, u, t);
  }

  /** From the test of column i on, where the columns before are as in the row
      before. */
  lemma {:induction false} TestRun(prog: seq<Instr>, p: Plan, rows: seq<Row>, s: State, k: nat, i: nat) returns (t: State)
    requires LoopCode(prog, p) && k < |rows| && Wide(rows, p.nCol) && i <= p.nCol && (if k == 0 then i == 0 else !Differs(rows[k - 1], rows[k], i))
    requires s.pc == p.Test(i) && s.row == k && RowsOk(p, s.mem, k + 1) && Partly(p, rows, s.mem, k, i)
    ensures Reaches(prog, rows, s, t) && t.stat == s.stat && t.pc == p.EndOfLoop() && t.row == k && Counted(p, rows, t.mem, k + 1)
    decreases p.nCol - i
  {
    if i == p.nCol {
      AllCounted(p, rows, s.mem, k);
      One(prog, rows, s);
      return Step(prog, rows, s);
    }
    assert Tests(prog, p, i) && PartCell(p, rows, s.mem, k, i, i);
    var u := Step(prog, rows, Step(prog, rows, s));
    Two(prog, rows, s);
    var differs := NotEqual(rows[k][i], s.mem[p.Last(i)]);
    var n := if differs then i else i + 1;
    forall j: nat | j < p.nCol ensures PartCell(p, rows, u.mem, k, n, j) { assert PartCell(p, rows, s.mem, k, i, j); }
    if differs {
      t := UpdateRun(prog, p, rows, u, k, i);
    } else {
      t := TestRun(prog, p, rows, u, k, n);
    }
    Trans(prog, rows, s, u, t);
  }

  // ---------------------------------------------------------------------
  // All rows
  // ---------------------------------------------------------------------

  /** One round of the loop. */
  lemma RowRun(prog: seq<Instr>, p: Plan, rows: seq<Row>, s: State, k: nat) returns (t: State)
    requires LoopCode(prog, p) && k < |rows| && Wide(rows, p.nCol)
    requires s.pc == p.TopOfLoop() && s.row == k && Counted(p, rows, s.mem, k)
    ensures Reaches(prog, rows, s, t) && t.stat == s.stat && t.pc == p.EndOfLoop() && t.row == k && Counted(p, rows, t.mem, k + 1)
  {
    var u := Step(prog, rows, s);
    One(prog, rows, s);
    forall j: nat | j < p.nCol ensures PartCell(p, rows, u.mem, k, 0, j) { assert CellOk(p, rows, s.mem, k, j); }
    t := TestRun(prog, p, rows, u, k, 0);
    Trans(prog, rows, s, u, t);
  }

  lemma {:induction false} LoopRun(prog: seq<Instr>, p: Plan, rows: seq<Row>, s: State, k: nat) returns (t: State)
    requires LoopCode(prog, p) && k < |rows| && Wide(rows, p.nCol)
    requires s.pc == p.TopOfLoop() && s.row == k && Counted(p, rows, s.mem, k)
    ensures Reaches(prog, rows, s, t) && t.stat == s.stat && t.pc == p.EndOfLoop() + 1 && Counted(p, rows, t.mem, |rows|)
    decreases |rows| - k
  {
    var u := RowRun(prog, p, rows, s, k);
    var v := Step(prog, rows, u);
    One(prog, rows, u);
    Trans(prog, rows, s, u, v);
    if k + 1 == |rows| { return v; }
    t := LoopRun(prog, p, rows, v, k + 1);
    Trans(prog, rows, s, v, t);
  }

  predicate Zero(p: Plan, mem: map<nat, Value>, i: nat) {
    p.iMem + i in mem && mem[p.iMem + i] == Int(0)
  }

  predicate NoLast(p: Plan, mem: map<nat, Value>, i: nat) {
    p.Last(i) in mem && mem[p.Last(i)] == Null
  }

  lemma {:induction false} ZeroRun(prog: seq<Instr>, p: Plan, rows: seq<Row>, s: State, i: nat) returns (t: State)
    requires LoopCode(prog, p) && i <= p.nCol + 1 && s.pc == p.base + i && forall j: nat | j < i :: Zero(p, s.mem, j)
    ensures Reaches(prog, rows, s, t) && t.stat == s.stat && t.pc == p.base + p.nCol + 1 && forall j: nat | j <= p.nCol :: Zero(p, t.mem, j)
    decreases p.nCol + 1 - i
  {
    if i == p.nCol + 1 {
      Here(prog, rows, s);
      return s;
    }
    assert ClearsAt(prog, p, i);
    var u := Step(prog, rows, s);
    One(prog, rows, s);
    var n := i + 1;
    forall j: nat | j < n ensures Zero(p, u.mem, j) { assert j < i ==> Zero(p, s.mem, j); }
    t := ZeroRun(prog, p, rows, u, n);
    Trans(prog, rows, s, u, t);
  }

  lemma {:induction false} NullRun(prog: seq<Instr>, p: Plan, rows: seq<Row>, s: State, i: nat) returns (t: State)
    requires LoopCode(prog, p) && i <= p.nCol && s.pc == p.base + p.nCol + 1 + i
    requires (forall j: nat | j <= p.nCol :: Zero(p, s.mem, j)) && forall j: nat | j < i :: NoLast(p, s.mem, j)
    ensures Reaches(prog, rows, s, t) && t.stat == s.stat && t.pc == p.RewindAt()
    ensures (forall j: nat | j <= p.nCol :: Zero(p, t.mem, j)) && forall j: nat | j < p.nCol :: NoLast(p, t.mem, j)
    decreases p.nCol - i
  {
    if i == p.nCol {
      Here(prog, rows, s);
      return s;
    }
    assert NullsAt(prog, p, i);
    var u := Step(prog, rows, s);
    One(prog, rows, s);
    var n := i + 1;
    forall j: nat | j < n ensures NoLast(p, u.mem, j) { assert j < i ==> NoLast(p, s.mem, j); }
    forall j: nat | j <= p.nCol ensures Zero(p, u.mem, j) { assert Zero(p, s.mem, j); }
    t := NullRun(prog, p, rows, u, n);
    Trans(prog, rows, s, u, t);
  }

  /** The loop, on any rows of the index: it ends with the number of rows in the
      first cell, and in cell i the number of groups of adjacent rows that are the
      same in the first i columns. */
  lemma CountRun(prog: seq<Instr>, p: Plan, rows: seq<Row>, s: State) returns (t: State)
    requires LoopCode(prog, p) && Wide(rows, p.nCol) && s.pc == p.base
    ensures Reaches(prog, rows, s, t) && t.pc == p.StoreAt() && t.stat == s.stat && Counted(p, rows, t.mem, |rows|)
  {
    var z := ZeroRun(prog, p, rows, s, 0);
    var u := NullRun(prog, p, rows, z, 0);
    Trans(prog, rows, s, z, u);
    assert Zero(p, u.mem, 0);
    forall i: nat | i < p.nCol ensures CellOk(p, rows, u.mem, 0, i) {
      var n := i + 1;
      assert Zero(p, u.mem, n) && NoLast(p, u.mem, i);
    }
    var v := Step(prog, rows, u);
    One(prog, rows, u);
    Trans(prog, rows, s, u, v);
    if rows == [] {
      t := Step(prog, rows, v);
      One(prog, rows, v);
    } else {
      t := LoopRun(prog, p, rows, v, 0);
    }
    Trans(prog, rows, s, v, t);
  }

  // ---------------------------------------------------------------------
  // Distinct values
  // ---------------------------------------------------------------------

  predicate Same(a: Row, b: Row, i: nat)
    requires i <= |a| && i <= |b|
  {
    i == 0 || (Same(a, b, i - 1) && a[i - 1] == b[i - 1])
  }

  /** The first i columns of a come before those of b. */
  predicate Less(a: Row, b: Row, i: nat)
    requires i <= |a| && i <= |b|
  {
    i > 0 && (Less(a, b, i - 1) || (Same(a, b, i - 1) && a[i - 1].Int? && b[i - 1].Int? && a[i - 1].n < b[i - 1].n))
  }

  predicate NoNulls(a: Row) {
    forall i | 0 <= i < |a| :: a[i].Int?
  }

  /** The rows of an index without NULLs, as they are on disk. */
  ghost predicate SortedRows(rows: seq<Row>, nCol: nat)
    requires Wide(rows, nCol)
  {
    && (forall r: nat | r < |rows| :: NoNulls(rows[r]))
    && (forall r: nat, q: nat | r < q < |rows| :: Less(rows[r], rows[q], nCol) || Same(rows[r], rows[q], nCol))
  }

  lemma {:induction false} PrefixOrder(a: Row, b: Row, i: nat, n: nat)
    requires i <= n <= |a| && n <= |b| && (Less(a, b, n) || Same(a, b, n))
    ensures Less(a, b, i) || Same(a, b, i)
    decreases n
  {
    if i < n { PrefixOrder(a, b, i, n - 1); }
  }

  lemma {:induction false} SameIsPrefix(a: Row, b: Row, i: nat)
    requires i <= |a| && i <= |b|
    ensures Same(a, b, i) <==> a[..i] == b[..i]
    ensures Less(a, b, i) ==> !Same(a, b, i)
    decreases i
  {
    if i > 0 {
      SameIsPrefix(a, b, i - 1);
      assert a[..i] == a[..i - 1] + [a[i - 1]] && b[..i] == b[..i - 1] + [b[i - 1]];
    }
  }

  lemma {:induction false} DiffersIsNotSame(a: Row, b: Row, i: nat)
    requires i <= |a| && i <= |b| && NoNulls(a) && NoNulls(b)
    ensures Differs(a, b, i) <==> !Same(a, b, i)
    decreases i
  {
    if i > 0 { DiffersIsNotSame(a, b, i - 1); }
  }

  /** Before what comes after a larger one. */
  lemma {:induction false} LessTrans(a: Row, b: Row, c: Row, i: nat)
    requires i <= |a| && i <= |b| && i <= |c|
    requires (Less(a, b, i) || Same(a, b, i)) && Less(b, c, i)
    ensures Less(a, c, i)
    decreases i
  {
    SameTrans(a, b, c, i - 1);
    if Less(b, c, i - 1) {
      PrefixOrder(a, b, i - 1, i);
      LessTrans(a, b, c, i - 1);
    } else if Less(a, b, i - 1) {
      LessSame(a, b, c, i - 1);
    }
  }

  lemma {:induction false} SameTrans(a: Row, b: Row, c: Row, i: nat)
    requires i <= |a| && i <= |b| && i <= |c|
    ensures Same(a, b, i) && Same(b, c, i) ==> Same(a, c, i)
    decreases i
  {
    if i > 0 { SameTrans(a, b, c, i - 1); }
  }

  lemma {:induction false} LessSame(a: Row, b: Row, c: Row, i: nat)
    requires i <= |a| && i <= |b| && i <= |c| && Less(a, b, i) && Same(b, c, i)
    ensures Less(a, c, i)
    decreases i
  {
    SameTrans(a, b, c, i - 1);
    if Less(a, b, i - 1) { LessSame(a, b, c, i - 1); }
  }

  ghost function Prefixes(rows: seq<Row>, nCol: nat, k: nat, i: nat): set<Row>
    requires k <= |rows| && Wide(rows, nCol) && i <= nCol
  {
    set r: nat | r < k :: rows[r][..i]
  }

  /** A row changes just when its first i columns are new. */
  lemma ChangesIsNew(rows: seq<Row>, nCol: nat, r: nat, i: nat)
    requires r < |rows| && Wide(rows, nCol) && i <= nCol && SortedRows(rows, nCol)
    ensures Changes(rows, r, i) <==> rows[r][..i] !in Prefixes(rows, nCol, r, i)
  {
    if r > 0 {
      var q: nat := r - 1;
      DiffersIsNotSame(rows[q], rows[r], i);
      SameIsPrefix(rows[q], rows[r], i);
      if Changes(rows, r, i) {
        forall a: nat | a < r ensures rows[a][..i] != rows[r][..i] { NewPrefix(rows, nCol, a, r, i); }
      }
    }
  }

  /** On a sorted index without NULLs, the groups are the distinct values of the first
      i columns. */
  lemma {:induction false} GroupsAreDistinct(rows: seq<Row>, nCol: nat, k: nat, i: nat)
    requires k <= |rows| && Wide(rows, nCol) && i <= nCol && SortedRows(rows, nCol)
    ensures Groups(rows, nCol, k, i) == |Prefixes(rows, nCol, k, i)|
    decreases k
  {
    if k > 0 {
      var r: nat := k - 1;
      GroupsAreDistinct(rows, nCol, r, i);
      ChangesIsNew(rows, nCol, r, i);
      var before, x := Prefixes(rows, nCol, r, i), rows[r][..i];
      assert Prefixes(rows, nCol, k, i) == before + {x};
      if !Changes(rows, r, i) { assert before + {x} == before; }
    } else {
      assert Prefixes(rows, nCol, k, i) == {};
    }
  }

  lemma NewPrefix(rows: seq<Row>, nCol: nat, a: nat, r: nat, i: nat)
    requires a < r < |rows| && Wide(rows, nCol) && i <= nCol && SortedRows(rows, nCol) && Changes(rows, r, i)
    ensures rows[a][..i] != rows[r][..i]
  {
    var q: nat := r - 1;
    DiffersIsNotSame(rows[q], rows[r], i);
    PrefixOrder(rows[q], rows[r], i, nCol);
    if a < q {
      PrefixOrder(rows[a], rows[q], i, nCol);
      LessTrans(rows[a], rows[q], rows[r], i);
    }
    SameIsPrefix(rows[a], rows[r], i);
  }

  // ---------------------------------------------------------------------
  // Estimates
  // ---------------------------------------------------------------------

  lemma {:induction false} DiffersMore(a: Row, b: Row, i: nat, j: nat)
    requires i <= j <= |a| && j <= |b| && Differs(a, b, i)
    ensures Differs(a, b, j)
  {
    if i < j { DiffersMore(a, b, i, j - 1); }
  }

  /** There is a group when there is a row, no more groups than rows, and more columns
      make no fewer groups. */
  lemma {:induction false} GroupBounds(rows: seq<Row>, nCol: nat, k: nat, i: nat, j: nat)
    requires k <= |rows| && Wide(rows, nCol) && i <= j <= nCol
    ensures Groups(rows, nCol, k, i) <= Groups(rows, nCol, k, j) <= k && (k > 0 ==> 1 <= Groups(rows, nCol, k, i))
    decreases k
  {
    if k > 0 {
      GroupBounds(rows, nCol, k - 1, i, j);
      if k > 1 && Changes(rows, k - 1, i) { DiffersMore(rows[k - 2], rows[k - 1], i, j); }
    }
  }

  /** What is stored for a column. */
  function Estimate(total: nat, groups: nat): nat {
    if groups == 0 then 0 else (total + groups - 1) / groups
  }

  /** The estimate is the size of the groups, rounded up: one at least. */
  lemma EstimateBounds(total: nat, groups: nat)
    requires 0 < groups <= total
    ensures 1 <= Estimate(total, groups) <= total
    ensures (Estimate(total, groups) - 1) * groups < total <= Estimate(total, groups) * groups
  {
    DivIsPieces(total, groups);
    TimesPieces(total, groups);
    var e := Estimate(total, groups);
    TimesIs(e, groups);
    TimesIs(e - 1, groups);
  }

  // ---------------------------------------------------------------------
  // What is stored
  // ---------------------------------------------------------------------

  /** The number of rows, and the estimates for the first i columns. */
  ghost function Stat(rows: seq<Row>, nCol: nat, i: nat): seq<Mark>
    requires Wide(rows, nCol) && i <= nCol
  {
    if i == 0 then [Number(|rows|)]
    else Stat(rows, nCol, i - 1) + [Space, Number(Estimate(|rows|, Groups(rows, nCol, |rows|, i)))]
  }

  lemma Three(prog: seq<Instr>, rows: seq<Row>, s: State)
    ensures Reaches(prog, rows, s, Step(prog, rows, Step(prog, rows, Step(prog, rows, s))))
  {
    Two(prog, rows, s);
    var t := Step(prog, rows, Step(prog, rows, s));
    One(prog, rows, t);
    Trans(prog, rows, s, t, Step(prog, rows, t));
  }

  /** The cells that are counted are as they were. */
  predicate Unchanged(p: Plan, a: map<nat, Value>, b: map<nat, Value>) {
    forall r: nat | r <= p.Last(p.nCol) :: KeptAt(a, b, r)
  }

  predicate KeptAt(a: map<nat, Value>, b: map<nat, Value>, r: nat) {
    (r in a <==> r in b) && (r in a ==> a[r] == b[r])
  }

  /** A blank after the text, and the sum of rows and groups. */
  lemma GuessFirst(prog: seq<Instr>, p: Plan, rows: seq<Row>, s: State, i: nat) returns (t: State)
    requires Guesses(prog, p, i) && i < p.nCol && s.pc == p.Guess(i) && !Mem(s, p.Field()).Null?
    requires Mem(s, p.iMem).Int? && Mem(s, p.Count(i)).Int?
    ensures Reaches(prog, rows, s, t) && t.pc == p.Guess(i) + 3 && t.stat == s.stat && Unchanged(p, s.mem, t.mem)
    ensures Mem(t, p.Field()) == Text(Chars(Mem(s, p.Field())) + [Space])
    ensures Mem(t, p.Temp()) == Int(Mem(s, p.Count(i)).n + Mem(s, p.iMem).n)
  {
    Three(prog, rows, s);
    t := Step(prog, rows, Step(prog, rows, Step(prog, rows, s)));
  }

  /** The rest of the estimate. */
  lemma GuessSecond(prog: seq<Instr>, p: Plan, rows: seq<Row>, s: State, i: nat, total: nat, groups: nat) returns (t: State)
    requires Guesses(prog, p, i) && i < p.nCol && s.pc == p.Guess(i) + 3 && groups > 0
    requires Mem(s, p.Temp()) == Int(groups + total) && Mem(s, p.Count(i)) == Int(groups)
    ensures Reaches(prog, rows, s, t) && t.pc == p.Guess(i) + 6 && t.stat == s.stat && Unchanged(p, s.mem, t.mem)
    ensures Mem(t, p.Field()) == Mem(s, p.Field()) && Mem(t, p.Temp()) == Int(Estimate(total, groups))
  {
    Three(prog, rows, s);
    t := Step(prog, rows, Step(prog, rows, Step(prog, rows, s)));
  }

  /** One column. */
  lemma GuessRun(prog: seq<Instr>, p: Plan, rows: seq<Row>, s: State, i: nat) returns (t: State)
    requires Stores(prog, p) && Wide(rows, p.nCol) && rows != [] && i < p.nCol && Counted(p, rows, s.mem, |rows|)
    requires s.pc == p.Guess(i) && !Mem(s, p.Field()).Null? && Chars(Mem(s, p.Field())) == Stat(rows, p.nCol, i)
    ensures Reaches(prog, rows, s, t) && t.pc == p.Guess(i + 1) && t.stat == s.stat && Counted(p, rows, t.mem, |rows|)
    ensures Mem(t, p.Field()) == Text(Stat(rows, p.nCol, i + 1))
  {
    assert Guesses(prog, p, i) && CellOk(p, rows, s.mem, |rows|, i);
    var n := i + 1;
    var groups := Groups(rows, p.nCol, |rows|, n);
    GroupBounds(rows, p.nCol, |rows|, n, n);
    var a := GuessFirst(prog, p, rows, s, i);
    assert KeptAt(s.mem, a.mem, p.Count(i));
    var b := GuessSecond(prog, p, rows, a, i, |rows|, groups);
    t := Step(prog, rows, b);
    One(prog, rows, b);
    Trans(prog, rows, s, a, b);
    Trans(prog, rows, s, b, t);
    StillCounted(p, rows, s.mem, a.mem);
    StillCounted(p, rows, a.mem, b.mem);
    StillCounted(p, rows, b.mem, t.mem);
    assert Stat(rows, p.nCol, i) + [Space] + [Number(Estimate(|rows|, groups))] == Stat(rows, p.nCol, n);
  }

  lemma StillCounted(p: Plan, rows: seq<Row>, a: map<nat, Value>, b: map<nat, Value>)
    requires Wide(rows, p.nCol) && Counted(p, rows, a, |rows|) && Unchanged(p, a, b)
    ensures Counted(p, rows, b, |rows|)
  {
    assert KeptAt(a, b, p.iMem);
    forall j: nat | j < p.nCol ensures CellOk(p, rows, b, |rows|, j) {
      assert CellOk(p, rows, a, |rows|, j) && KeptAt(a, b, p.Count(j)) && KeptAt(a, b, p.Last(j));
    }
  }

  lemma {:induction false} GuessAll(prog: seq<Instr>, p: Plan, rows: seq<Row>, s: State, i: nat) returns (t: State)
    requires Stores(prog, p) && Wide(rows, p.nCol) && rows != [] && i <= p.nCol && Counted(p, rows, s.mem, |rows|)
    requires s.pc == p.Guess(i) && !Mem(s, p.Field()).Null? && Chars(Mem(s, p.Field())) == Stat(rows, p.nCol, i)
    ensures Reaches(prog, rows, s, t) && t.pc == p.Guess(p.nCol) && t.stat == s.stat
    ensures !Mem(t, p.Field()).Null? && Chars(Mem(t, p.Field())) == Stat(rows, p.nCol, p.nCol)
    decreases p.nCol - i
  {
    if i == p.nCol {
      Here(prog, rows, s);
      return s;
    }
    var u := GuessRun(prog, p, rows, s, i);
    t := GuessAll(prog, p, rows, u, i + 1);
    Trans(prog, rows, s, u, t);
  }

  /** The text starts with the number of rows. */
  lemma StoreFirst(prog: seq<Instr>, p: Plan, rows: seq<Row>, s: State) returns (t: State)
    requires Stores(prog, p) && Wide(rows, p.nCol) && rows != [] && Counted(p, rows, s.mem, |rows|) && s.pc == p.StoreAt()
    ensures Reaches(prog, rows, s, t) && t.pc == p.Guess(0) && t.stat == s.stat && Counted(p, rows, t.mem, |rows|)
    ensures Mem(t, p.Field()) == Int(|rows|)
  {
    Two(prog, rows, s);
    t := Step(prog, rows, Step(prog, rows, s));
    StillCounted(p, rows, s.mem, t.mem);
  }

  lemma StoreRun(prog: seq<Instr>, p: Plan, rows: seq<Row>, s: State) returns (t: State)
    requires Stores(prog, p) && Wide(rows, p.nCol) && Counted(p, rows, s.mem, |rows|) && s.pc == p.StoreAt()
    ensures Reaches(prog, rows, s, t) && t.pc == p.Done()
    ensures if rows == [] then t.stat == s.stat
            else exists v :: t.stat == s.stat + [v] && Chars(v) == Stat(rows, p.nCol, p.nCol)
  {
    if rows == [] {
      One(prog, rows, s);
      t := Step(prog, rows, s);
    } else {
      var v := StoreFirst(prog, p, rows, s);
      var w := GuessAll(prog, p, rows, v, 0);
      Trans(prog, rows, s, v, w);
      t := Step(prog, rows, w);
      One(prog, rows, w);
      Trans(prog, rows, s, w, t);
    }
  }

  /** The whole program, on any rows of the index: for an index without rows nothing
      is stored; else the number of rows, and for each column the estimate made of
      the number of groups. */
  lemma Analyzed(prog: seq<Instr>, p: Plan, rows: seq<Row>, s: State) returns (t: State)
    requires Code(prog, p) && Wide(rows, p.nCol) && s.pc == p.base
    ensures Reaches(prog, rows, s, t) && t.pc == p.Done()
    ensures if rows == [] then t.stat == s.stat
            else exists v :: t.stat == s.stat + [v] && Chars(v) == Stat(rows, p.nCol, p.nCol)
  {
    var u := CountRun(prog, p, rows, s);
    t := StoreRun(prog, p, rows, u);
    Trans(prog, rows, s, u, t);
  }

  /** The i-th estimate in what is stored. */
  lemma {:induction false} StatAt(rows: seq<Row>, nCol: nat, n: nat, i: nat)
    requires Wide(rows, nCol) && i < n <= nCol
    ensures |Stat(rows, nCol, n)| == 2 * n + 1 && Stat(rows, nCol, n)[0] == Number(|rows|)
    ensures Stat(rows, nCol, n)[2 * i + 2] == Number(Estimate(|rows|, Groups(rows, nCol, |rows|, i + 1)))
  {
    if n > 1 { StatAt(rows, nCol, n - 1, if i < n - 1 then i else 0); }
  }

  /** The stored estimates: each is at least 1, and its groups just cover the rows;
      more columns make no larger estimate. */
  lemma StoredBounds(rows: seq<Row>, nCol: nat, i: nat, j: nat)
    requires Wide(rows, nCol) && rows != [] && i <= j < nCol
    ensures var stat, groups := Stat(rows, nCol, nCol), Groups(rows, nCol, |rows|, i + 1);
      && |stat| == 2 * nCol + 1 && stat[2 * i + 2].Number? && stat[2 * j + 2].Number?
      && var e := stat[2 * i + 2].n;
         1 <= stat[2 * j + 2].n <= e <= |rows| && (e - 1) * groups < |rows| <= e * groups
  {
    var n, m := i + 1, j + 1;
    StatAt(rows, nCol, nCol, i);
    StatAt(rows, nCol, nCol, j);
    GroupBounds(rows, nCol, |rows|, n, m);
    EstimateBounds(|rows|, Groups(rows, nCol, |rows|, n));
    EstimateBounds(|rows|, Groups(rows, nCol, |rows|, m));
    EstimateFalls(|rows|, Groups(rows, nCol, |rows|, n), Groups(rows, nCol, |rows|, m));
  }

  lemma EstimateFalls(total: nat, a: nat, b: nat)
    requires 0 < a <= b <= total
    ensures Estimate(total, b) <= Estimate(total, a)
  {
    EstimateBounds(total, a);
    EstimateBounds(total, b);
    var x, y := Estimate(total, a), Estimate(total, b);
    if x < y {
      TimesIs(x, a);
      TimesIs(x, b);
      TimesGrow(x, y - 1, b);
      TimesIs(y - 1, b);
      TimesMore(x, a, b);
    }
  }

  /** More of the same size. */
  lemma {:induction false} TimesMore(x: nat, a: nat, b: nat)
    requires a <= b
    ensures Times(x, a) <= Times(x, b)
  {
    if x > 0 { TimesMore(x - 1, a, b); }
  }
}
