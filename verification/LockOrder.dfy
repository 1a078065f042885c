/** The mutex protocol of shared-cache B-trees (btmutex.c), as steps of many
    connections over one map from BtShared addresses to mutex owners. */
module LockOrder {

  /** Where the thread that runs a connection is.  k, p and q are places in the
      connection's pNext list, i a place in aDb or in a BtreeMutexArray. */
  datatype Pc =
    | Idle                                   // outside every routine
    | Try(k: nat)                            // Enter: sqlite3_mutex_try
    | Release(k: nat, q: nat)                // Enter: unlock everything after k
    | Block(k: nat)                          // Enter: sqlite3_mutex_enter
    | Reacquire(k: nat, q: nat)              // Enter: lock again what is wanted
    | AllOuter(i: nat)                       // EnterAll: loop over aDb
    | AllRelease(i: nat, p: nat, q: nat)     // EnterAll: unlock everything after p
    | AllAcquire(i: nat, p: nat)             // EnterAll: sqlite3_mutex_enter
    | AllLeave(i: nat)                       // LeaveAll: loop over aDb
    | ArrEnter(arr: seq<nat>, i: nat)        // MutexArrayEnter: loop
    | ArrBlock(arr: seq<nat>, i: nat)        // MutexArrayEnter: sqlite3_mutex_enter
    | ArrLeave(arr: seq<nat>, i: nat)        // MutexArrayLeave: loop

  /** One connection: its sharable Btrees in pNext order, each with the address
      of its BtShared, its wantToLock counter and its locked flag; and the order
      in which they stand in aDb. */
  datatype Conn = Conn(addrs: seq<nat>, aDb: seq<nat>, want: seq<nat>, locked: seq<bool>, pc: Pc)

  /** owner says which connection holds the mutex of a BtShared; a mutex that is
      not a key is free. */
  datatype State = State(conns: seq<Conn>, owner: map<nat, nat>)

  // ---------------------------------------------------------------------
  // Steps
  // ---------------------------------------------------------------------

  predicate Fits(c: Conn) {
    && |c.want| == |c.addrs| == |c.locked|
    && (forall i, j | 0 <= i < j < |c.addrs| :: c.addrs[i] < c.addrs[j])
    && (forall i | 0 <= i < |c.aDb| :: c.aDb[i] < |c.addrs|)
    && (forall i, j | 0 <= i < j < |c.aDb| :: c.aDb[i] != c.aDb[j])
    && (forall k | 0 <= k < |c.addrs| :: k in c.aDb)
  }

  predicate Places(arr: seq<nat>, n: nat) {
    && (forall i | 0 <= i < |arr| :: arr[i] < n)
    && (forall i, j | 0 <= i < j < |arr| :: arr[i] < arr[j])
  }

  /** The place a connection's thread is about to lock, when it is at a call of
      sqlite3_mutex_enter. */
  datatype Target = NoTarget | Target(k: nat)

  function TargetOf(c: Conn): Target {
    match c.pc
    case Block(k) => Target(k)
    case Reacquire(k, q) => if q < |c.want| && c.want[q] > 0 then Target(q) else NoTarget
    case AllAcquire(i, p) => if p < |c.want| then Target(p) else NoTarget
    case ArrBlock(arr, i) => if i < |arr| then Target(arr[i]) else NoTarget
    case _ => NoTarget
  }

  /** What a step does to the mutexes. */
  datatype Effect = Stay | Takes(k: nat) | Gives(k: nat)

  datatype Move = Move(conn: Conn, effect: Effect)

  function Lock(c: Conn, k: nat, pc: Pc): Move
    requires k < |c.locked|
  {
    Move(c.(locked := c.locked[k := true], pc := pc), Takes(k))
  }

  function Unlock(c: Conn, k: nat, pc: Pc): Move
    requires k < |c.locked|
  {
    Move(c.(locked := c.locked[k := false], pc := pc), Gives(k))
  }

  function Goto(c: Conn, pc: Pc): Move {
    Move(c.(pc := pc), Stay)
  }

  function Want(c: Conn, k: nat): Conn
    requires k < |c.want|
  {
    c.(want := c.want[k := c.want[k] + 1])
  }

  /** Give up one claim on Btree k; the last claim gives up the mutex. */
  function LeaveOne(c: Conn, k: nat, pc: Pc): Move
    requires k < |c.locked| == |c.want| && c.want[k] > 0
  {
    var d := c.(want := c.want[k := c.want[k] - 1]);
    if d.want[k] == 0 then Unlock(d, k, pc) else Goto(d, pc)
  }

  /** The first Btree of the list that is not locked, if there is one after p. */
  function FirstUnlocked(locked: seq<bool>, p: nat): (r: nat)
    requires p < |locked|
    ensures p <= r < |locked| && (forall j | p <= j < r :: locked[j])
    ensures !locked[r] || r == |locked| - 1
    decreases |locked| - p
  {
    if locked[p] && p + 1 < |locked| then FirstUnlocked(locked, p + 1) else p
  }

  /** The calls a connection can make when it is idle. */
  datatype Call =
    | Enter(k: nat) | Leave(k: nat) | EnterAll | LeaveAll
    | ArrayEnter(arr: seq<nat>) | ArrayLeave(arr: seq<nat>)

  /** What each routine asserts of its caller. */
  predicate MayCall(c: Conn, call: Call)
    requires Fits(c)
  {
    match call
    case Enter(k) => k < |c.addrs|
    case Leave(k) => k < |c.addrs| && c.want[k] > 0
    case EnterAll => true
    case LeaveAll => forall k | 0 <= k < |c.addrs| :: c.want[k] > 0
    case ArrayEnter(arr) => Places(arr, |c.addrs|)
    case ArrayLeave(arr) => Places(arr, |c.addrs|) && forall i | 0 <= i < |arr| :: c.want[arr[i]] > 0
  }

  /** What each routine needs of its caller: MutexArrayEnter also relies on
      being called before any mutex that comes after one of its own. */
  predicate CanCall(c: Conn, call: Call)
    requires Fits(c)
  {
    MayCall(c, call) && (call.ArrayEnter? ==> InOrder(c, call.arr))
  }

  /** No mutex already held comes after one the array still has to lock. */
  predicate InOrder(c: Conn, arr: seq<nat>)
    requires Fits(c) && Places(arr, |c.addrs|)
  {
    forall i, j | 0 <= i < |arr| && arr[i] < j < |c.addrs| :: c.locked[j] ==> c.locked[arr[i]]
  }

  function BeginConn(c: Conn, call: Call): Move
    requires Fits(c) && MayCall(c, call)
  {
    match call
    case Enter(k) => Goto(Want(c, k), if c.locked[k] then Idle else Try(k))
    case Leave(k) => LeaveOne(c, k, Idle)
    case EnterAll => Goto(c, AllOuter(0))
    case LeaveAll => Goto(c, AllLeave(0))
    case ArrayEnter(arr) => Goto(c, ArrEnter(arr, 0))
    case ArrayLeave(arr) => Goto(c, ArrLeave(arr, 0))
  }

  /** The places and counters that the next step uses exist. */
  predicate PcSafe(c: Conn)
    requires Fits(c)
  {
    match c.pc
    case Try(k) => k < |c.addrs|
    case Block(k) => k < |c.addrs|
    case AllLeave(i) => i < |c.aDb| ==> c.want[c.aDb[i]] > 0
    case ArrEnter(arr, i) => Places(arr, |c.addrs|)
    case ArrBlock(arr, i) => Places(arr, |c.addrs|) && i < |arr|
    case ArrLeave(arr, i) => Places(arr, |c.addrs|) && (i < |arr| ==> c.want[arr[i]] > 0)
    case _ => true
  }

  /** One step of a connection inside a routine.  gotIt is the outcome of
      sqlite3_mutex_try; sqlite3_mutex_enter always succeeds in the end. */
  function StepConn(c: Conn, gotIt: bool): Move
    requires Fits(c) && PcSafe(c)
  {
    var n := |c.addrs|;
    match c.pc
    case Idle => Goto(c, Idle)
    case Try(k) => if gotIt then Lock(c, k, Idle) else Goto(c, Release(k, k + 1))
    case Release(k, q) =>
      if q >= n then Goto(c, Block(k))
      else if c.locked[q] then Unlock(c, q, Release(k, q + 1))
      else Goto(c, Release(k, q + 1))
    case Block(k) => Lock(c, k, Reacquire(k, k + 1))
    case Reacquire(k, q) =>
      if q >= n then Goto(c, Idle)
      else if c.want[q] > 0 then Lock(c, q, Reacquire(k, q + 1))
      else Goto(c, Reacquire(k, q + 1))
    case AllOuter(i) =>
      if i >= |c.aDb| then Goto(c, Idle)
      else if c.locked[c.aDb[i]] then Goto(Want(c, c.aDb[i]), AllOuter(i + 1))
      else
        var p := FirstUnlocked(c.locked, 0);
        Goto(Want(c, c.aDb[i]), AllRelease(i, p, p + 1))
    case AllRelease(i, p, q) =>
      if q >= n then Goto(c, AllAcquire(i, p))
      else if c.locked[q] then Unlock(c, q, AllRelease(i, p, q + 1))
      else Goto(c, AllRelease(i, p, q + 1))
    case AllAcquire(i, p) =>
      if p >= n then Goto(c, AllOuter(i + 1)) else Lock(c, p, AllAcquire(i, p + 1))
    case AllLeave(i) =>
      if i >= |c.aDb| then Goto(c, Idle) else LeaveOne(c, c.aDb[i], AllLeave(i + 1))
    case ArrEnter(arr, i) =>
      if i >= |arr| then Goto(c, Idle)
      else Goto(Want(c, arr[i]), if c.locked[arr[i]] then ArrEnter(arr, i + 1) else ArrBlock(arr, i))
    case ArrBlock(arr, i) => Lock(c, arr[i], ArrEnter(arr, i + 1))
    case ArrLeave(arr, i) =>
      if i >= |arr| then Goto(c, Idle) else LeaveOne(c, arr[i], ArrLeave(arr, i + 1))
  }

  /** Carry a move of connection x over to the whole state. */
  function Apply(s: State, x: nat, m: Move): State
    requires x < |s.conns|
  {
    State(s.conns[x := m.conn],
      match m.effect
      case Stay => s.owner
      case Takes(k) => if k < |m.conn.addrs| then s.owner[m.conn.addrs[k] := x] else s.owner
      case Gives(k) => if k < |m.conn.addrs| then s.owner - {m.conn.addrs[k]} else s.owner)
  }

  /** May the connection's thread go on?  Only sqlite3_mutex_enter on a mutex
      somebody holds has to wait. */
  predicate Enabled(s: State, x: nat)
    requires x < |s.conns|
  {
    s.conns[x].pc != Idle && !Waiting(s, x)
  }

  predicate Waiting(s: State, x: nat)
    requires x < |s.conns|
  {
    match TargetOf(s.conns[x])
    case NoTarget => false
    case Target(k) => k < |s.conns[x].addrs| && s.conns[x].addrs[k] in s.owner
  }

  /** Is the mutex that sqlite3_mutex_try asks for free? */
  predicate TryWorks(s: State, x: nat)
    requires x < |s.conns|
  {
    var c := s.conns[x];
    c.pc.Try? && c.pc.k < |c.addrs| && c.addrs[c.pc.k] !in s.owner
  }

  /** The steps of the whole system: an idle connection makes a call, or one
      inside a routine goes on. */
  ghost predicate Next(s: State, t: State) {
    exists x: nat | x < |s.conns| && Fits(s.conns[x]) && PcSafe(s.conns[x]) :: Calls(s, t, x, true) || Goes(s, t, x)
  }

  /** Connection x, idle, calls a routine; inOrder says whether it respects the
      order that MutexArrayEnter relies on. */
  ghost predicate Calls(s: State, t: State, x: nat, inOrder: bool)
    requires x < |s.conns| && Fits(s.conns[x])
  {
    var c := s.conns[x];
    c.pc == Idle && exists call: Call | MayCall(c, call) && (inOrder ==> CanCall(c, call)) :: t == Apply(s, x, BeginConn(c, call))
  }

  /** Connection x goes on inside a routine. */
  ghost predicate Goes(s: State, t: State, x: nat)
    requires x < |s.conns| && Fits(s.conns[x]) && PcSafe(s.conns[x])
  {
    Enabled(s, x) && t == Apply(s, x, StepConn(s.conns[x], TryWorks(s, x)))
  }

  // ---------------------------------------------------------------------
  // What every step keeps
  // ---------------------------------------------------------------------

  /** Btree k is locked exactly when it is wanted. */
  ghost predicate Settled(c: Conn, k: nat)
    requires Fits(c) && k < |c.addrs|
  {
    c.locked[k] <==> c.want[k] > 0
  }

  /** What holds of a connection at each place in the routines. */
  ghost predicate PcFits(c: Conn)
    requires Fits(c)
  {
    var n := |c.addrs|;
    match c.pc
    case Idle => forall j: nat | j < n :: Settled(c, j)
    case Try(k) => k < n && !c.locked[k] && c.want[k] == 1 && forall j: nat | j < n && j != k :: Settled(c, j)
    case Release(k, q) =>
      && k < q <= n && c.want[k] == 1 && (forall j: nat | k <= j < q :: !c.locked[j])
      && (forall j: nat | j < k || q <= j < n :: Settled(c, j))
    case Block(k) =>
      && k < n && c.want[k] == 1 && (forall j: nat | k <= j < n :: !c.locked[j])
      && (forall j: nat | j < k :: Settled(c, j))
    case Reacquire(k, q) =>
      && k < q <= n && (forall j: nat | q <= j < n :: !c.locked[j]) && (forall j: nat | j < q :: Settled(c, j))
    case AllOuter(i) => Claimed(c, i) && Held(c)
    case AllRelease(i, p, q) =>
      && i < |c.aDb| && p < q <= n && Claimed(c, i + 1)
      && (forall j: nat | j < p :: c.locked[j]) && (forall j: nat | p <= j < q :: !c.locked[j])
    case AllAcquire(i, p) =>
      && i < |c.aDb| && p <= n && Claimed(c, i + 1)
      && (forall j: nat | j < p :: c.locked[j]) && (forall j: nat | p <= j < n :: !c.locked[j])
    case AllLeave(i) =>
      && i <= |c.aDb| && (forall j: nat | j < n :: Settled(c, j))
      && (forall m: nat | i <= m < |c.aDb| :: c.want[c.aDb[m]] > 0)
    case ArrEnter(arr, i) => i <= |arr| && Places(arr, n) && InOrderFrom(c, arr, i) && forall j: nat | j < n :: Settled(c, j)
    case ArrBlock(arr, i) =>
      && i < |arr| && Places(arr, n) && InOrderFrom(c, arr, i)
      && !c.locked[arr[i]] && c.want[arr[i]] == 1 && forall j: nat | j < n && j != arr[i] :: Settled(c, j)
    case ArrLeave(arr, i) =>
      && i <= |arr| && Places(arr, n) && (forall j: nat | j < n :: Settled(c, j))
      && (forall m: nat | i <= m < |arr| :: c.want[arr[m]] > 0)
  }

  /** EnterAll has claimed the first i Btrees of aDb. */
  ghost predicate Claimed(c: Conn, i: nat)
    requires Fits(c)
  {
    i <= |c.aDb| && forall m: nat | m < i :: c.want[c.aDb[m]] > 0
  }

  /** EnterAll either holds everything already or holds just what is wanted. */
  ghost predicate Held(c: Conn)
    requires Fits(c)
  {
    || (forall j: nat | j < |c.addrs| :: c.locked[j])
    || (forall j: nat | j < |c.addrs| :: Settled(c, j))
  }

  ghost predicate InOrderFrom(c: Conn, arr: seq<nat>, i: nat)
    requires Fits(c) && Places(arr, |c.addrs|)
  {
    forall m, j | i <= m < |arr| && arr[m] < j < |c.addrs| :: c.locked[j] ==> c.locked[arr[m]]
  }

  /** The locked flags and the mutexes' owners agree. */
  ghost predicate OwnerFits(s: State, x: nat)
    requires x < |s.conns| && Fits(s.conns[x])
  {
    var c := s.conns[x];
    && (forall k: nat | k < |c.addrs| :: c.locked[k] <==> c.addrs[k] in s.owner && s.owner[c.addrs[k]] == x)
    && (forall a | a in s.owner && s.owner[a] == x :: a in c.addrs)
  }

  ghost predicate Inv(s: State) {
    && (forall x: nat | x < |s.conns| :: Fits(s.conns[x]) && PcFits(s.conns[x]))
    && (forall x: nat | x < |s.conns| :: OwnerFits(s, x))
    && (forall a | a in s.owner :: s.owner[a] < |s.conns|)
  }

  /** All connections idle and nothing held. */
  ghost predicate Initial(s: State) {
    && s.owner == map[]
    && forall x: nat | x < |s.conns| :: Fits(s.conns[x]) && s.conns[x].pc == Idle
         && forall k: nat | k < |s.conns[x].addrs| :: s.conns[x].want[k] == 0 && !s.conns[x].locked[k]
  }

  lemma InitialInv(s: State)
    requires Initial(s)
    ensures Inv(s)
  {
  }


  // ---------------------------------------------------------------------
  // One connection
  // ---------------------------------------------------------------------

  /** The move changes the locked flags just as its effect says. */
  ghost predicate MoveFits(c: Conn, m: Move) {
    && Fits(c) && Fits(m.conn) && PcFits(m.conn) && m.conn.addrs == c.addrs && m.conn.aDb == c.aDb
    && match m.effect
      case Stay => m.conn.locked == c.locked
      case Takes(k) => k < |c.addrs| && !c.locked[k] && m.conn.locked == c.locked[k := true]
      case Gives(k) => k < |c.addrs| && c.locked[k] && m.conn.locked == c.locked[k := false]
  }

  ghost predicate AllSettled(c: Conn)
    requires Fits(c)
  {
    forall j: nat | j < |c.addrs| :: Settled(c, j)
  }

  lemma SettledKept(c: Conn, d: Conn)
    requires Fits(c) && Fits(d) && d.addrs == c.addrs && d.want == c.want && d.locked == c.locked && AllSettled(c)
    ensures AllSettled(d)
  {
    forall j: nat | j < |d.addrs| ensures Settled(d, j) { assert Settled(c, j); }
  }

  /** One more claim on a Btree that is locked keeps every Btree settled. */
  lemma WantFits(c: Conn, k: nat)
    requires Fits(c) && AllSettled(c) && k < |c.addrs|
    ensures Fits(Want(c, k)) && (forall j: nat | j < |c.addrs| && j != k :: Settled(Want(c, k), j))
    ensures c.locked[k] ==> AllSettled(Want(c, k))
    ensures !c.locked[k] ==> Want(c, k).want[k] == 1
  {
    var d := Want(c, k);
    assert Settled(c, k);
    forall j: nat | j < |c.addrs| && j != k ensures Settled(d, j) { assert Settled(c, j); }
  }

  lemma CallFits(c: Conn, call: Call)
    requires Fits(c) && PcFits(c) && c.pc == Idle && CanCall(c, call)
    ensures MoveFits(c, BeginConn(c, call))
  {
    var m := BeginConn(c, call);
    match call
    case Enter(k) =>
      WantFits(c, k);
      forall j: nat | j < |c.addrs| && (j != k || c.locked[k]) ensures Settled(m.conn, j) { assert Settled(Want(c, k), j); }
    case Leave(k) => LeaveFits(c, k, Idle);
    case EnterAll => SettledKept(c, m.conn);
    case LeaveAll => SettledKept(c, m.conn);
    case ArrayEnter(arr) => SettledKept(c, m.conn);
    case ArrayLeave(arr) => SettledKept(c, m.conn);
  }

  /** Giving up one claim keeps every Btree settled. */
  lemma LeaveFits(c: Conn, k: nat, pc: Pc)
    requires Fits(c) && k < |c.addrs| && c.want[k] > 0 && AllSettled(c)
    ensures var d := LeaveOne(c, k, pc).conn; Fits(d) && AllSettled(d)
    ensures c.locked[k]
  {
    assert Settled(c, k);
    var d := LeaveOne(c, k, pc).conn;
    forall j: nat | j < |c.addrs| ensures Settled(d, j) { assert Settled(c, j); }
  }

  lemma TryFits(c: Conn, gotIt: bool)
    requires Fits(c) && PcFits(c) && c.pc.Try?
    ensures MoveFits(c, StepConn(c, gotIt))
  {
    var d := StepConn(c, gotIt).conn;
    forall j: nat | j < |c.addrs| && (j != c.pc.k || gotIt) ensures Settled(d, j) { assert j != c.pc.k ==> Settled(c, j); }
  }

  lemma ReleaseFits(c: Conn, gotIt: bool)
    requires Fits(c) && PcFits(c) && c.pc.Release?
    ensures MoveFits(c, StepConn(c, gotIt))
  {
    var d := StepConn(c, gotIt).conn;
    var k, q := c.pc.k, c.pc.q;
    forall j: nat | j < |c.addrs| && (j < k || q + 1 <= j) ensures Settled(d, j) { assert Settled(c, j); }
  }

  lemma BlockFits(c: Conn, gotIt: bool)
    requires Fits(c) && PcFits(c) && c.pc.Block?
    ensures MoveFits(c, StepConn(c, gotIt))
  {
    var d := StepConn(c, gotIt).conn;
    forall j: nat | j < c.pc.k + 1 ensures Settled(d, j) { assert j < c.pc.k ==> Settled(c, j); }
  }

  lemma ReacquireFits(c: Conn, gotIt: bool)
    requires Fits(c) && PcFits(c) && c.pc.Reacquire?
    ensures MoveFits(c, StepConn(c, gotIt))
  {
    var d := StepConn(c, gotIt).conn;
    var q := c.pc.q;
    forall j: nat | j < |c.addrs| && j < q + 1 ensures Settled(d, j) { assert j < q ==> Settled(c, j); }
  }

  lemma AllReleaseFits(c: Conn, gotIt: bool)
    requires Fits(c) && PcFits(c) && c.pc.AllRelease?
    ensures MoveFits(c, StepConn(c, gotIt))
  {
  }

  lemma AllAcquireFits(c: Conn, gotIt: bool)
    requires Fits(c) && PcFits(c) && c.pc.AllAcquire?
    ensures MoveFits(c, StepConn(c, gotIt))
  {
  }

  lemma AllOuterDone(c: Conn, i: nat)
    requires Fits(c) && PcFits(c) && c.pc == AllOuter(i) && i >= |c.aDb|
    ensures MoveFits(c, StepConn(c, true))
  {
    var d := StepConn(c, true).conn;
    forall j: nat | j < |c.addrs| ensures Settled(d, j) {
      assert j in c.aDb;
      var m :| 0 <= m < |c.aDb| && c.aDb[m] == j;
      assert c.want[c.aDb[m]] > 0;
      if AllSettled(c) { assert Settled(c, j); }
    }
  }

  lemma ClaimMore(c: Conn, d: Conn, i: nat)
    requires Fits(c) && Fits(d) && Claimed(c, i) && i < |c.aDb|
    requires d.aDb == c.aDb && d.want == c.want[c.aDb[i] := c.want[c.aDb[i]] + 1]
    ensures Claimed(d, i + 1)
  {
    forall m: nat | m < i + 1 ensures d.want[d.aDb[m]] > 0 { assert m < i ==> c.want[c.aDb[m]] > 0; }
  }

  lemma AllOuterFits(c: Conn, i: nat)
    requires Fits(c) && PcFits(c) && c.pc == AllOuter(i)
    ensures MoveFits(c, StepConn(c, true))
  {
    if i >= |c.aDb| {
      AllOuterDone(c, i);
    } else {
      var d, k := StepConn(c, true).conn, c.aDb[i];
      ClaimMore(c, d, i);
      if c.locked[k] && AllSettled(c) {
        WantFits(c, k);
        SettledKept(Want(c, k), d);
      }
    }
  }

  lemma AllLeaveFits(c: Conn, gotIt: bool)
    requires Fits(c) && PcFits(c) && c.pc.AllLeave?
    ensures MoveFits(c, StepConn(c, gotIt))
  {
    var d, i := StepConn(c, gotIt).conn, c.pc.i;
    if i < |c.aDb| {
      LeaveFits(c, c.aDb[i], AllLeave(i + 1));
      forall m: nat | i + 1 <= m < |c.aDb| ensures d.want[d.aDb[m]] > 0 { assert c.aDb[m] != c.aDb[i]; }
    } else {
      SettledKept(c, d);
    }
  }

  lemma ArrLeaveFits(c: Conn, gotIt: bool)
    requires Fits(c) && PcFits(c) && c.pc.ArrLeave?
    ensures MoveFits(c, StepConn(c, gotIt))
  {
    var d, arr, i := StepConn(c, gotIt).conn, c.pc.arr, c.pc.i;
    if i < |arr| {
      LeaveFits(c, arr[i], ArrLeave(arr, i + 1));
      forall m: nat | i + 1 <= m < |arr| ensures d.want[arr[m]] > 0 { assert arr[m] != arr[i]; }
    } else {
      SettledKept(c, d);
    }
  }

  lemma ArrayStepFits(c: Conn, gotIt: bool)
    requires Fits(c) && PcFits(c) && (c.pc.ArrEnter? || c.pc.ArrBlock?)
    ensures MoveFits(c, StepConn(c, gotIt))
  {
    var d := StepConn(c, gotIt).conn;
    match c.pc
    case ArrEnter(arr, i) =>
      if i < |arr| {
        WantFits(c, arr[i]);
        forall j: nat | j < |c.addrs| && (j != arr[i] || c.locked[arr[i]]) ensures Settled(d, j) { assert Settled(Want(c, arr[i]), j); }
      } else {
        SettledKept(c, d);
      }
    case ArrBlock(arr, i) =>
      forall j: nat | j < |c.addrs| ensures Settled(d, j) { assert j != arr[i] ==> Settled(c, j); }
  }

  lemma StepFits(c: Conn, gotIt: bool)
    requires Fits(c) && PcFits(c) && c.pc != Idle
    ensures MoveFits(c, StepConn(c, gotIt))
  {
    match c.pc
    case Try(_) => TryFits(c, gotIt);
    case Release(_, _) => ReleaseFits(c, gotIt);
    case Block(_) => BlockFits(c, gotIt);
    case Reacquire(_, _) => ReacquireFits(c, gotIt);
    case AllOuter(i) => AllOuterFits(c, i);
    case AllRelease(_, _, _) => AllReleaseFits(c, gotIt);
    case AllAcquire(_, _) => AllAcquireFits(c, gotIt);
    case AllLeave(_) => AllLeaveFits(c, gotIt);
    case ArrEnter(_, _) => ArrayStepFits(c, gotIt);
    case ArrBlock(_, _) => ArrayStepFits(c, gotIt);
    case ArrLeave(_, _) => ArrLeaveFits(c, gotIt);
  }

  // ---------------------------------------------------------------------
  // All connections
  // ---------------------------------------------------------------------

  /** A move whose mutex is there for the taking keeps the invariant. */
  lemma ApplyInv(s: State, x: nat, m: Move)
    requires Inv(s) && x < |s.conns| && MoveFits(s.conns[x], m)
    requires m.effect.Takes? ==> m.conn.addrs[m.effect.k] !in s.owner
    ensures Inv(Apply(s, x, m))
  {
    var t := Apply(s, x, m);
    assert OwnerFits(s, x);
    forall y: nat | y < |t.conns| ensures Fits(t.conns[y]) && PcFits(t.conns[y]) && OwnerFits(t, y) {
      assert OwnerFits(s, y) && Fits(s.conns[y]) && PcFits(s.conns[y]);
      var c := t.conns[y];
      forall k: nat | k < |c.addrs| ensures c.locked[k] <==> c.addrs[k] in t.owner && t.owner[c.addrs[k]] == y {
        if y == x && m.effect != Stay && k != m.effect.k { assert c.addrs[k] != c.addrs[m.effect.k]; }
      }
    }
  }

  lemma TakesTarget(c: Conn, gotIt: bool)
    requires Fits(c) && PcFits(c) && StepConn(c, gotIt).effect.Takes?
    ensures var k := StepConn(c, gotIt).effect.k; if c.pc.Try? then gotIt && c.pc.k == k else TargetOf(c) == Target(k)
  {
  }

  /** Every step of every connection keeps the invariant. */
  lemma NextInv(s: State, t: State)
    requires Inv(s) && Next(s, t)
    ensures Inv(t) && |t.conns| == |s.conns|
  {
    var x: nat :| x < |s.conns| && Fits(s.conns[x]) && PcSafe(s.conns[x]) && (Calls(s, t, x, true) || Goes(s, t, x));
    if Calls(s, t, x, true) { CallInv(s, t, x); } else { GoInv(s, t, x); }
  }

  lemma CallInv(s: State, t: State, x: nat)
    requires Inv(s) && x < |s.conns| && Fits(s.conns[x]) && PcSafe(s.conns[x]) && Calls(s, t, x, true)
    ensures Inv(t) && |t.conns| == |s.conns|
  {
    var c := s.conns[x];
    var call: Call :| MayCall(c, call) && CanCall(c, call) && t == Apply(s, x, BeginConn(c, call));
    CallFits(c, call);
    ApplyInv(s, x, BeginConn(c, call));
  }

  lemma GoInv(s: State, t: State, x: nat)
    requires Inv(s) && x < |s.conns| && Fits(s.conns[x]) && PcSafe(s.conns[x]) && Goes(s, t, x)
    ensures Inv(t) && |t.conns| == |s.conns|
  {
    var c := s.conns[x];
    var m := StepConn(c, TryWorks(s, x));
    StepFits(c, TryWorks(s, x));
    if m.effect.Takes? { TakesTarget(c, TryWorks(s, x)); }
    ApplyInv(s, x, m);
  }

  // ---------------------------------------------------------------------
  // Deadlock freedom
  // ---------------------------------------------------------------------

  /** A run of the system from all connections idle. */
  ghost predicate Run(r: seq<State>) {
    r != [] && Initial(r[0]) && forall i: nat | i + 1 < |r| :: Next(r[i], r[i + 1])
  }

  lemma {:induction false} RunInv(r: seq<State>)
    requires Run(r)
    ensures Inv(r[|r| - 1])
  {
    if |r| == 1 {
      InitialInv(r[0]);
    } else {
      var p := r[..|r| - 1];
      assert forall i: nat | i + 1 < |p| :: Next(p[i], p[i + 1]) by {
        forall i: nat | i + 1 < |p| ensures Next(p[i], p[i + 1]) { assert Next(r[i], r[i + 1]); }
      }
      RunInv(p);
      assert Next(r[|r| - 2], r[|r| - 2 + 1]);
      NextInv(r[|r| - 2], r[|r| - 1]);
    }
  }

  /** Whenever a connection is about to lock a mutex, every mutex it holds
      belongs to a BtShared with a smaller address. */
  lemma HeldBelowTarget(c: Conn)
    requires Fits(c) && PcFits(c) && TargetOf(c).Target?
    ensures var k := TargetOf(c).k;
      && k < |c.addrs| && !c.locked[k]
      && forall j: nat | j < |c.addrs| && c.locked[j] :: c.addrs[j] < c.addrs[k]
  {
    var k := TargetOf(c).k;
    forall j: nat | j < |c.addrs| && c.locked[j] ensures j < k {
    }
  }

  /** The address a waiting connection waits for. */
  function WaitsFor(s: State, x: nat): nat
    requires x < |s.conns| && Waiting(s, x)
  {
    s.conns[x].addrs[TargetOf(s.conns[x]).k]
  }

  /** A chain of connections, each waiting for a mutex the next one holds. */
  ghost predicate WaitChain(s: State, p: seq<nat>) {
    && p != [] && (forall i | 0 <= i < |p| :: p[i] < |s.conns|)
    && (forall i: nat | i + 1 < |p| :: Waiting(s, p[i]) && s.owner[WaitsFor(s, p[i])] == p[i + 1])
  }

  lemma WaitStep(s: State, x: nat, y: nat)
    requires Inv(s) && x < |s.conns| && Waiting(s, x) && s.owner[WaitsFor(s, x)] == y
    ensures y < |s.conns| && y != x
    ensures Waiting(s, y) ==> WaitsFor(s, x) < WaitsFor(s, y)
    ensures s.conns[y].pc == Idle ==> exists k: nat | k < |s.conns[y].addrs| :: s.conns[y].locked[k]
  {
    var a := WaitsFor(s, x);
    assert OwnerFits(s, y) && OwnerFits(s, x);
    HeldBelowTarget(s.conns[x]);
    var k :| 0 <= k < |s.conns[y].addrs| && s.conns[y].addrs[k] == a;
    assert s.conns[y].locked[k];
    if Waiting(s, y) { HeldBelowTarget(s.conns[y]); }
  }

  /** Addresses grow along a chain of waiting connections, so it never closes. */
  lemma {:induction false} NoWaitCycle(s: State, p: seq<nat>)
    requires Inv(s) && WaitChain(s, p) && |p| >= 2
    ensures p[0] != p[|p| - 1]
    ensures Waiting(s, p[|p| - 1]) ==> WaitsFor(s, p[0]) < WaitsFor(s, p[|p| - 1])
  {
    var n := |p| - 1;
    WaitStep(s, p[n - 1], p[n]);
    if n > 1 {
      var q := p[..n];
      assert WaitChain(s, q) by {
        forall i: nat | i + 1 < |q| ensures Waiting(s, q[i]) && s.owner[WaitsFor(s, q[i])] == q[i + 1] {
          assert Waiting(s, p[i]) && s.owner[WaitsFor(s, p[i])] == p[i + 1];
        }
      }
      assert Waiting(s, p[n - 1]) && Waiting(s, p[0]);
      NoWaitCycle(s, q);
    }
  }

  /** An idle connection that holds a mutex; it can always call Leave. */
  ghost predicate RestingHolder(s: State, x: nat) {
    x < |s.conns| && s.conns[x].pc == Idle && exists k: nat | k < |s.conns[x].addrs| && k < |s.conns[x].locked| :: s.conns[x].locked[k]
  }

  ghost predicate CanMove(s: State, x: nat) {
    x < |s.conns| && (Enabled(s, x) || RestingHolder(s, x))
  }

  /** Follow the owners from a connection inside a routine: the walk ends at one
      that can go on, or at an idle one that holds a mutex. */
  lemma {:induction false} FollowOwners(s: State, x: nat, bound: nat) returns (y: nat)
    requires Inv(s) && x < |s.conns| && s.conns[x].pc != Idle
    requires forall z: nat | z < |s.conns| && Waiting(s, z) :: WaitsFor(s, z) < bound
    ensures CanMove(s, y)
    decreases if Waiting(s, x) then bound - WaitsFor(s, x) else 0
  {
    y := x;
    if Waiting(s, x) {
      y := s.owner[WaitsFor(s, x)];
      WaitStep(s, x, y);
      if s.conns[y].pc != Idle && Waiting(s, y) { y := FollowOwners(s, y, bound); }
    }
  }

  /** An address above every one that is waited for. */
  function Above(s: State, n: nat): (b: nat)
    requires n <= |s.conns|
    ensures forall z: nat | z < n && Waiting(s, z) :: WaitsFor(s, z) < b
  {
    if n == 0 then 0
    else
      var b := Above(s, n - 1);
      if Waiting(s, n - 1) && WaitsFor(s, n - 1) >= b then WaitsFor(s, n - 1) + 1 else b
  }

  /** Somebody can move. */
  ghost predicate Live(s: State) {
    exists y: nat :: CanMove(s, y)
  }

  /** In every reachable state with a connection inside a routine some
      connection can move: a step inside a routine, or a call of Leave by an idle
      connection that holds a mutex. */
  lemma SomeoneCanMove(r: seq<State>, x: nat)
    requires Run(r) && var s := r[|r| - 1]; x < |s.conns| && s.conns[x].pc != Idle
    ensures Live(r[|r| - 1])
  {
    var s := r[|r| - 1];
    RunInv(r);
    var y := FollowOwners(s, x, Above(s, |s.conns|));
  }

  /** At rest a connection holds exactly the mutexes of the Btrees it wants, and
      no mutex has two holders. */
  lemma AtRest(r: seq<State>, x: nat, k: nat)
    requires Run(r) && var s := r[|r| - 1]; x < |s.conns| && s.conns[x].pc == Idle && k < |s.conns[x].addrs|
    ensures var s := r[|r| - 1]; var c := s.conns[x];
      && k < |c.want| && k < |c.locked| && (c.locked[k] <==> c.want[k] > 0)
      && (c.locked[k] <==> c.addrs[k] in s.owner && s.owner[c.addrs[k]] == x)
  {
    RunInv(r);
    var s := r[|r| - 1];
    assert Settled(s.conns[x], k) && OwnerFits(s, x);
  }

  // ---------------------------------------------------------------------
  // The counters behave as those of a recursive mutex
  // ---------------------------------------------------------------------

  function One(b: bool): int {
    if b then 1 else 0
  }

  /** What wantToLock of Btree k will be when the routine that runs returns. */
  function Owed(c: Conn, k: nat): int
    requires Fits(c) && k < |c.addrs|
  {
    c.want[k] + match c.pc
                case AllOuter(i) => One(i <= |c.aDb| && k in c.aDb[i..])
                case AllRelease(i, _, _) => One(i < |c.aDb| && k in c.aDb[i + 1..])
                case AllAcquire(i, _) => One(i < |c.aDb| && k in c.aDb[i + 1..])
                case AllLeave(i) => -One(i <= |c.aDb| && k in c.aDb[i..])
                case ArrEnter(arr, i) => One(i <= |arr| && k in arr[i..])
                case ArrBlock(arr, i) => One(i < |arr| && k in arr[i + 1..])
                case ArrLeave(arr, i) => -One(i <= |arr| && k in arr[i..])
                case _ => 0
  }

  /** What a call promises to add to wantToLock of Btree k. */
  function Claims(call: Call, k: nat): int {
    match call
    case Enter(j) => One(j == k)
    case Leave(j) => -One(j == k)
    case EnterAll => 1
    case LeaveAll => -1
    case ArrayEnter(arr) => One(k in arr)
    case ArrayLeave(arr) => -One(k in arr)
  }

  lemma Behead(a: seq<nat>, i: nat, k: nat)
    requires i < |a| && forall m, j | 0 <= m < j < |a| :: a[m] != a[j]
    ensures k in a[i..] <==> k == a[i] || k in a[i + 1..]
    ensures a[i] !in a[i + 1..]
  {
    assert a[i..] == [a[i]] + a[i + 1..];
  }

  lemma CallOwes(c: Conn, call: Call, k: nat)
    requires Fits(c) && PcFits(c) && c.pc == Idle && CanCall(c, call) && k < |c.addrs|
    ensures Fits(BeginConn(c, call).conn)
    ensures Owed(BeginConn(c, call).conn, k) == c.want[k] + Claims(call, k)
  {
    CallFits(c, call);
    match call
    case EnterAll => assert c.aDb[0..] == c.aDb;
    case LeaveAll => assert c.aDb[0..] == c.aDb;
    case ArrayEnter(arr) => assert arr[0..] == arr;
    case ArrayLeave(arr) => assert arr[0..] == arr;
    case _ =>
  }

  lemma OuterOwes(c: Conn, i: nat, k: nat)
    requires Fits(c) && k < |c.addrs| && c.pc == AllOuter(i) && Fits(StepConn(c, true).conn)
    ensures Owed(StepConn(c, true).conn, k) == Owed(c, k)
  {
    if i < |c.aDb| {
      Behead(c.aDb, i, k);
      var d := StepConn(c, true).conn;
      assert d.want == Want(c, c.aDb[i]).want && d.aDb == c.aDb;
      assert d.want[k] == c.want[k] + One(k == c.aDb[i]);
    }
  }

  lemma AllLeaveOwes(c: Conn, i: nat, k: nat)
    requires Fits(c) && k < |c.addrs| && c.pc == AllLeave(i) && PcSafe(c) && Fits(StepConn(c, true).conn)
    ensures Owed(StepConn(c, true).conn, k) == Owed(c, k)
  {
    if i < |c.aDb| {
      Behead(c.aDb, i, k);
      var d := StepConn(c, true).conn;
      assert d.want[k] == c.want[k] - One(k == c.aDb[i]) && d.aDb == c.aDb;
    }
  }

  lemma ArrEnterOwes(c: Conn, arr: seq<nat>, i: nat, k: nat)
    requires Fits(c) && k < |c.addrs| && c.pc == ArrEnter(arr, i) && PcSafe(c) && Fits(StepConn(c, true).conn)
    ensures Owed(StepConn(c, true).conn, k) == Owed(c, k)
  {
    if i < |arr| {
      Behead(arr, i, k);
      var d := StepConn(c, true).conn;
      assert d.want[k] == c.want[k] + One(k == arr[i]);
    }
  }

  lemma ArrLeaveOwes(c: Conn, arr: seq<nat>, i: nat, k: nat)
    requires Fits(c) && k < |c.addrs| && c.pc == ArrLeave(arr, i) && PcSafe(c) && Fits(StepConn(c, true).conn)
    ensures Owed(StepConn(c, true).conn, k) == Owed(c, k)
  {
    if i < |arr| {
      Behead(arr, i, k);
      var d := StepConn(c, true).conn;
      assert d.want[k] == c.want[k] - One(k == arr[i]);
    }
  }

  /** Enter itself claims all it will claim at once. */
  lemma EnterOwes(c: Conn, gotIt: bool, k: nat)
    requires Fits(c) && k < |c.addrs| && (c.pc.Try? || c.pc.Release? || c.pc.Block? || c.pc.Reacquire?) && PcSafe(c)
    requires Fits(StepConn(c, gotIt).conn)
    ensures Owed(StepConn(c, gotIt).conn, k) == Owed(c, k)
  {
  }

  lemma LockOwes(c: Conn, gotIt: bool, k: nat)
    requires Fits(c) && k < |c.addrs| && (c.pc.ArrBlock? || c.pc.AllRelease? || c.pc.AllAcquire?) && PcSafe(c)
    requires Fits(StepConn(c, gotIt).conn)
    ensures Owed(StepConn(c, gotIt).conn, k) == Owed(c, k)
  {
  }

  lemma StepOwes(c: Conn, gotIt: bool, k: nat)
    requires Fits(c) && PcSafe(c) && c.pc != Idle && k < |c.addrs|
    requires Fits(StepConn(c, gotIt).conn)
    ensures Owed(StepConn(c, gotIt).conn, k) == Owed(c, k)
  {
    match c.pc
    case ArrEnter(arr, i) => ArrEnterOwes(c, arr, i, k);
    case ArrLeave(arr, i) => ArrLeaveOwes(c, arr, i, k);
    case AllOuter(i) => OuterOwes(c, i, k);
    case AllLeave(i) => AllLeaveOwes(c, i, k);
    case ArrBlock(_, _) => LockOwes(c, gotIt, k);
    case AllRelease(_, _, _) => LockOwes(c, gotIt, k);
    case AllAcquire(_, _) => LockOwes(c, gotIt, k);
    case _ => EnterOwes(c, gotIt, k);
  }

  lemma NextOwes(s: State, t: State, x: nat, k: nat)
    requires Inv(s) && Next(s, t) && x < |s.conns| && s.conns[x].pc != Idle && k < |s.conns[x].addrs|
    ensures Inv(t) && x < |t.conns| && t.conns[x].addrs == s.conns[x].addrs
    ensures Owed(t.conns[x], k) == Owed(s.conns[x], k)
  {
    NextInv(s, t);
    var y: nat :| y < |s.conns| && Fits(s.conns[y]) && PcSafe(s.conns[y]) && (Calls(s, t, y, true) || Goes(s, t, y));
    if y == x {
      StepFits(s.conns[x], TryWorks(s, x));
      StepOwes(s.conns[x], TryWorks(s, x), k);
    }
  }

  /** While a routine of connection x runs, whatever the others do, what x is
      owed stays the same. */
  lemma {:induction false} RunOwes(r: seq<State>, x: nat, k: nat)
    requires r != [] && Inv(r[0]) && x < |r[0].conns| && k < |r[0].conns[x].addrs|
    requires forall i: nat | i + 1 < |r| :: Next(r[i], r[i + 1])
    requires forall i: nat | i + 1 < |r| && x < |r[i].conns| :: r[i].conns[x].pc != Idle
    ensures var t := r[|r| - 1]; Inv(t) && x < |t.conns| && k < |t.conns[x].addrs| && Owed(t.conns[x], k) == Owed(r[0].conns[x], k)
  {
    if |r| > 1 {
      assert Next(r[0], r[0 + 1]);
      NextOwes(r[0], r[1], x, k);
      var p := r[1..];
      forall i: nat | i + 1 < |p| ensures Next(p[i], p[i + 1]) { assert Next(r[i + 1], r[i + 1 + 1]); }
      forall i: nat | i + 1 < |p| && x < |p[i].conns| ensures p[i].conns[x].pc != Idle { assert p[i] == r[i + 1]; }
      RunOwes(p, x, k);
    }
  }

  /** From a call to its return, over any interleaving, wantToLock changes by
      what the call claims, and the Btree is locked exactly when the counter is
      positive: Enter and Leave nest like those of a recursive mutex. */
  lemma CallReturns(s: State, x: nat, call: Call, r: seq<State>, k: nat)
    requires Inv(s) && x < |s.conns| && s.conns[x].pc == Idle && k < |s.conns[x].addrs|
    requires CanCall(s.conns[x], call)
    requires r != [] && r[0] == Apply(s, x, BeginConn(s.conns[x], call))
    requires forall i: nat | i + 1 < |r| :: Next(r[i], r[i + 1])
    requires forall i: nat | i + 1 < |r| && x < |r[i].conns| :: r[i].conns[x].pc != Idle
    requires var t := r[|r| - 1]; x < |t.conns| && t.conns[x].pc == Idle
    ensures var c := r[|r| - 1].conns[x];
      && k < |c.want| && k < |c.locked| && c.want[k] == s.conns[x].want[k] + Claims(call, k)
      && (c.locked[k] <==> c.want[k] > 0)
  {
    var c := s.conns[x];
    CallFits(c, call);
    CallOwes(c, call, k);
    ApplyInv(s, x, BeginConn(c, call)) by { assert !BeginConn(c, call).effect.Takes?; }
    RunOwes(r, x, k);
    assert Settled(r[|r| - 1].conns[x], k);
  }

  // ---------------------------------------------------------------------
  // MutexArrayEnter out of order
  // ---------------------------------------------------------------------

  /** The connection as MutexArrayEnter reaches place i of its array. */
  function ArrayAt(c: Conn, arr: seq<nat>, i: nat): (d: Conn)
    requires Fits(c) && Places(arr, |c.addrs|) && i <= |arr|
    ensures Fits(d) && d.addrs == c.addrs && d.pc == ArrEnter(arr, i)
    ensures forall j: nat | j < |c.addrs| :: d.locked[j] <==> c.locked[j] || j in arr[..i]
  {
    if i == 0 then c.(pc := ArrEnter(arr, 0))
    else
      assert arr[..i] == arr[..i - 1] + [arr[i - 1]];
      var b := StepConn(ArrayAt(c, arr, i - 1), true).conn;
      if b.pc.ArrBlock? then StepConn(b, true).conn else b
  }

  /** About to wait while holding a mutex with a larger address. */
  ghost predicate BackwardWait(c: Conn)
    requires Fits(c)
  {
    TargetOf(c).Target? && exists j: nat | j < |c.addrs| && TargetOf(c).k < j :: c.locked[j]
  }

  ghost predicate BackwardAt(c: Conn, arr: seq<nat>, i: nat)
    requires Fits(c) && Places(arr, |c.addrs|)
  {
    i < |arr| && BackwardWait(StepConn(ArrayAt(c, arr, i), true).conn)
  }

  /** The array locks only downwards of places it has yet to reach, so what was
      held when it was called decides. */
  lemma BackwardIs(c: Conn, arr: seq<nat>, i: nat)
    requires Fits(c) && Places(arr, |c.addrs|) && i < |arr|
    ensures BackwardAt(c, arr, i) <==> !c.locked[arr[i]] && exists j: nat | j < |c.addrs| && arr[i] < j :: c.locked[j]
  {
    var a := ArrayAt(c, arr, i);
    var d := StepConn(a, true).conn;
    assert arr[i] !in arr[..i];
    assert d.locked == a.locked && (d.pc.ArrBlock? <==> !c.locked[arr[i]]);
    forall j: nat | j < |c.addrs| && arr[i] < j ensures d.locked[j] == c.locked[j] {
      assert j !in arr[..i];
    }
    if !c.locked[arr[i]] { assert TargetOf(d) == Target(arr[i]); }
  }

  ghost predicate NeverBackward(c: Conn, arr: seq<nat>)
    requires Fits(c) && Places(arr, |c.addrs|)
  {
    forall i: nat | i < |arr| :: !BackwardAt(c, arr, i)
  }

  /** MutexArrayEnter locks in ascending order exactly when its caller holds no
      mutex that comes after one still to be locked. */
  lemma ArrayEnterInOrderExactly(c: Conn, arr: seq<nat>)
    requires Fits(c) && Places(arr, |c.addrs|)
    ensures InOrder(c, arr) <==> NeverBackward(c, arr)
  {
    forall i: nat | i < |arr|
      ensures BackwardAt(c, arr, i) <==> !c.locked[arr[i]] && exists j: nat | j < |c.addrs| && arr[i] < j :: c.locked[j]
    {
      BackwardIs(c, arr, i);
    }
  }

  /** Two Btrees, at addresses 10 and 20, and where the connection is. */
  function Pair(want: seq<nat>, locked: seq<bool>, pc: Pc): Conn {
    Conn([10, 20], [0, 1], want, locked, pc)
  }

  function Two(a: Conn, b: Conn, owner: map<nat, nat>): State {
    State([a, b], owner)
  }

  /** The states of a run in which every call meets what the routines assert,
      but one calls MutexArrayEnter while it holds a later mutex. */
  function Jam(i: nat): State {
    var rest, has1, has0 := Pair([0, 0], [false, false], Idle), Pair([0, 1], [false, true], Idle), Pair([1, 0], [true, false], Idle);
    var on0 := Pair([1, 1], [false, true], ArrBlock([0], 0));
    var o1, o2 := map[20 := 0], map[20 := 0, 10 := 1];
    if i == 0 then Two(rest, rest, map[])
    else if i == 1 then Two(Pair([0, 1], [false, false], Try(1)), rest, map[])
    else if i == 2 then Two(has1, rest, o1)
    else if i == 3 then Two(has1, Pair([1, 0], [false, false], Try(0)), o1)
    else if i == 4 then Two(has1, has0, o2)
    else if i == 5 then Two(Pair([0, 1], [false, true], ArrEnter([0], 0)), has0, o2)
    else if i == 6 then Two(on0, has0, o2)
    else if i == 7 then Two(on0, Pair([1, 1], [true, false], Try(1)), o2)
    else if i == 8 then Two(on0, Pair([1, 1], [true, false], Release(1, 2)), o2)
    else Two(on0, Pair([1, 1], [true, false], Block(1)), o2)
  }

  function Mover(i: nat): nat {
    if i == 2 || i == 3 || i >= 6 then 1 else 0
  }

  ghost predicate Steps(s: State, t: State, x: nat, inOrder: bool) {
    x < |s.conns| && Fits(s.conns[x]) && PcSafe(s.conns[x]) && (Calls(s, t, x, inOrder) || Goes(s, t, x))
  }

  lemma Called(s: State, t: State, x: nat, call: Call)
    requires x < |s.conns| && Fits(s.conns[x]) && s.conns[x].pc == Idle && MayCall(s.conns[x], call)
    requires t.owner == Apply(s, x, BeginConn(s.conns[x], call)).owner
    requires |t.conns| == |s.conns| && t.conns[x] == BeginConn(s.conns[x], call).conn
    requires forall y: nat | y < |s.conns| && y != x :: t.conns[y] == s.conns[y]
    ensures Steps(s, t, x, false)
  {
    assert t.conns == Apply(s, x, BeginConn(s.conns[x], call)).conns;
  }

  lemma Gone(s: State, t: State, x: nat)
    requires x < |s.conns| && Fits(s.conns[x]) && PcSafe(s.conns[x]) && Enabled(s, x)
    requires t.owner == Apply(s, x, StepConn(s.conns[x], TryWorks(s, x))).owner
    requires |t.conns| == |s.conns| && t.conns[x] == StepConn(s.conns[x], TryWorks(s, x)).conn
    requires forall y: nat | y < |s.conns| && y != x :: t.conns[y] == s.conns[y]
    ensures Steps(s, t, x, false)
  {
    assert t.conns == Apply(s, x, StepConn(s.conns[x], TryWorks(s, x))).conns;
    assert Goes(s, t, x);
  }

  lemma JamEnters(i: nat)
    requires i == 0 || i == 6
    ensures Steps(Jam(i), Jam(i + 1), Mover(i), false)
  {
    Called(Jam(i), Jam(i + 1), Mover(i), Enter(1));
  }

  lemma JamEntersMore(i: nat)
    requires i == 2 || i == 4
    ensures Steps(Jam(i), Jam(i + 1), Mover(i), false)
  {
    Called(Jam(i), Jam(i + 1), Mover(i), if i == 2 then Enter(0) else ArrayEnter([0]));
  }

  lemma JamStepsFirst()
    ensures Steps(Jam(1), Jam(2), Mover(1), false)
  {
    Gone(Jam(1), Jam(2), Mover(1));
  }

  lemma JamStepsSecond()
    ensures Steps(Jam(3), Jam(4), Mover(3), false)
  {
    Gone(Jam(3), Jam(4), Mover(3));
  }

  lemma JamStepsArray()
    ensures Steps(Jam(5), Jam(6), Mover(5), false)
  {
    Gone(Jam(5), Jam(6), Mover(5));
  }

  lemma JamStepsOn(i: nat)
    requires i == 7 || i == 8
    ensures Steps(Jam(i), Jam(i + 1), Mover(i), false)
  {
    Gone(Jam(i), Jam(i + 1), Mover(i));
  }

  lemma JamStuck()
    ensures Initial(Jam(0)) && Waiting(Jam(9), 0) && Waiting(Jam(9), 1) && !Live(Jam(9))
  {
  }

  /** Called out of order, MutexArrayEnter can deadlock: a run in which both
      connections end up waiting, each for a mutex the other holds. */
  lemma OutOfOrderDeadlocks()
    ensures Initial(Jam(0)) && (forall i: nat | i < 9 :: Steps(Jam(i), Jam(i + 1), Mover(i), false))
    ensures |Jam(9).conns| == 2 && Waiting(Jam(9), 0) && Waiting(Jam(9), 1) && !Live(Jam(9))
  {
    JamStuck();
    forall i: nat | i < 9 ensures Steps(Jam(i), Jam(i + 1), Mover(i), false) {
      if i == 0 || i == 6 {
        JamEnters(i);
      } else if i == 2 || i == 4 {
        JamEntersMore(i);
      } else if i == 5 {
        JamStepsArray();
      } else if i == 1 {
        JamStepsFirst();
      } else if i == 3 {
        JamStepsSecond();
      } else {
        JamStepsOn(i);
      }
    }
  }
}

/** The array of Btrees whose mutexes one statement needs (btmutex.c:239-268). */
module MutexArrays {

  /** A Btree: its identity, the address of its BtShared, and whether it can be
      shared with another connection. */
  datatype Btree = Btree(id: nat, pBt: nat, sharable: bool)

  predicate Ascending(s: seq<Btree>) {
    forall i, j | 0 <= i < j < |s| :: s[i].pBt <= s[j].pBt
  }

  predicate StrictlyAscending(s: seq<Btree>) {
    forall i, j | 0 <= i < j < |s| :: s[i].pBt < s[j].pBt
  }

  /** Every Btree of s is sharable; the array never holds another. */
  predicate AllSharable(s: seq<Btree>) {
    forall i | 0 <= i < |s| :: s[i].sharable
  }

  /** Where a Btree at address a goes: after every one at the same address. */
  function Place(s: seq<Btree>, a: nat): (i: nat)
    ensures i <= |s| && (forall j | 0 <= j < i :: s[j].pBt <= a) && (i < |s| ==> s[i].pBt > a)
  {
    if s == [] || s[0].pBt > a then 0 else 1 + Place(s[1..], a)
  }

  /** The array with one more Btree in its place. */
  function Inserted(s: seq<Btree>, b: Btree): (r: seq<Btree>)
    ensures b.sharable ==> |r| == |s| + 1
  {
    if b.sharable then PutAt(s, Place(s, b.pBt), b) else s
  }

  /** The sequence with b put in at place p. */
  function PutAt(s: seq<Btree>, p: nat, b: Btree): (r: seq<Btree>)
    requires p <= |s|
    ensures |r| == |s| + 1 && r[p] == b && (forall i | 0 <= i < p :: r[i] == s[i]) && (forall i | p < i < |r| :: r[i] == s[i - 1])
  {
    s[..p] + [b] + s[p..]
  }

  /** Inserting keeps the array ascending and adds exactly the Btree. */
  lemma InsertedOrder(s: seq<Btree>, b: Btree)
    requires Ascending(s) && AllSharable(s)
    ensures Ascending(Inserted(s, b)) && AllSharable(Inserted(s, b))
    ensures multiset(Inserted(s, b)) == if b.sharable then multiset(s) + multiset{b} else multiset(s)
  {
    if b.sharable {
      var p := Place(s, b.pBt);
      assert s == s[..p] + s[p..];
      PutAtOrder(s, p, b);
    }
  }

  lemma PutAtOrder(s: seq<Btree>, p: nat, b: Btree)
    requires Ascending(s) && AllSharable(s) && b.sharable
    requires p <= |s| && (p > 0 ==> s[p - 1].pBt <= b.pBt) && (p < |s| ==> s[p].pBt > b.pBt)
    ensures Ascending(PutAt(s, p, b)) && AllSharable(PutAt(s, p, b))
  {
    var r := PutAt(s, p, b);
    forall i, j | 0 <= i < j < |r| ensures r[i].pBt <= r[j].pBt {
      PutAtPair(s, p, b, i, j);
    }
  }

  lemma InsertedIs(s: seq<Btree>, p: nat, b: Btree, r: seq<Btree>)
    requires Ascending(s) && AllSharable(s) && b.sharable
    requires p <= |s| && |r| == |s| + 1 && r[..p] == s[..p] && r[p] == b && r[p + 1..] == s[p..]
    requires (forall m | 0 <= m < p :: s[m].pBt <= b.pBt) && (p < |s| ==> s[p].pBt > b.pBt)
    ensures r == Inserted(s, b) && Ascending(r) && AllSharable(r)
  {
    assert r == r[..p] + [r[p]] + r[p + 1..];
    PlaceIs(s, b.pBt, p);
    PutAtOrder(s, p, b);
  }

  lemma PutAtPair(s: seq<Btree>, p: nat, b: Btree, i: nat, j: nat)
    requires Ascending(s) && i < j <= |s|
    requires p <= |s| && (p > 0 ==> s[p - 1].pBt <= b.pBt) && (p < |s| ==> s[p].pBt > b.pBt)
    ensures PutAt(s, p, b)[i].pBt <= PutAt(s, p, b)[j].pBt
  {
  }

  /** The array stays strictly ascending, as MutexArrayEnter demands, exactly
      when the BtShared is new. */
  lemma StrictWhenNew(s: seq<Btree>, b: Btree)
    requires StrictlyAscending(s) && b.sharable
    ensures StrictlyAscending(Inserted(s, b)) <==> forall i | 0 <= i < |s| :: s[i].pBt != b.pBt
  {
    var p := Place(s, b.pBt);
    assert Inserted(s, b) == PutAt(s, p, b);
    StrictAt(s, p, b);
  }

  lemma StrictAt(s: seq<Btree>, p: nat, b: Btree)
    requires StrictlyAscending(s)
    requires p <= |s| && (forall j | 0 <= j < p :: s[j].pBt <= b.pBt) && (p < |s| ==> s[p].pBt > b.pBt)
    ensures StrictlyAscending(PutAt(s, p, b)) <==> forall i | 0 <= i < |s| :: s[i].pBt != b.pBt
  {
    var r := PutAt(s, p, b);
    if i :| 0 <= i < |s| && s[i].pBt == b.pBt {
      assert r[i].pBt == r[p].pBt && i < p;
    } else {
      forall i, j | 0 <= i < j < |r| ensures r[i].pBt < r[j].pBt {
        if i == p { assert s[p].pBt <= s[j - 1].pBt; }
      }
    }
  }

  class BtreeMutexArray {
    var nMutex: nat
    var aBtree: array<Btree>

    ghost predicate Valid()
      reads this, aBtree
    {
      nMutex < aBtree.Length && Ascending(aBtree[..nMutex]) && AllSharable(aBtree[..nMutex])
    }

    ghost function Contents(): seq<Btree>
      reads this, aBtree
      requires Valid()
    {
      aBtree[..nMutex]
    }

    constructor (capacity: nat, filler: Btree)
      requires capacity > 0
      ensures Valid() && Contents() == [] && aBtree.Length == capacity && fresh(aBtree)
    {
      nMutex := 0;
      aBtree := new Btree[capacity](_ => filler);
    }

    /** sqlite3BtreeMutexArrayInsert; the array has room for one more. */
    method Insert(b: Btree)
      requires Valid() && (b.sharable ==> nMutex + 1 < aBtree.Length)
      modifies this`nMutex, aBtree
      ensures Valid() && aBtree == old(aBtree) && Contents() == Inserted(old(Contents()), b)
    {
      ghost var was := aBtree[..nMutex];
      if !b.sharable { return; }
      var i := 0;
      while i < nMutex && aBtree[i].pBt <= b.pBt
        invariant i <= nMutex
        invariant forall m | 0 <= m < i :: was[m].pBt <= b.pBt
      {
        i := i + 1;
      }
      OpenPlace(i);
      assert aBtree[..i] == was[..i] && aBtree[i + 1..nMutex + 1] == was[i..];
      aBtree[i] := b;
      nMutex := nMutex + 1;
      ghost var now := aBtree[..nMutex];
      assert now[..i] == was[..i] && now[i + 1..] == was[i..];
      InsertedIs(was, i, b, aBtree[..nMutex]);
    }

    /** Move everything from place i on up by one. */
    method OpenPlace(i: nat)
      requires i <= nMutex < aBtree.Length
      modifies aBtree
      ensures aBtree[..i] == old(aBtree[..i]) && aBtree[i + 1..nMutex + 1] == old(aBtree[i..nMutex])
    {
      var j := nMutex;
      while j > i
        invariant i <= j <= nMutex
        invariant aBtree[..j] == old(aBtree[..j])
        invariant aBtree[j + 1..nMutex + 1] == old(aBtree[j..nMutex])
      {
        aBtree[j] := aBtree[j - 1];
        j := j - 1;
      }
    }
  }

  /** In any sequence there is only one first place with a larger address. */
  lemma {:induction false} PlaceIs(s: seq<Btree>, a: nat, i: nat)
    requires i <= |s| && (forall j | 0 <= j < i :: s[j].pBt <= a) && (i < |s| ==> s[i].pBt > a)
    ensures Place(s, a) == i
  {
    var p := Place(s, a);
  }
}
