/** Why no connection stays inside a routine for ever (btmutex.c:40-310): every step
    brings its routine nearer to its return, and somebody can always take one. */
module LockProgress {
  import opened LockOrder

  /** How far it is from place q to the end of a list. */
  function Past(n: nat, q: nat): nat {
    if q < n then n - q else 0
  }

  /** How many rounds of the loop over aDb are to come, two for each: EnterAll may
      go round the whole list for each Btree. */
  function RoundsLeft(c: Conn): nat {
    match c.pc
    case AllOuter(i) => 2 * Past(|c.aDb|, i) + 1
    case AllRelease(i, _, _) => 2 * Past(|c.aDb|, i)
    case AllAcquire(i, _) => 2 * Past(|c.aDb|, i)
    case _ => 0
  }

  /** How many steps there are at most to the end of the round, or of the routine. */
  function StepsLeft(c: Conn): nat {
    var n := |c.addrs|;
    match c.pc
    case Idle => 0
    case Try(_) => 2 * n + 5
    case Release(_, q) => n + 4 + Past(n, q)
    case Block(_) => n + 3
    case Reacquire(_, q) => 1 + Past(n, q)
    case AllOuter(_) => 0
    case AllRelease(_, _, q) => n + 2 + Past(n, q)
    case AllAcquire(_, p) => 1 + Past(n, p)
    case AllLeave(i) => 1 + Past(|c.aDb|, i)
    case ArrEnter(arr, i) => 1 + 2 * Past(|arr|, i)
    case ArrBlock(arr, i) => 2 * Past(|arr|, i)
    case ArrLeave(arr, i) => 1 + Past(|arr|, i)
  }

  predicate Nearer(d: Conn, c: Conn) {
    RoundsLeft(d) < RoundsLeft(c) || (RoundsLeft(d) == RoundsLeft(c) && StepsLeft(d) < StepsLeft(c))
  }

  /** Whatever sqlite3_mutex_try says, every step inside a routine brings it nearer to
      its return. */
  lemma StepNearer(c: Conn, gotIt: bool)
    requires Fits(c) && PcFits(c) && c.pc != Idle
    ensures Nearer(StepConn(c, gotIt).conn, c)
  {
  }

  /** Only a connection outside every routine has nothing more to do. */
  lemma NothingLeft(c: Conn)
    requires Fits(c) && PcFits(c)
    ensures RoundsLeft(c) == StepsLeft(c) == 0 <==> c.pc == Idle
  {
  }

  // ---------------------------------------------------------------------
  // All connections
  // ---------------------------------------------------------------------

  /** All claims of a connection. */
  function WantedUpTo(want: seq<nat>, n: nat): nat
    requires n <= |want|
  {
    if n == 0 then 0 else WantedUpTo(want, n - 1) + want[n - 1]
  }

  function Wanted(c: Conn): nat {
    WantedUpTo(c.want, |c.want|)
  }

  function Sum(cs: seq<Conn>, f: Conn -> nat, n: nat): nat
    requires n <= |cs|
  {
    if n == 0 then 0 else Sum(cs, f, n - 1) + f(cs[n - 1])
  }

  lemma {:induction false} SumChange(cs: seq<Conn>, f: Conn -> nat, x: nat, d: Conn, n: nat)
    requires x < |cs| && n <= |cs|
    ensures Sum(cs[x := d], f, n) == Sum(cs, f, n) + if x < n then f(d) - f(cs[x]) else 0
  {
    if n > 0 { SumChange(cs, f, x, d, n - 1); }
  }

  lemma {:induction false} WantedLess(want: seq<nat>, k: nat, n: nat)
    requires k < |want| && n <= |want| && want[k] > 0
    ensures WantedUpTo(want[k := want[k] - 1], n) == WantedUpTo(want, n) - if k < n then 1 else 0
  {
    if n > 0 { WantedLess(want, k, n - 1); }
  }

  function Total(s: State, f: Conn -> nat): nat {
    Sum(s.conns, f, |s.conns|)
  }

  /** Less is left to do in t than in s: rounds, or steps, or claims to give up. */
  ghost predicate Less(t: State, s: State) {
    || Total(t, RoundsLeft) < Total(s, RoundsLeft)
    || (Total(t, RoundsLeft) == Total(s, RoundsLeft) && Total(t, StepsLeft) < Total(s, StepsLeft))
    || (Total(t, RoundsLeft) == Total(s, RoundsLeft) && Total(t, StepsLeft) == Total(s, StepsLeft) && Total(t, Wanted) < Total(s, Wanted))
  }

  /** Connection x, idle, gives up a claim. */
  ghost predicate Leaves(s: State, t: State, x: nat)
    requires x < |s.conns| && Fits(s.conns[x])
  {
    var c := s.conns[x];
    c.pc == Idle && exists k: nat | k < |c.addrs| && c.want[k] > 0 :: t == Apply(s, x, BeginConn(c, Leave(k)))
  }

  /** Connection x goes on inside a routine, or gives up a claim; nothing new is asked. */
  ghost predicate GoesOn(s: State, t: State, x: nat) {
    x < |s.conns| && Fits(s.conns[x]) && PcSafe(s.conns[x]) && (Goes(s, t, x) || Leaves(s, t, x))
  }

  ghost predicate Progress(s: State, t: State) {
    exists x: nat :: GoesOn(s, t, x)
  }

  lemma ProgressNext(s: State, t: State, x: nat)
    requires GoesOn(s, t, x)
    ensures Next(s, t)
  {
    if Leaves(s, t, x) {
      var c := s.conns[x];
      var k: nat :| k < |c.addrs| && c.want[k] > 0 && t == Apply(s, x, BeginConn(c, Leave(k)));
      assert MayCall(c, Leave(k)) && CanCall(c, Leave(k));
      assert Calls(s, t, x, true);
    }
  }

  lemma TotalChange(s: State, t: State, x: nat, d: Conn)
    requires x < |s.conns| && t.conns == s.conns[x := d]
    ensures Total(t, RoundsLeft) == Total(s, RoundsLeft) + RoundsLeft(d) - RoundsLeft(s.conns[x])
    ensures Total(t, StepsLeft) == Total(s, StepsLeft) + StepsLeft(d) - StepsLeft(s.conns[x])
    ensures Total(t, Wanted) == Total(s, Wanted) + Wanted(d) - Wanted(s.conns[x])
  {
    SumChange(s.conns, RoundsLeft, x, d, |s.conns|);
    SumChange(s.conns, StepsLeft, x, d, |s.conns|);
    SumChange(s.conns, Wanted, x, d, |s.conns|);
  }

  /** Every such step leaves less to do, whoever takes it: no run of them is endless. */
  lemma ProgressLess(s: State, t: State, x: nat)
    requires Inv(s) && GoesOn(s, t, x)
    ensures Less(t, s) && Inv(t) && |t.conns| == |s.conns|
  {
    ProgressNext(s, t, x);
    NextInv(s, t);
    if Goes(s, t, x) { GoLess(s, t, x); } else { LeaveLess(s, t, x); }
  }

  lemma GoLess(s: State, t: State, x: nat)
    requires Inv(s) && x < |s.conns| && Fits(s.conns[x]) && PcSafe(s.conns[x]) && Goes(s, t, x)
    ensures Less(t, s)
  {
    var d := StepConn(s.conns[x], TryWorks(s, x)).conn;
    StepNearer(s.conns[x], TryWorks(s, x));
    TotalChange(s, t, x, d);
  }

  lemma LeaveLess(s: State, t: State, x: nat)
    requires x < |s.conns| && Fits(s.conns[x]) && Leaves(s, t, x)
    ensures Less(t, s)
  {
    var c := s.conns[x];
    var k: nat :| k < |c.addrs| && c.want[k] > 0 && t == Apply(s, x, BeginConn(c, Leave(k)));
    WantedLess(c.want, k, |c.want|);
    TotalChange(s, t, x, BeginConn(c, Leave(k)).conn);
  }

  /** While a connection is inside a routine, some connection goes on. */
  lemma SomeoneGoesOn(s: State, x: nat) returns (t: State, y: nat)
    requires Inv(s) && x < |s.conns| && s.conns[x].pc != Idle
    ensures GoesOn(s, t, y)
  {
    y := FollowOwners(s, x, Above(s, |s.conns|));
    var c := s.conns[y];
    if c.pc != Idle {
      t := Apply(s, y, StepConn(c, TryWorks(s, y)));
      assert Goes(s, t, y);
    } else {
      var k: nat :| k < |c.addrs| && k < |c.locked| && c.locked[k];
      assert Settled(c, k);
      t := Apply(s, y, BeginConn(c, Leave(k)));
      assert Leaves(s, t, y);
    }
  }

  /** A continuation in which nothing new is asked. */
  ghost predicate Continues(s: State, r: seq<State>) {
    r != [] && r[0] == s && forall i: nat | i + 1 < |r| :: Progress(r[i], r[i + 1])
  }

  /** The routine connection x is in can return: others go on, or give up what they
      hold while they are idle, and then x is idle. */
  lemma Returns(s: State, x: nat) returns (r: seq<State>)
    requires Inv(s) && x < |s.conns|
    ensures Continues(s, r) && |r[|r| - 1].conns| == |s.conns| && r[|r| - 1].conns[x].pc == Idle
    decreases Total(s, RoundsLeft), Total(s, StepsLeft), Total(s, Wanted)
  {
    if s.conns[x].pc == Idle { return [s]; }
    var t, y := SomeoneGoesOn(s, x);
    ProgressLess(s, t, y);
    var p := Returns(t, x);
    r := [s] + p;
    forall i: nat | i + 1 < |r| ensures Progress(r[i], r[i + 1]) {
      if i > 0 { assert Progress(p[i - 1], p[i - 1 + 1]); }
    }
  }

  /** From every reachable state every call can return. */
  lemma EveryCallReturns(r: seq<State>, x: nat) returns (on: seq<State>)
    requires Run(r) && x < |r[|r| - 1].conns|
    ensures Continues(r[|r| - 1], on) && x < |on[|on| - 1].conns| && on[|on| - 1].conns[x].pc == Idle
  {
    RunInv(r);
    on := Returns(r[|r| - 1], x);
  }

  /** When nobody can go on any more and nothing new is asked, all connections are
      idle and hold nothing. */
  lemma StoppedIsAtRest(s: State)
    requires Inv(s) && forall t :: !Progress(s, t)
    ensures s.owner == map[] && forall x: nat | x < |s.conns| :: s.conns[x].pc == Idle
  {
    forall x: nat | x < |s.conns| ensures s.conns[x].pc == Idle {
      if s.conns[x].pc != Idle {
        var t, y := SomeoneGoesOn(s, x);
        assert Progress(s, t);
      }
    }
    forall a | a in s.owner ensures false {
      var x := s.owner[a];
      var t := HolderGoesOn(s, x, a);
      assert Progress(s, t);
    }
  }

  lemma HolderGoesOn(s: State, x: nat, a: nat) returns (t: State)
    requires Inv(s) && x < |s.conns| && s.conns[x].pc == Idle && a in s.owner && s.owner[a] == x
    ensures GoesOn(s, t, x)
  {
    assert OwnerFits(s, x);
    var c := s.conns[x];
    var k: nat :| k < |c.addrs| && c.addrs[k] == a;
    assert Settled(c, k);
    t := Apply(s, x, BeginConn(c, Leave(k)));
    assert Leaves(s, t, x);
  }

  // ---------------------------------------------------------------------
  // The way without waiting
  // ---------------------------------------------------------------------

  /** Enter on a mutex that is free takes just that, at once: it neither waits nor gives
      anything up. */
  lemma FreeTakenAtOnce(s: State, x: nat, k: nat)
    requires Inv(s) && x < |s.conns| && s.conns[x].pc == Idle && k < |s.conns[x].addrs| && s.conns[x].addrs[k] !in s.owner
    ensures var c := s.conns[x]; var t := Apply(s, x, BeginConn(c, Enter(k)));
      && Enabled(t, x) && Fits(t.conns[x]) && PcSafe(t.conns[x])
      && Apply(t, x, StepConn(t.conns[x], TryWorks(t, x)))
         == State(s.conns[x := c.(want := c.want[k := c.want[k] + 1], locked := c.locked[k := true])], s.owner[c.addrs[k] := x])
  {
    assert OwnerFits(s, x);
  }
}
