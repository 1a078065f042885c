/** Transactions and table locks of the handles that share a cache
    (btree.c:101-248, 1782-1797, 1903-1993, 2449-2494, 2568-2629, 7109-7123). */
module SharedCache {

  type Handle = nat
  type Pgno = nat

  const MASTER_ROOT: Pgno := 1

  datatype Trans = NONE | READ | WRITE

  function Rank(t: Trans): nat {
    match t
    case NONE => 0
    case READ => 1
    case WRITE => 2
  }

  /** A handle: its transaction, and whether its connection has the
      read-uncommitted flag set. */
  datatype Btree = Btree(inTrans: Trans, readUncommitted: bool)

  datatype Kind = READ_LOCK | WRITE_LOCK

  datatype BtLock = BtLock(pBtree: Handle, iTable: Pgno, eLock: Kind)

  datatype Rc = OK | BUSY | LOCKED | READONLY | NOMEM | OTHER

  datatype Option<T> = None | Some(value: T)

  // ---------------------------------------------------------------------
  // What is safe
  // ---------------------------------------------------------------------

  function Active(handles: map<Handle, Btree>): set<Handle> {
    set h | h in handles && handles[h].inTrans != NONE
  }

  /** t is the largest of the handles' transaction states. */
  ghost predicate IsMax(handles: map<Handle, Btree>, t: Trans) {
    && (forall h | h in handles :: Rank(handles[h].inTrans) <= Rank(t))
    && (t == NONE || exists h :: h in handles && handles[h].inTrans == t)
  }

  ghost predicate OneWriter(handles: map<Handle, Btree>) {
    forall g, h | g in handles && h in handles && handles[g].inTrans == WRITE && handles[h].inTrans == WRITE :: g == h
  }

  /** The lists holds one lock for a handle and a table, and locks of two handles on
      one table are both for reading. */
  ghost predicate LocksOk(locks: seq<BtLock>) {
    forall i, j | 0 <= i < j < |locks| && locks[i].iTable == locks[j].iTable ::
      locks[i].pBtree != locks[j].pBtree && locks[i].eLock == locks[j].eLock == READ_LOCK
  }

  ghost predicate OwnersOk(locks: seq<BtLock>, handles: map<Handle, Btree>) {
    forall i | 0 <= i < |locks| :: locks[i].pBtree in handles
  }

  /** The holder of exclusive access is the writer, and every lock is its own. */
  ghost predicate ExclusiveOk(locks: seq<BtLock>, handles: map<Handle, Btree>, pExclusive: Option<Handle>) {
    pExclusive.Some? ==> var p := pExclusive.value;
      && p in handles && handles[p].inTrans == WRITE
      && forall i | 0 <= i < |locks| :: locks[i].pBtree == p
  }

  // ---------------------------------------------------------------------
  // Lists of locks
  // ---------------------------------------------------------------------

  /** Place of the lock of a handle on a table, or the length of the list. */
  function Find(locks: seq<BtLock>, p: Handle, iTable: Pgno, i: nat): (r: nat)
    requires i <= |locks|
    ensures i <= r <= |locks|
    ensures r < |locks| ==> locks[r].pBtree == p && locks[r].iTable == iTable
    ensures forall k | i <= k < r :: !(locks[k].pBtree == p && locks[k].iTable == iTable)
    decreases |locks| - i
  {
    if i == |locks| || (locks[i].pBtree == p && locks[i].iTable == iTable) then i else Find(locks, p, iTable, i + 1)
  }

  /** The locks of the other handles, in their order. */
  function Without(locks: seq<BtLock>, p: Handle): seq<BtLock> {
    if locks == [] then []
    else
      var rest := Without(locks[..|locks| - 1], p);
      var last := locks[|locks| - 1];
      if last.pBtree == p then rest else rest + [last]
  }

  lemma {:induction false} WithoutMember(locks: seq<BtLock>, p: Handle, x: BtLock)
    ensures x in Without(locks, p) <==> x in locks && x.pBtree != p
  {
    if locks != [] {
      var n := |locks| - 1;
      WithoutMember(locks[..n], p, x);
      assert locks == locks[..n] + [locks[n]];
    }
  }

  lemma {:induction false} WithoutOk(locks: seq<BtLock>, p: Handle)
    requires LocksOk(locks)
    ensures LocksOk(Without(locks, p))
  {
    if locks != [] {
      var n := |locks| - 1;
      var rest := Without(locks[..n], p);
      assert LocksOk(locks[..n]);
      WithoutOk(locks[..n], p);
      forall k | 0 <= k < |rest| && rest[k].iTable == locks[n].iTable
        ensures rest[k].pBtree != locks[n].pBtree && rest[k].eLock == locks[n].eLock == READ_LOCK
      {
        WithoutMember(locks[..n], p, rest[k]);
        var m :| 0 <= m < n && locks[m] == rest[k];
      }
    }
  }

  // ---------------------------------------------------------------------
  // Granting locks
  // ---------------------------------------------------------------------

  /** Read-uncommitted readers neither set nor see locks, except on the master
      table. */
  predicate Uncommitted(b: Btree, iTab: Pgno, eLock: Kind) {
    b.readUncommitted && eLock == READ_LOCK && iTab != MASTER_ROOT
  }

  /** The handle has no lock on the table yet and needs one, so memory is asked for. */
  predicate NewLock(locks: seq<BtLock>, b: Btree, p: Handle, iTab: Pgno, eLock: Kind) {
    !Uncommitted(b, iTab, eLock) && Find(locks, p, iTab, 0) == |locks|
  }

  predicate Conflicts(l: BtLock, p: Handle, iTab: Pgno, eLock: Kind) {
    l.pBtree != p && l.iTable == iTab && (l.eLock != eLock || eLock != READ_LOCK)
  }

  /** When a handle may not have a lock. */
  ghost predicate Denied(locks: seq<BtLock>, b: Btree, pExclusive: Option<Handle>, p: Handle, iTab: Pgno, eLock: Kind) {
    || (pExclusive.Some? && pExclusive.value != p)
    || (!Uncommitted(b, iTab, eLock) && exists i :: 0 <= i < |locks| && Conflicts(locks[i], p, iTab, eLock))
  }

  /** The list with the lock: a write lock is not turned into a read lock. */
  function Locked(locks: seq<BtLock>, b: Btree, p: Handle, iTab: Pgno, eLock: Kind): seq<BtLock> {
    if Uncommitted(b, iTab, eLock) then locks
    else
      var i := Find(locks, p, iTab, 0);
      if i == |locks| then [BtLock(p, iTab, eLock)] + locks
      else if eLock == WRITE_LOCK then locks[i := BtLock(p, iTab, WRITE_LOCK)]
      else locks
  }

  lemma LockedOk(locks: seq<BtLock>, b: Btree, pExclusive: Option<Handle>, p: Handle, iTab: Pgno, eLock: Kind, handles: map<Handle, Btree>)
    requires LocksOk(locks) && !Denied(locks, b, pExclusive, p, iTab, eLock)
    requires OwnersOk(locks, handles) && ExclusiveOk(locks, handles, pExclusive) && p in handles
    ensures var after := Locked(locks, b, p, iTab, eLock);
      LocksOk(after) && OwnersOk(after, handles) && ExclusiveOk(after, handles, pExclusive)
  {
    var after := Locked(locks, b, p, iTab, eLock);
    var n := Find(locks, p, iTab, 0);
    if !Uncommitted(b, iTab, eLock) {
      forall i | 0 <= i < |locks| ensures !Conflicts(locks[i], p, iTab, eLock) {}
      if n == |locks| {
        forall i, j | 0 <= i < j < |after| && after[i].iTable == after[j].iTable
          ensures after[i].pBtree != after[j].pBtree && after[i].eLock == after[j].eLock == READ_LOCK
        {
          assert after[j] == locks[j - 1] && !Conflicts(locks[j - 1], p, iTab, eLock);
          if i > 0 { assert after[i] == locks[i - 1]; }
        }
      }
    }
  }

  /** A lock is refused when there would be two locks that are not sound together, and
      only then. */
  lemma DeniedExactly(locks: seq<BtLock>, b: Btree, pExclusive: Option<Handle>, p: Handle, iTab: Pgno, eLock: Kind)
    requires LocksOk(locks) && !Uncommitted(b, iTab, eLock) && (pExclusive == None || pExclusive == Some(p))
    ensures Denied(locks, b, pExclusive, p, iTab, eLock) <==> !LocksOk(Locked(locks, b, p, iTab, eLock))
  {
    var after, n := Locked(locks, b, p, iTab, eLock), Find(locks, p, iTab, 0);
    if Denied(locks, b, pExclusive, p, iTab, eLock) {
      var i: nat :| i < |locks| && Conflicts(locks[i], p, iTab, eLock);
      ClashStays(locks, b, p, iTab, eLock, i);
    } else {
      forall i | 0 <= i < |locks| ensures !Conflicts(locks[i], p, iTab, eLock) {}
      forall i, j | 0 <= i < j < |after| && after[i].iTable == after[j].iTable
        ensures after[i].pBtree != after[j].pBtree && after[i].eLock == after[j].eLock == READ_LOCK
      {
        if n == |locks| {
          assert after[j] == locks[j - 1] && !Conflicts(locks[j - 1], p, iTab, eLock);
          if i > 0 { assert after[i] == locks[i - 1]; }
        } else {
          assert !Conflicts(locks[i], p, iTab, eLock) && !Conflicts(locks[j], p, iTab, eLock);
        }
      }
    }
  }

  /** The lock that stands in the way and the new one are not sound together. */
  lemma ClashStays(locks: seq<BtLock>, b: Btree, p: Handle, iTab: Pgno, eLock: Kind, i: nat)
    requires LocksOk(locks) && !Uncommitted(b, iTab, eLock) && i < |locks| && Conflicts(locks[i], p, iTab, eLock)
    ensures !LocksOk(Locked(locks, b, p, iTab, eLock))
  {
    var after, n := Locked(locks, b, p, iTab, eLock), Find(locks, p, iTab, 0);
    if n == |locks| {
      assert after[0] == BtLock(p, iTab, eLock) && after[i + 1] == locks[i];
    } else {
      assert after[n].pBtree == p && after[n].iTable == iTab == after[i].iTable && after[i] == locks[i];
    }
  }

  /** What a granted lock does: the handle has it, at least as strong as asked for,
      and nothing else changes. */
  lemma LockedHas(locks: seq<BtLock>, b: Btree, p: Handle, iTab: Pgno, eLock: Kind, x: BtLock)
    requires !Uncommitted(b, iTab, eLock) && LocksOk(locks)
    ensures var after := Locked(locks, b, p, iTab, eLock);
      && (x.pBtree != p || x.iTable != iTab ==> (x in after <==> x in locks))
      && (BtLock(p, iTab, WRITE_LOCK) in after <==> eLock == WRITE_LOCK || BtLock(p, iTab, WRITE_LOCK) in locks)
      && (BtLock(p, iTab, eLock) in after || BtLock(p, iTab, WRITE_LOCK) in after)
  {
    var after := Locked(locks, b, p, iTab, eLock);
    var n := Find(locks, p, iTab, 0);
    if n < |locks| {
      assert after[n].pBtree == p && after[n].iTable == iTab && after[n] in after;
      forall k | 0 <= k < |locks| && k != n ensures after[k] == locks[k] && after[k] in after {}
      if x.pBtree != p || x.iTable != iTab {
        if x in locks { var m :| 0 <= m < |locks| && locks[m] == x; assert after[m] == x; }
        if x in after { var m :| 0 <= m < |after| && after[m] == x; assert locks[m] == x; }
      }
      if eLock == WRITE_LOCK {
        assert after[n] == BtLock(p, iTab, WRITE_LOCK);
      } else {
        assert after == locks && (after[n] == BtLock(p, iTab, READ_LOCK) || after[n] == BtLock(p, iTab, WRITE_LOCK));
      }
    } else {
      assert after[0] == BtLock(p, iTab, eLock);
    }
  }

  // ---------------------------------------------------------------------
  // Counting transactions
  // ---------------------------------------------------------------------

  lemma ActiveOn(handles: map<Handle, Btree>, p: Handle, t: Trans)
    requires p in handles && t != NONE
    ensures var after := handles[p := handles[p].(inTrans := t)];
      |Active(after)| == |Active(handles)| + if handles[p].inTrans == NONE then 1 else 0
  {
    var after := handles[p := handles[p].(inTrans := t)];
    if handles[p].inTrans == NONE {
      assert p !in Active(handles) && Active(after) == Active(handles) + {p};
    } else {
      assert Active(after) == Active(handles);
    }
  }

  lemma ActiveOff(handles: map<Handle, Btree>, p: Handle)
    requires p in handles
    ensures var after := handles[p := handles[p].(inTrans := NONE)];
      && |Active(after)| == |Active(handles)| - (if handles[p].inTrans != NONE then 1 else 0)
      && (|Active(after)| == 0 <==> forall h | h in after :: after[h].inTrans == NONE)
  {
    var after := handles[p := handles[p].(inTrans := NONE)];
    if handles[p].inTrans == NONE {
      assert Active(after) == Active(handles);
    } else {
      assert p in Active(handles) && Active(after) == Active(handles) - {p};
    }
    if forall h | h in after :: after[h].inTrans == NONE {
      assert Active(after) == {};
    } else {
      var h :| h in after && after[h].inTrans != NONE;
      assert h in Active(after);
    }
  }

  /** The state after a handle began a transaction, for the largest of all. */
  lemma MaxAfterBegin(handles: map<Handle, Btree>, p: Handle, t: Trans, top: Trans)
    requires p in handles && IsMax(handles, top) && OneWriter(handles) && t != NONE && Rank(handles[p].inTrans) <= Rank(t)
    requires t == WRITE ==> top != WRITE
    ensures var after := handles[p := handles[p].(inTrans := t)];
      IsMax(after, if Rank(t) > Rank(top) then t else top) && OneWriter(after)
  {
    var after := handles[p := handles[p].(inTrans := t)];
    assert after[p].inTrans == t;
    if top != NONE {
      var h :| h in handles && handles[h].inTrans == top;
      assert h != p ==> after[h].inTrans == top;
    }
  }

  /** The state after a handle left its transaction, for the largest of all. */
  lemma MaxAfterEnd(handles: map<Handle, Btree>, p: Handle, t: Trans)
    requires p in handles && IsMax(handles, t) && OneWriter(handles)
    ensures var after := handles[p := handles[p].(inTrans := NONE)];
      IsMax(after, if handles[p].inTrans == NONE then t else if |Active(after)| == 0 then NONE else if handles[p].inTrans == WRITE then READ else t)
  {
    var after := handles[p := handles[p].(inTrans := NONE)];
    ActiveOff(handles, p);
    if handles[p].inTrans != NONE && |Active(after)| > 0 {
      var h :| h in after && after[h].inTrans != NONE;
      if t == WRITE && handles[p].inTrans == READ {
        var w :| w in handles && handles[w].inTrans == WRITE;
        assert after[w].inTrans == WRITE;
      }
    } else if handles[p].inTrans == NONE {
      assert after == handles;
    }
  }

  /** A handle without a transaction may go. */
  lemma HandleGone(handles: map<Handle, Btree>, p: Handle, top: Trans)
    requires p in handles && handles[p].inTrans == NONE && IsMax(handles, top) && OneWriter(handles)
    ensures var after := handles - {p}; Active(after) == Active(handles) && IsMax(after, top) && OneWriter(after)
  {
    var after := handles - {p};
    forall h | h in after ensures after[h] == handles[h] {}
    if top != NONE {
      var h :| h in handles && handles[h].inTrans == top;
      assert h in after;
    }
  }

  // ---------------------------------------------------------------------
  // The shared cache
  // ---------------------------------------------------------------------

  class BtShared {
    var handles: map<Handle, Btree>
    var nTransaction: int
    var inTransaction: Trans
    var pExclusive: Option<Handle>
    var pLock: seq<BtLock>
    const readOnly: bool

    ghost predicate Valid()
      reads this
    {
      && nTransaction == |Active(handles)| && IsMax(handles, inTransaction) && OneWriter(handles)
      && LocksOk(pLock) && OwnersOk(pLock, handles) && ExclusiveOk(pLock, handles, pExclusive)
    }

    /** The state of one handle is t, that of the others what it was. */
    twostate predicate OnlyChanged(p: Handle, t: Trans)
      reads this
    {
      p in old(handles) && handles == old(handles)[p := old(handles)[p].(inTrans := t)]
    }

    constructor (readOnly: bool)
      ensures Valid() && handles == map[] && pLock == [] && this.readOnly == readOnly
    {
      handles, nTransaction, inTransaction, pExclusive, pLock := map[], 0, NONE, None, [];
      this.readOnly := readOnly;
    }

    /** sqlite3BtreeOpen: another handle. */
    method Open(p: Handle, readUncommitted: bool)
      requires Valid() && p !in handles
      modifies `handles
      ensures Valid() && handles == old(handles)[p := Btree(NONE, readUncommitted)]
    {
      ghost var was := handles;
      handles := handles[p := Btree(NONE, readUncommitted)];
      assert Active(handles) == Active(was);
      assert inTransaction != NONE ==> exists h :: h in was && was[h].inTrans == inTransaction;
      assert forall h | h in was :: handles[h] == was[h];
    }

    /** queryTableLock. */
    method QueryTableLock(p: Handle, iTab: Pgno, eLock: Kind) returns (rc: Rc)
      requires Valid() && p in handles
      ensures rc == if Denied(pLock, handles[p], pExclusive, p, iTab, eLock) then LOCKED else OK
    {
      if pExclusive.Some? && pExclusive.value != p { return LOCKED; }
      if !handles[p].readUncommitted || eLock == WRITE_LOCK || iTab == MASTER_ROOT {
        var i := 0;
        while i < |pLock|
          invariant 0 <= i <= |pLock| && forall k | 0 <= k < i :: !Conflicts(pLock[k], p, iTab, eLock)
        {
          if pLock[i].pBtree != p && pLock[i].iTable == iTab && (pLock[i].eLock != eLock || eLock != READ_LOCK) {
            assert Conflicts(pLock[i], p, iTab, eLock);
            return LOCKED;
          }
          i := i + 1;
        }
      }
      return OK;
    }

    /** lockTable. */
    method LockTable(p: Handle, iTable: Pgno, eLock: Kind) returns (rc: Rc)
      requires Valid() && p in handles && !Denied(pLock, handles[p], pExclusive, p, iTable, eLock)
      modifies `pLock
      ensures Valid() && (rc == OK || (rc == NOMEM && NewLock(old(pLock), handles[p], p, iTable, eLock)))
      ensures pLock == if rc == OK then Locked(old(pLock), handles[p], p, iTable, eLock) else old(pLock)
    {
      LockedOk(pLock, handles[p], pExclusive, p, iTable, eLock, handles);
      if handles[p].readUncommitted && eLock == READ_LOCK && iTable != MASTER_ROOT { return OK; }
      var i: nat := 0;
      while i < |pLock| && !(pLock[i].iTable == iTable && pLock[i].pBtree == p)
        invariant i <= |pLock| && Find(pLock, p, iTable, 0) == Find(pLock, p, iTable, i)
      {
        i := i + 1;
      }
      if i == |pLock| {
        var gotMemory: bool := *;
        if !gotMemory { return NOMEM; }
        pLock := [BtLock(p, iTable, eLock)] + pLock;
      } else if eLock == WRITE_LOCK {
        pLock := pLock[i := BtLock(p, iTable, WRITE_LOCK)];
      }
      return OK;
    }

    /** sqlite3BtreeLockTable. */
    method BtreeLockTable(p: Handle, iTab: Pgno, isWriteLock: bool) returns (rc: Rc)
      requires Valid() && p in handles
      modifies `pLock
      ensures Valid()
      ensures var eLock := if isWriteLock then WRITE_LOCK else READ_LOCK;
        if Denied(old(pLock), handles[p], pExclusive, p, iTab, eLock) then rc == LOCKED && pLock == old(pLock)
        else && (rc == OK || (rc == NOMEM && NewLock(old(pLock), handles[p], p, iTab, eLock)))
             && pLock == if rc == OK then Locked(old(pLock), handles[p], p, iTab, eLock) else old(pLock)
    {
      var eLock := if isWriteLock then WRITE_LOCK else READ_LOCK;
      rc := QueryTableLock(p, iTab, eLock);
      if rc == OK { rc := LockTable(p, iTab, eLock); }
    }

    /** unlockAllTables. */
    method UnlockAllTables(p: Handle)
      requires LocksOk(pLock) && OwnersOk(pLock, handles) && ExclusiveOk(pLock, handles, pExclusive)
      modifies `pLock, `pExclusive
      ensures LocksOk(pLock) && OwnersOk(pLock, handles) && ExclusiveOk(pLock, handles, pExclusive)
      ensures pLock == Without(old(pLock), p) && pExclusive == if old(pExclusive) == Some(p) then None else old(pExclusive)
    {
      WithoutOk(pLock, p);
      var i: nat, kept: seq<BtLock> := 0, [];
      while i < |pLock|
        invariant i <= |pLock| && kept == Without(pLock[..i], p) && pLock == old(pLock)
      {
        assert pLock[..i + 1][..i] == pLock[..i];
        if pLock[i].pBtree != p { kept := kept + [pLock[i]]; }
        i := i + 1;
      }
      assert pLock[..|pLock|] == pLock;
      forall k | 0 <= k < |kept| ensures kept[k] in pLock && kept[k].pBtree != p { WithoutMember(pLock, p, kept[k]); }
      pLock := kept;
      if pExclusive == Some(p) { pExclusive := None; }
    }
  
    /** sqlite3BtreeBeginTrans; pager is what comes of locking the file and starting
        the journal, busy handler included. */
    method BeginTrans(p: Handle, wrflag: nat, pager: Rc) returns (rc: Rc)
      requires Valid() && p in handles
      modifies `handles, `nTransaction, `inTransaction, `pExclusive
      ensures Valid()
      ensures rc == (if old(Begun(p, wrflag)) then OK else if old(Refused(p, wrflag)) != OK then old(Refused(p, wrflag)) else pager)
      ensures if rc != OK || old(Begun(p, wrflag)) then handles == old(handles) && pExclusive == old(pExclusive)
              else OnlyChanged(p, if wrflag > 0 then WRITE else READ) && pExclusive == if wrflag > 1 then Some(p) else old(pExclusive)
    {
      if handles[p].inTrans == WRITE || (handles[p].inTrans == READ && wrflag == 0) { return OK; }
      if readOnly && wrflag > 0 { return READONLY; }
      if inTransaction == WRITE && wrflag > 0 {
        return BUSY;
      }
      if wrflag > 1 {
        var i := 0;
        while i < |pLock|
          invariant 0 <= i <= |pLock| && forall k | 0 <= k < i :: pLock[k].pBtree == p
        {
          if pLock[i].pBtree != p { return BUSY; }
          i := i + 1;
        }
      }
      if pager != OK { return pager; }
      var t := if wrflag > 0 then WRITE else READ;
      ActiveOn(handles, p, t);
      MaxAfterBegin(handles, p, t, inTransaction);
      NobodyWrites(wrflag);
      if handles[p].inTrans == NONE { nTransaction := nTransaction + 1; }
      handles := handles[p := handles[p].(inTrans := t)];
      if Rank(t) > Rank(inTransaction) { inTransaction := t; }
      if wrflag > 1 { pExclusive := Some(p); }
      assert handles[p].inTrans == t;
      return OK;
    }

    /** There is nothing to do. */
    predicate Begun(p: Handle, wrflag: nat)
      requires p in handles
      reads this
    {
      handles[p].inTrans == WRITE || (handles[p].inTrans == READ && wrflag == 0)
    }

    /** Why a transaction may not begin: the database is read-only, another handle
        writes, or, for exclusive access, another handle holds a lock. */
    ghost function Refused(p: Handle, wrflag: nat): Rc
      reads this
    {
      if readOnly && wrflag > 0 then READONLY
      else if wrflag > 0 && exists h :: h in handles && h != p && handles[h].inTrans == WRITE then BUSY
      else if wrflag > 1 && exists i :: 0 <= i < |pLock| && pLock[i].pBtree != p then BUSY
      else OK
    }

    /** With a file that can be written, a transaction that writes is refused when with it
        there would be two writers, or locks of others beside exclusive access, and only
        then. */
    lemma RefusedExactly(p: Handle, wrflag: nat)
      requires Valid() && p in handles && !Begun(p, wrflag) && !readOnly && wrflag > 0
      ensures var after := handles[p := handles[p].(inTrans := WRITE)];
        Refused(p, wrflag) == OK <==> OneWriter(after) && (wrflag > 1 ==> ExclusiveOk(pLock, after, Some(p)))
    {
      var after := handles[p := handles[p].(inTrans := WRITE)];
      assert after[p].inTrans == WRITE;
      if h :| h in handles && h != p && handles[h].inTrans == WRITE { assert after[h].inTrans == WRITE; }
    }

    /** Where no transaction of the cache writes, no handle does. */
    lemma NobodyWrites(wrflag: nat)
      requires Valid() && (wrflag > 0 ==> inTransaction != WRITE)
      ensures wrflag > 0 ==> pExclusive == None && forall h | h in handles :: handles[h].inTrans != WRITE
    {
      assert pExclusive.Some? ==> Rank(handles[pExclusive.value].inTrans) <= Rank(inTransaction);
    }

    /** lockBtreeWithRetry: a read transaction that leaves nothing behind. */
    method LockBtreeWithRetry(p: Handle, pager: Rc) returns (rc: Rc)
      requires Valid() && p in handles
      modifies `handles, `nTransaction, `inTransaction, `pExclusive
      ensures Valid() && handles == old(handles) && pExclusive == old(pExclusive)
      ensures nTransaction == old(nTransaction) && inTransaction == old(inTransaction)
      ensures rc == if handles[p].inTrans == NONE then pager else OK
    {
      rc := OK;
      if handles[p].inTrans == NONE {
        ghost var was := handles;
        var saved := inTransaction;
        ActiveOn(handles, p, READ);
        rc := BeginTrans(p, 0, pager);
        inTransaction := saved;
        handles := handles[p := handles[p].(inTrans := NONE)];
        if rc == OK { nTransaction := nTransaction - 1; }
        assert handles == was && Active(handles) == Active(was);
      }
    }

    /** The end of a transaction, as commit and rollback share it. */
    method EndTrans(p: Handle)
      requires Valid() && p in handles
      modifies `handles, `nTransaction, `inTransaction, `pExclusive, `pLock
      ensures Valid() && OnlyChanged(p, NONE) && pLock == Without(old(pLock), p)
      ensures pExclusive == if old(pExclusive) == Some(p) then None else old(pExclusive)
    {
      ActiveOff(handles, p);
      MaxAfterEnd(handles, p, inTransaction);
      UnlockAllTables(p);
      if handles[p].inTrans == WRITE { inTransaction := READ; }
      if handles[p].inTrans != NONE {
        nTransaction := nTransaction - 1;
        if nTransaction == 0 { inTransaction := NONE; }
      }
      handles := handles[p := handles[p].(inTrans := NONE)];
    }

    /** sqlite3BtreeCommitPhaseTwo: when the pager fails, nothing is given up. */
    method CommitPhaseTwo(p: Handle, pager: Rc) returns (rc: Rc)
      requires Valid() && p in handles
      modifies `handles, `nTransaction, `inTransaction, `pExclusive, `pLock
      ensures Valid() && rc == if old(handles)[p].inTrans == WRITE then pager else OK
      ensures if rc == OK then OnlyChanged(p, NONE) && pLock == Without(old(pLock), p) && pExclusive != Some(p)
              else handles == old(handles) && pLock == old(pLock) && pExclusive == old(pExclusive)
    {
      if handles[p].inTrans == WRITE && pager != OK { return pager; }
      EndTrans(p);
      return OK;
    }

    /** sqlite3BtreeRollback: the transaction ends, whatever the pager says. */
    method Rollback(p: Handle)
      requires Valid() && p in handles
      modifies `handles, `nTransaction, `inTransaction, `pExclusive, `pLock
      ensures Valid() && OnlyChanged(p, NONE) && pLock == Without(old(pLock), p) && pExclusive != Some(p)
    {
      EndTrans(p);
    }

    /** sqlite3BtreeClose. */
    method Close(p: Handle)
      requires Valid() && p in handles
      modifies `handles, `nTransaction, `inTransaction, `pExclusive, `pLock
      ensures Valid() && handles == old(handles) - {p} && pLock == Without(old(pLock), p)
    {
      Rollback(p);
      forall k | 0 <= k < |pLock| ensures pLock[k].pBtree != p { WithoutMember(old(pLock), p, pLock[k]); }
      HandleGone(handles, p, inTransaction);
      handles := handles - {p};
    }
  }

  // ---------------------------------------------------------------------
  // What follows for the connections
  // ---------------------------------------------------------------------

  /** While a handle has a lock to write a table, no other one may have a lock on it,
      save for read-uncommitted reading. */
  lemma WriterShutsOut(locks: seq<BtLock>, b: Btree, pExclusive: Option<Handle>, p: Handle, q: Handle, iTab: Pgno, eLock: Kind)
    requires BtLock(q, iTab, WRITE_LOCK) in locks && p != q
    ensures Denied(locks, b, pExclusive, p, iTab, eLock) || Uncommitted(b, iTab, eLock)
  {
    var i :| 0 <= i < |locks| && locks[i] == BtLock(q, iTab, WRITE_LOCK);
    assert Conflicts(locks[i], p, iTab, eLock);
  }

  /** A table that another handle writes can be locked just to read it uncommitted, which
      the master table cannot be. */
  lemma WrittenIsReadExactly(locks: seq<BtLock>, b: Btree, p: Handle, q: Handle, iTab: Pgno, eLock: Kind)
    requires BtLock(q, iTab, WRITE_LOCK) in locks && p != q
    ensures !Denied(locks, b, None, p, iTab, eLock) <==> b.readUncommitted && eLock == READ_LOCK && iTab != MASTER_ROOT
    ensures !Denied(locks, b, None, p, iTab, eLock) ==> Locked(locks, b, p, iTab, eLock) == locks
  {
    WriterShutsOut(locks, b, None, p, q, iTab, eLock);
  }

  /** While a handle has exclusive access, no other one gets any lock, not even to
      read uncommitted data. */
  lemma ExclusiveShutsOut(locks: seq<BtLock>, b: Btree, p: Handle, q: Handle, iTab: Pgno, eLock: Kind)
    requires p != q
    ensures Denied(locks, b, Some(q), p, iTab, eLock)
  {
  }
}
