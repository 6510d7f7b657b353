/** Handles on one shared cache: their transactions, and their locks on tables. */
module SharedCache {
  import opened Arithmetic
  import opened Basics

  type Trans = t: nat | t <= 2
  const TRANS_NONE: Trans := 0
  const TRANS_READ: Trans := 1
  const TRANS_WRITE: Trans := 2

  type LockType = k: nat | 1 <= k <= 2 witness 1
  const READ_LOCK: LockType := 1
  const WRITE_LOCK: LockType := 2

  const MASTER_ROOT := 1

  datatype Rc = Ok | ReadOnly | Busy | Locked | OtherError

  /** What the pager answers when it is asked for a read lock and for a write lock. */
  datatype Attempt = Attempt(lockRc: Rc, beginRc: Rc)

  class Btree {
    var inTrans: Trans
    /** The connection has the flag that lets it read without locks. */
    const readUncommitted: bool

    constructor (readUncommitted: bool)
      ensures inTrans == TRANS_NONE && this.readUncommitted == readUncommitted
    {
      inTrans := TRANS_NONE;
      this.readUncommitted := readUncommitted;
    }
  }

  datatype BtLock = BtLock(pBtree: Btree, iTable: nat, eLock: nat)

  // ------------------------------------------------------------ table locks

  ghost predicate Compatible(a: BtLock, b: BtLock) {
    a.iTable == b.iTable ==> a.pBtree != b.pBtree && a.eLock == READ_LOCK && b.eLock == READ_LOCK
  }

  /** On each table either one lock, or read locks of different handles. */
  ghost predicate LocksOk(locks: seq<BtLock>) {
    (forall i :: 0 <= i < |locks| ==> 1 <= locks[i].eLock <= 2)
    && forall i, j :: 0 <= i < j < |locks| ==> Compatible(locks[i], locks[j])
  }

  /** The lock a handle has on a table; 0 for none. */
  function Held(locks: seq<BtLock>, p: Btree, iTable: nat): nat {
    if locks == [] then 0
    else if locks[0].pBtree == p && locks[0].iTable == iTable then locks[0].eLock
    else Held(locks[1..], p, iTable)
  }

  ghost predicate HasLock(locks: seq<BtLock>, i: nat, p: Btree, iTable: nat)
    requires i < |locks|
  {
    locks[i].pBtree == p && locks[i].iTable == iTable
  }

  lemma {:induction false} HeldAt(locks: seq<BtLock>, p: Btree, iTable: nat)
    ensures Held(locks, p, iTable) > 0
            ==> exists i :: 0 <= i < |locks| && HasLock(locks, i, p, iTable) && locks[i].eLock == Held(locks, p, iTable)
    ensures (forall i :: 0 <= i < |locks| ==> !HasLock(locks, i, p, iTable)) ==> Held(locks, p, iTable) == 0
    ensures forall i :: 0 <= i < |locks| && HasLock(locks, i, p, iTable) && LocksOk(locks)
                        ==> locks[i].eLock == Held(locks, p, iTable)
  {
    if locks != [] {
      var rest := locks[1..];
      HeldAt(rest, p, iTable);
      if HasLock(locks, 0, p, iTable) {
        forall i | 0 <= i < |locks| && HasLock(locks, i, p, iTable) && LocksOk(locks)
          ensures locks[i].eLock == Held(locks, p, iTable) {
          assert i > 0 ==> Compatible(locks[0], locks[i]);
        }
      } else {
        assert forall i :: 0 <= i < |rest| ==> (HasLock(rest, i, p, iTable) <==> HasLock(locks, i + 1, p, iTable));
        if Held(locks, p, iTable) > 0 {
          var i :| 0 <= i < |rest| && HasLock(rest, i, p, iTable) && rest[i].eLock == Held(rest, p, iTable);
          assert HasLock(locks, i + 1, p, iTable);
        }
        if forall i :: 0 <= i < |locks| ==> !HasLock(locks, i, p, iTable) {
          forall i | 0 <= i < |rest| ensures !HasLock(rest, i, p, iTable) {
            assert !HasLock(locks, i + 1, p, iTable);
          }
        }
        if LocksOk(locks) {
          forall i, j | 0 <= i < j < |rest| ensures Compatible(rest[i], rest[j]) {
            assert Compatible(locks[i + 1], locks[j + 1]);
          }
          forall i | 0 <= i < |locks| && HasLock(locks, i, p, iTable) ensures locks[i].eLock == Held(locks, p, iTable) {
            assert HasLock(rest, i - 1, p, iTable);
          }
        }
      }
    }
  }

  /** One handle's write lock on a table leaves no lock there to another. */
  lemma {:induction false} WriteExcludes(locks: seq<BtLock>, p: Btree, q: Btree, iTable: nat)
    requires LocksOk(locks) && p != q && Held(locks, p, iTable) == WRITE_LOCK
    ensures Held(locks, q, iTable) == 0
  {
    HeldAt(locks, p, iTable);
    HeldAt(locks, q, iTable);
    var i :| 0 <= i < |locks| && HasLock(locks, i, p, iTable) && locks[i].eLock == WRITE_LOCK;
    forall j | 0 <= j < |locks| ensures !HasLock(locks, j, q, iTable) {
      assert i < j ==> Compatible(locks[i], locks[j]);
      assert j < i ==> Compatible(locks[j], locks[i]);
    }
  }

  /** The locks of all handles but one, in order. */
  ghost function Others(locks: seq<BtLock>, p: Btree): (r: seq<BtLock>)
    ensures forall l :: l in r ==> l in locks && l.pBtree != p
    ensures forall l :: l in locks && l.pBtree != p ==> l in r
  {
    if locks == [] then [] else Others(locks[..|locks| - 1], p)
                                + (if locks[|locks| - 1].pBtree == p then [] else [locks[|locks| - 1]])
  }

  lemma {:induction false} OthersOk(locks: seq<BtLock>, p: Btree)
    requires LocksOk(locks)
    ensures LocksOk(Others(locks, p))
  {
    if locks != [] {
      var k := |locks| - 1;
      var front, rest := locks[..k], Others(locks[..k], p);
      forall i, j | 0 <= i < j < |front| ensures Compatible(front[i], front[j]) {
        assert Compatible(locks[i], locks[j]);
      }
      OthersOk(front, p);
      OtherOk(locks, front, rest, p);
    }
  }

  lemma {:induction false} OtherOk(locks: seq<BtLock>, front: seq<BtLock>, rest: seq<BtLock>, p: Btree)
    requires LocksOk(locks) && locks != [] && front == locks[..|locks| - 1] && rest == Others(front, p) && LocksOk(rest)
    ensures LocksOk(rest + [locks[|locks| - 1]])
  {
    hide Others;
    var last := locks[|locks| - 1];
    forall l | l in rest ensures Compatible(l, last) && 1 <= last.eLock <= 2 {
      var a :| 0 <= a < |front| && front[a] == l;
      assert Compatible(locks[a], last);
    }
    assert forall i :: 0 <= i < |rest| ==> rest[i] in rest;
  }

  /** Without a handle's locks the others' are as before. */
  lemma {:induction false} OthersHeld(locks: seq<BtLock>, p: Btree, q: Btree, iTable: nat)
    requires LocksOk(locks)
    ensures Held(Others(locks, p), q, iTable) == if q == p then 0 else Held(locks, q, iTable)
  {
    hide Held;
    var rest := Others(locks, p);
    OthersOk(locks, p);
    HeldAt(rest, q, iTable);
    HeldAt(locks, q, iTable);
    if q != p && Held(locks, q, iTable) > 0 {
      var i :| 0 <= i < |locks| && HasLock(locks, i, q, iTable) && locks[i].eLock == Held(locks, q, iTable);
      assert locks[i] in rest;
      var j :| 0 <= j < |rest| && rest[j] == locks[i];
      assert HasLock(rest, j, q, iTable);
    } else {
      forall j | 0 <= j < |rest| ensures !HasLock(rest, j, q, iTable) {
        assert rest[j] in rest;
        var i :| 0 <= i < |locks| && locks[i] == rest[j];
        assert HasLock(locks, i, q, iTable) <==> HasLock(rest, j, q, iTable);
      }
    }
  }

  // ------------------------------------------------------------ the cache

  /** What one attempt comes to, if the read lock on the file is held or has to be asked for. */
  ghost function Answer(a: Attempt, wrflag: bool, held: bool): Rc {
    if !held && a.lockRc != Ok then a.lockRc else if wrflag then a.beginRc else Ok
  }

  /** The attempts up to the `k`-th are busy, and that one ends them: its answer is another one, or there is no other
      attempt. Once the lock is held by others, too, the first attempt is the only one: what it comes to stays, though
      the busy handler may be asked again. */
  ghost predicate Ends(attempts: seq<Attempt>, wrflag: bool, held: bool, alone: bool, k: nat, rc: Rc) {
    && k < |attempts| && (forall j :: 0 <= j < k ==> Answer(attempts[j], wrflag, held && j == 0) == Busy)
    && rc == Answer(attempts[k], wrflag, held && k == 0)
    && (if alone then rc == Busy ==> k == |attempts| - 1 else k == 0)
  }

  class BtShared {
    const useSharedData: bool
    const readOnly: bool
    var inTransaction: Trans
    var nTransaction: int
    var nRef: int
    var pLock: seq<BtLock>
    /** Page 1 is referenced, which holds the read lock on the file. */
    var page1: bool
    /** The open cursors, the latest first: the handle of each. */
    var cursors: seq<Btree>

    ghost var handles: set<Btree>

    /** The handles in a transaction. */
    ghost function Open(): set<Btree>
      reads this`handles, handles
    {
      set p | p in handles && p.inTrans != TRANS_NONE
    }

    /** The state of the cache is that of the handle that is furthest; only one writes. */
    ghost predicate Levels()
      reads this`handles, this`inTransaction, handles
    {
      && (forall p :: p in handles ==> p.inTrans <= inTransaction)
      && (inTransaction != TRANS_NONE ==> exists p :: p in handles && p.inTrans == inTransaction)
      && (forall p, q :: p in handles && q in handles && p.inTrans == TRANS_WRITE && q.inTrans == TRANS_WRITE
                         ==> p == q)
    }

    ghost predicate Counts()
      reads this`handles, this`nRef, this`nTransaction, handles
    {
      nRef == |handles| && nTransaction == |Open()|
    }

    /** Transactions and cursors hold the read lock on the file. */
    ghost predicate Reading()
      reads this`inTransaction, this`cursors, this`page1
    {
      inTransaction != TRANS_NONE || cursors != [] ==> page1
    }

    ghost predicate Transactions()
      reads this, handles
    {
      Counts() && Levels() && Reading()
    }

    ghost predicate TableLocks()
      reads this
    {
      LocksOk(pLock) && (!useSharedData ==> pLock == []) && forall l :: l in pLock ==> l.pBtree in handles
    }

    ghost predicate Owned()
      reads this`cursors, this`handles
    {
      forall c :: c in cursors ==> c in handles
    }

    ghost predicate Valid()
      reads this, handles
    {
      Transactions() && TableLocks() && Owned()
    }

    constructor (useSharedData: bool, readOnly: bool)
      ensures Valid() && handles == {} && inTransaction == TRANS_NONE && pLock == [] && !page1 && cursors == []
      ensures this.useSharedData == useSharedData && this.readOnly == readOnly
    {
      this.useSharedData, this.readOnly := useSharedData, readOnly;
      inTransaction, nTransaction, nRef, pLock, page1, cursors, handles := TRANS_NONE, 0, 0, [], false, [], {};
    }

    /** Reading without locks: neither asked for nor kept. */
    predicate Unlocked(p: Btree, iTab: nat, eLock: LockType) {
      p.readUncommitted && eLock == READ_LOCK && iTab != MASTER_ROOT
    }

    method QueryTableLock(p: Btree, iTab: nat, eLock: LockType) returns (rc: Rc)
      requires Valid()
      ensures rc == Ok || rc == Locked
      ensures rc == Locked <==>
                && !(p.readUncommitted && eLock == READ_LOCK && iTab != MASTER_ROOT)
                && exists l :: l in pLock && l.pBtree != p && l.iTable == iTab
                               && (l.eLock == WRITE_LOCK || eLock == WRITE_LOCK)
    {
      if !useSharedData {
        return Ok;
      }
      if !Unlocked(p, iTab, eLock) {
        var i := 0;
        while i < |pLock|
          invariant i <= |pLock|
          invariant forall j :: 0 <= j < i && pLock[j].pBtree != p && pLock[j].iTable == iTab
                                ==> pLock[j].eLock == READ_LOCK && eLock == READ_LOCK
        {
          var l := pLock[i];
          if l.pBtree != p && l.iTable == iTab && (l.eLock != eLock || eLock != READ_LOCK) {
            assert pLock[i] in pLock;
            return Locked;
          }
          i := i + 1;
        }
      }
      rc := Ok;
    }

    /** Add a lock, or raise the one the handle has. */
    method LockTable(p: Btree, iTable: nat, eLock: LockType)
      requires Valid() && p in handles
      requires (p.readUncommitted && eLock == READ_LOCK && iTable != MASTER_ROOT)
               || forall l :: l in pLock && l.pBtree != p && l.iTable == iTable
                              ==> l.eLock != WRITE_LOCK && eLock != WRITE_LOCK
      modifies this`pLock
      ensures Valid()
      ensures !useSharedData || (p.readUncommitted && eLock == READ_LOCK && iTable != MASTER_ROOT)
              ==> pLock == old(pLock)
      ensures useSharedData && !(p.readUncommitted && eLock == READ_LOCK && iTable != MASTER_ROOT) ==>
                forall q, t :: Held(pLock, q, t) ==
                  if q == p && t == iTable then (if eLock > Held(old(pLock), p, iTable) then eLock
                                                 else Held(old(pLock), p, iTable))
                  else Held(old(pLock), q, t)
    {
      if !useSharedData || Unlocked(p, iTable, eLock) {
        return;
      }
      var i := 0;
      while i < |pLock| && !(pLock[i].iTable == iTable && pLock[i].pBtree == p)
        invariant i <= |pLock| && forall j :: 0 <= j < i ==> !HasLock(pLock, j, p, iTable)
      {
        i := i + 1;
      }
      if i == |pLock| {
        Added(pLock, p, iTable, eLock);
        pLock := [BtLock(p, iTable, eLock)] + pLock;
      } else {
        assert HasLock(pLock, i, p, iTable);
        Raised(pLock, i, p, iTable, eLock);
        if eLock > pLock[i].eLock {
          pLock := pLock[i := pLock[i].(eLock := eLock)];
        }
      }
    }

    /** Release the locks of a handle. */
    method UnlockAllTables(p: Btree)
      requires TableLocks()
      modifies this`pLock
      ensures TableLocks() && pLock == Others(old(pLock), p)
      ensures forall q, t :: Held(pLock, q, t) == if q == p then 0 else Held(old(pLock), q, t)
    {
      hide Held, Others, LocksOk;
      ghost var was := pLock;
      OthersAll(was, p);
      var i := 0;
      ghost var seen := 0;
      NoneYet(was, p);
      while i < |pLock|
        invariant i <= |pLock| && seen <= |was| && pLock[..i] == Others(was[..seen], p) && pLock[i..] == was[seen..]
        decreases |pLock| - i
      {
        OneMore(was, seen, p);
        assert pLock[i] == pLock[i..][0] == was[seen];
        assert pLock[i + 1..] == pLock[i..][1..] == was[seen + 1..];
        if pLock[i].pBtree == p {
          Cut(pLock, i);
          pLock := pLock[..i] + pLock[i + 1..];
        } else {
          assert pLock[..i + 1] == pLock[..i] + [pLock[i]];
          i := i + 1;
        }
        seen := seen + 1;
      }
      assert pLock[i..] == [] && was[seen..] == [];
      assert pLock[..i] == pLock && was[..seen] == was;
      OthersAll(was, p);
    }

    /** Give up the read lock on the file when nothing needs it. */
    method UnlockBtreeIfUnused()
      modifies this`page1
      ensures page1 == (old(page1) && (inTransaction != TRANS_NONE || cursors != []))
    {
      if inTransaction == TRANS_NONE && cursors == [] && page1 {
        page1 := false;
      }
    }

    /** Another handle has the one write transaction there can be. */
    ghost predicate Taken(p: Btree)
      reads this`handles, handles
    {
      exists q :: q in handles && q != p && q.inTrans == TRANS_WRITE
    }

    /** sqlite3BtreeBeginTrans: tries while the pager is busy, no other transaction is open and the busy handler
        says so. */
    method BeginTrans(p: Btree, wrflag: bool, attempts: seq<Attempt>) returns (rc: Rc)
      requires Valid() && p in handles && |attempts| > 0
      modifies this`inTransaction, this`nTransaction, this`page1, p`inTrans
      ensures Valid()
      ensures rc == Ok ==> p.inTrans == (if wrflag || old(p.inTrans) == TRANS_WRITE then TRANS_WRITE else TRANS_READ)
                           && page1
      ensures rc != Ok ==> p.inTrans == old(p.inTrans) && inTransaction == old(inTransaction)
                           && nTransaction == old(nTransaction)
      ensures old(p.inTrans) == TRANS_WRITE || (old(p.inTrans) == TRANS_READ && !wrflag) ==> rc == Ok
      ensures wrflag && readOnly && old(p.inTrans) != TRANS_WRITE ==> rc == ReadOnly
      ensures wrflag && !readOnly && old(Taken(p)) ==> rc == Busy
      ensures !(old(p.inTrans) == TRANS_WRITE || (old(p.inTrans) == TRANS_READ && !wrflag))
              && !(wrflag && (readOnly || old(Taken(p))))
              ==> exists k :: Ends(attempts, wrflag, old(page1), old(Alone()), k, rc)
      ensures rc == Ok && wrflag && old(p.inTrans) != TRANS_WRITE
              ==> exists k :: 0 <= k < |attempts| && attempts[k].beginRc == Ok
                              && (attempts[k].lockRc == Ok || (k == 0 && old(page1)))
      ensures (attempts[0].lockRc == Ok || old(page1)) && (!wrflag || attempts[0].beginRc == Ok)
              && !(wrflag && (readOnly || old(Taken(p))))
              ==> rc == Ok
      ensures attempts[0].lockRc == Ok && wrflag && attempts[0].beginRc !in {Ok, Busy} && !readOnly
              && !old(Taken(p)) && old(p.inTrans) != TRANS_WRITE
              ==> rc == attempts[0].beginRc
    {
      if p.inTrans == TRANS_WRITE || (p.inTrans == TRANS_READ && !wrflag) {
        return Ok;
      }
      if readOnly && wrflag {
        return ReadOnly;
      }
      if inTransaction == TRANS_WRITE && wrflag {
        return Busy;
      }
      rc := Acquire(wrflag, attempts);
      if rc == Ok {
        Grant(p, wrflag);
      }
    }

    /** Nothing but this attempt holds the read lock on the file. */
    ghost predicate Alone()
      reads this`inTransaction, this`cursors
    {
      inTransaction == TRANS_NONE && cursors == []
    }

    /** Ask the pager for the locks. */
    method Acquire(wrflag: bool, attempts: seq<Attempt>) returns (rc: Rc)
      requires |attempts| > 0 && Reading()
      modifies this`page1
      ensures Reading() && (rc == Ok ==> page1)
      ensures exists k :: Ends(attempts, wrflag, old(page1), Alone(), k, rc)
    {
      var i := 0;
      rc := Ok;
      ghost var k := 0;
      while true
        invariant i < |attempts| && Reading() && k <= i
        invariant rc == if i == 0 then Ok else Busy
        invariant forall j :: 0 <= j < k ==> Answer(attempts[j], wrflag, old(page1) && j == 0) == Busy
        invariant i == 0 ==> k == 0 && page1 == old(page1)
        invariant i > 0 ==> inTransaction == TRANS_NONE
        invariant i > 0 && Alone() ==> k == i && !page1
        invariant i > 0 && !Alone() ==> k == 0 && page1 && Answer(attempts[0], wrflag, old(page1)) == Busy
        decreases |attempts| - i
      {
        if !page1 {
          rc := attempts[i].lockRc;
          page1 := rc == Ok;
        }
        if rc == Ok && wrflag {
          rc := attempts[i].beginRc;
        }
        if rc != Ok {
          UnlockBtreeIfUnused();
        }
        assert (i == 0 || Alone()) ==> rc == Answer(attempts[i], wrflag, old(page1) && i == 0);
        if !(rc == Busy && inTransaction == TRANS_NONE && i + 1 < |attempts|) {
          break;
        }
        if Alone() {
          k := k + 1;
        }
        i := i + 1;
      }
      assert Ends(attempts, wrflag, old(page1), Alone(), k, rc);
    }

    /** The handle is in a transaction, and so is the cache. */
    method Grant(p: Btree, wrflag: bool)
      requires Transactions() && p in handles && page1 && p.inTrans != TRANS_WRITE
               && (p.inTrans == TRANS_READ ==> wrflag)
      requires wrflag ==> inTransaction != TRANS_WRITE
      modifies this`inTransaction, this`nTransaction, p`inTrans
      ensures Transactions() && p.inTrans == if wrflag then TRANS_WRITE else TRANS_READ
    {
      hide Open;
      ghost var top := Top(p);
      if p.inTrans == TRANS_NONE {
        nTransaction := nTransaction + 1;
      }
      SetTrans(p, if wrflag then TRANS_WRITE else TRANS_READ);
      if p.inTrans > inTransaction {
        inTransaction := p.inTrans;
      }
      assert p.inTrans == inTransaction || (top != p && top in handles && top.inTrans == inTransaction);
    }

    /** The state of one handle, and with it the number of those in a transaction. */
    method SetTrans(p: Btree, t: Trans)
      requires p in handles
      modifies p`inTrans
      ensures p.inTrans == t
      ensures |Open()| == old(|Open()|) - (if old(p.inTrans) == TRANS_NONE then 0 else 1)
              + (if t == TRANS_NONE then 0 else 1)
    {
      ghost var was := Open();
      p.inTrans := t;
      assert Open() == if t == TRANS_NONE then was - {p} else was + {p};
      Plus(was, p);
    }

    /** A handle that is as far as the cache. */
    ghost function Top(p: Btree): (top: Btree)
      requires Levels() && p in handles
      reads this`handles, this`inTransaction, handles
      ensures top in handles && top.inTrans == inTransaction
    {
      if inTransaction == TRANS_NONE then p
      else
        var q :| q in handles && q.inTrans == inTransaction;
        q
    }

    /** A read lock on the file, without a transaction. */
    method LockBtreeWithRetry(p: Btree, attempts: seq<Attempt>) returns (rc: Rc)
      requires Valid() && p in handles && |attempts| > 0
      modifies this`inTransaction, this`nTransaction, this`page1, p`inTrans
      ensures Valid() && p.inTrans == old(p.inTrans) && inTransaction == old(inTransaction)
              && nTransaction == old(nTransaction)
      ensures rc == Ok ==> page1
      ensures if old(p.inTrans) == TRANS_NONE then
                exists k :: Ends(attempts, false, old(page1), old(Alone()), k, rc)
              else rc == Ok
    {
      hide LocksOk, Open;
      rc := Ok;
      if p.inTrans == TRANS_NONE {
        var before := inTransaction;
        rc := BeginTrans(p, false, attempts);
        inTransaction := before;
        SetTrans(p, TRANS_NONE);
        if rc == Ok {
          nTransaction := nTransaction - 1;
        }
      }
    }

    /** The last part of commit and rollback: the handle leaves its transaction, the shared state follows. */
    method Leave(p: Btree)
      requires p in handles && Counts() && TableLocks() && Owned()
      requires inTransaction != TRANS_NONE || cursors != [] ==> page1
      requires if p.inTrans == TRANS_WRITE then inTransaction == TRANS_READ
                    && forall q :: q in handles && q != p ==> q.inTrans <= TRANS_READ else Levels()
      modifies this`inTransaction, this`nTransaction, this`page1, p`inTrans
      ensures Valid() && p.inTrans == TRANS_NONE && (page1 ==> !Alone())
    {
      hide LocksOk, Open;
      if p.inTrans != TRANS_NONE {
        nTransaction := nTransaction - 1;
        if 0 == nTransaction {
          inTransaction := TRANS_NONE;
        }
      }
      SetTrans(p, TRANS_NONE);
      UnlockBtreeIfUnused();
      SomeOpen();
    }

    /** With no count left no handle is in a transaction; else one is. */
    lemma {:induction false} SomeOpen()
      ensures |Open()| == 0 ==> forall q :: q in handles ==> q.inTrans == TRANS_NONE
      ensures |Open()| > 0 ==> exists q :: q in handles && q.inTrans != TRANS_NONE
    {
      if |Open()| == 0 {
        assert Open() == {};
        forall q | q in handles ensures q.inTrans == TRANS_NONE {
          assert q !in Open();
        }
      } else {
        var q :| q in Open();
      }
    }

    /** sqlite3BtreeCommit. */
    method Commit(p: Btree, pagerRc: Rc) returns (rc: Rc)
      requires Valid() && p in handles
      modifies this`inTransaction, this`nTransaction, this`page1, this`pLock, p`inTrans
      ensures Valid() && rc == (if old(p.inTrans) == TRANS_WRITE then pagerRc else Ok)
      ensures rc == Ok ==> p.inTrans == TRANS_NONE && pLock == Others(old(pLock), p)
      ensures rc != Ok ==> p.inTrans == TRANS_WRITE && unchanged(this)
    {
      hide LocksOk, Held, Others;
      if p.inTrans == TRANS_WRITE {
        rc := pagerRc;
        if rc != Ok {
          return;
        }
        inTransaction := TRANS_READ;
      }
      UnlockAllTables(p);
      Leave(p);
      rc := Ok;
    }

    /** sqlite3BtreeRollback. */
    method Rollback(p: Btree)
      requires Valid() && p in handles
      modifies this`inTransaction, this`nTransaction, this`page1, this`pLock, p`inTrans
      ensures Valid() && p.inTrans == TRANS_NONE && pLock == Others(old(pLock), p) && (page1 ==> !Alone())
    {
      hide LocksOk, Held, Others;
      UnlockAllTables(p);
      if p.inTrans == TRANS_WRITE {
        inTransaction := TRANS_READ;
      }
      Leave(p);
    }

    /** A handle joins the cache. */
    method OpenHandle(readUncommitted: bool) returns (p: Btree)
      requires Valid()
      modifies this`handles, this`nRef
      ensures Valid() && fresh(p) && handles == old(handles) + {p} && p.inTrans == TRANS_NONE
              && p.readUncommitted == readUncommitted
    {
      hide LocksOk;
      ghost var was := Open();
      p := new Btree(readUncommitted);
      Plus(handles, p);
      handles, nRef := handles + {p}, nRef + 1;
      assert Open() == was;
    }

    /** sqlite3BtreeClose: the handle's cursors are closed, and what is open is rolled back. */
    method CloseHandle(p: Btree)
      requires Valid() && p in handles
      modifies this, p`inTrans
      ensures Valid() && handles == old(handles) - {p} && pLock == Others(old(pLock), p) && nRef == old(nRef) - 1
      ensures cursors == NotOf(old(cursors), p) && (nRef == 0 ==> Alone() && !page1)
    {
      hide LocksOk, Held, NotOf;
      CloseCursors(p);
      NotIn(old(cursors), p);
      assert forall c :: c in cursors ==> c != p;
      Rollback(p);
      assert forall l :: l in pLock ==> l.pBtree != p;
      Leaves(p);
    }

    /** A handle with nothing open is gone. */
    method Leaves(p: Btree)
      requires Valid() && p in handles && p.inTrans == TRANS_NONE && (page1 ==> !Alone())
      requires (forall c :: c in cursors ==> c != p) && forall l :: l in pLock ==> l.pBtree != p
      modifies this`handles, this`nRef
      ensures Valid() && handles == old(handles) - {p} && nRef == old(nRef) - 1
      ensures nRef == 0 ==> Alone() && !page1
    {
      hide LocksOk;
      ghost var was := Open();
      Plus(handles, p);
      handles, nRef := handles - {p}, nRef - 1;
      assert Open() == was;
      if nRef == 0 {
        assert handles == {};
        NoElements(cursors);
      }
    }

    /** The cursors of one handle are closed. */
    method CloseCursors(p: Btree)
      requires Valid() && p in handles
      modifies this`page1, this`cursors
      ensures Valid() && cursors == NotOf(old(cursors), p)
    {
      hide LocksOk, NotOf;
      ghost var was := cursors;
      ghost var seen := 0;
      var i := 0;
      FirstNone(was, p);
      while i < |cursors|
        invariant Valid() && i <= |cursors| && seen <= |was|
        invariant cursors[..i] == NotOf(was[..seen], p) && cursors[i..] == was[seen..]
        decreases |cursors| - i
      {
        FirstMore(was, seen, p);
        assert cursors[i] == cursors[i..][0] == was[seen];
        assert cursors[i + 1..] == cursors[i..][1..] == was[seen + 1..];
        if cursors[i] == p {
          CutAt(cursors, i);
          CloseCursor(i);
        } else {
          assert cursors[..i + 1] == cursors[..i] + [cursors[i]];
          i := i + 1;
        }
        seen := seen + 1;
      }
      assert cursors[i..] == [] && was[seen..] == [];
      assert cursors[..i] == cursors && was[..seen] == was;
    }

    /** sqlite3BtreeLockTable: the lock is given unless it would meet another handle's. */
    method BtreeLockTable(p: Btree, iTab: nat, isWriteLock: bool) returns (rc: Rc)
      requires Valid() && p in handles
      modifies this`pLock
      ensures Valid() && (rc == Ok || (rc == Locked && pLock == old(pLock)))
      ensures p.readUncommitted && !isWriteLock && iTab != MASTER_ROOT ==> rc == Ok && pLock == old(pLock)
      ensures rc == Locked <==>
                && !(p.readUncommitted && !isWriteLock && iTab != MASTER_ROOT)
                && exists l :: l in old(pLock) && l.pBtree != p && l.iTable == iTab
                               && (l.eLock == WRITE_LOCK || isWriteLock)
      ensures rc == Ok && useSharedData && isWriteLock ==> Held(pLock, p, iTab) == WRITE_LOCK
      ensures rc == Ok && useSharedData && (!p.readUncommitted || iTab == MASTER_ROOT)
              ==> Held(pLock, p, iTab) >= READ_LOCK
    {
      hide LocksOk, Held;
      var lockType := if isWriteLock then WRITE_LOCK else READ_LOCK;
      rc := QueryTableLock(p, iTab, lockType);
      if rc == Ok {
        AtMostWrite(pLock, p, iTab);
        LockTable(p, iTab, lockType);
      }
    }

    /** A cursor is opened once page 1 is there, and closed again. */
    method OpenCursor(p: Btree, attempts: seq<Attempt>) returns (rc: Rc)
      requires Valid() && p in handles && |attempts| > 0
      modifies this`inTransaction, this`nTransaction, this`page1, this`cursors, p`inTrans
      ensures Valid() && p.inTrans == old(p.inTrans) && inTransaction == old(inTransaction)
              && nTransaction == old(nTransaction)
      ensures cursors == (if rc == Ok then [p] else []) + old(cursors)
      ensures if old(page1) then rc == Ok else exists k :: Ends(attempts, false, false, true, k, rc)
    {
      hide LocksOk;
      rc := Ok;
      if !page1 {
        rc := LockBtreeWithRetry(p, attempts);
      }
      if rc == Ok {
        cursors := [p] + cursors;
      }
    }

    method CloseCursor(i: nat)
      requires Valid() && i < |cursors|
      modifies this`page1, this`cursors
      ensures Valid() && cursors == RemoveAt(old(cursors), i)
      ensures page1 == (inTransaction != TRANS_NONE || cursors != []) && (page1 ==> old(page1))
    {
      hide LocksOk;
      cursors := RemoveAt(cursors, i);
      UnlockBtreeIfUnused();
    }

    /** What btreeIntegrity asserts of a handle, and more: the counter is exact, the state is the largest of the
        handles', one handle writes at most, and a write lock on a table is the only lock there. */
    lemma {:induction false} Integrity(p: Btree)
      requires Valid() && p in handles
      ensures p.inTrans != TRANS_NONE || nTransaction < nRef
      ensures nTransaction <= nRef && (inTransaction != TRANS_NONE || nTransaction == 0) && inTransaction >= p.inTrans
      ensures nTransaction == 0 ==> inTransaction == TRANS_NONE
      ensures forall q, t :: q in handles && q != p && Held(pLock, p, t) == WRITE_LOCK ==> Held(pLock, q, t) == 0
    {
      hide LocksOk, Held;
      SubsetSize(Open(), handles);
      if p.inTrans == TRANS_NONE {
        SubsetSize(Open(), handles - {p});
      }
      SomeOpen();
      forall q, t | q in handles && q != p && Held(pLock, p, t) == WRITE_LOCK ensures Held(pLock, q, t) == 0 {
        WriteExcludes(pLock, p, q, t);
      }
    }
  }

  lemma {:induction false} Plus(s: set<Btree>, p: Btree)
    ensures |s + {p}| == |s| + (if p in s then 0 else 1) && |s - {p}| == |s| - if p in s then 1 else 0
  {
    if p in s {
      assert s + {p} == s;
    } else {
      assert s - {p} == s;
    }
  }

  /** A pager that is busy once and then gives the write lock: with a cursor open, the transaction does not begin, for
      all that the busy handler lets it try again. */
  method BusyStuck(withCursor: bool) returns (rc: Rc)
    ensures rc == if withCursor then Busy else Ok
  {
    var bt := new BtShared(false, false);
    var p := bt.OpenHandle(false);
    if withCursor {
      var _ := bt.OpenCursor(p, [Attempt(Ok, Ok)]);
    }
    rc := bt.BeginTrans(p, true, [Attempt(Ok, Busy), Attempt(Ok, Ok)]);
  }

  /** The cursors of all handles but one. */
  ghost function NotOf(cursors: seq<Btree>, p: Btree): (r: seq<Btree>) {
    if cursors == [] then []
    else NotOf(cursors[..|cursors| - 1], p) + (if cursors[|cursors| - 1] == p then [] else [cursors[|cursors| - 1]])
  }

  lemma {:induction false} NotIn(cursors: seq<Btree>, p: Btree)
    ensures forall c :: c in NotOf(cursors, p) <==> c in cursors && c != p
  {
    if cursors != [] {
      var k := |cursors| - 1;
      NotIn(cursors[..k], p);
      assert cursors == cursors[..k] + [cursors[k]];
    }
  }

  lemma {:induction false} FirstNone(cursors: seq<Btree>, p: Btree)
    ensures NotOf(cursors[..0], p) == [] == cursors[..0] && cursors[0..] == cursors
  {}

  lemma {:induction false} FirstMore(cursors: seq<Btree>, n: nat, p: Btree)
    requires n < |cursors|
    ensures NotOf(cursors[..n + 1], p) == NotOf(cursors[..n], p) + (if cursors[n] == p then [] else [cursors[n]])
  {
    assert cursors[..n + 1][..n] == cursors[..n];
  }

  lemma {:induction false} CutAt(s: seq<Btree>, i: nat)
    requires i < |s|
    ensures RemoveAt(s, i)[..i] == s[..i] && RemoveAt(s, i)[i..] == s[i + 1..]
  {}

  /** What can be asked of the cache, handles and cursors by their numbers among those open. What is asked of a handle
      or cursor that is not open is not done. */
  datatype Op =
    | OpOpen(readUncommitted: bool)
    | OpClose(h: nat)
    | OpBegin(h: nat, wrflag: bool, attempts: seq<Attempt>)
    | OpCommit(h: nat, pagerRc: Rc)
    | OpRollback(h: nat)
    | OpLock(h: nat, iTab: nat, isWriteLock: bool)
    | OpRead(h: nat, attempts: seq<Attempt>)
    | OpOpenCursor(h: nat, attempts: seq<Attempt>)
    | OpCloseCursor(c: nat)

  /** Any operations of any handles, opened and closed at any time, keep the invariant. */
  method Run(useSharedData: bool, readOnly: bool, ops: seq<Op>) returns (bt: BtShared, hs: seq<Btree>)
    ensures fresh(bt) && bt.useSharedData == useSharedData && bt.readOnly == readOnly
    ensures bt.Valid() && bt.handles == (set h | h in hs) && fresh(bt.handles)
    ensures bt.nRef == |hs| && (hs == [] ==> bt.Alone() && bt.pLock == [] && !bt.page1)
  {
    bt := new BtShared(useSharedData, readOnly);
    hs := [];
    assert bt.handles == (set h | h in hs);
    for i := 0 to |ops|
      invariant Session(bt, hs) && fresh(bt) && fresh(bt.handles)
    {
      var _, next := RunOne(bt, hs, ops[i]);
      hs := next;
    }
    NoneOpen(bt, hs);
  }

  lemma {:induction false} NoneOpen(bt: BtShared, hs: seq<Btree>)
    requires Session(bt, hs)
    ensures bt.nRef == |hs| && (hs == [] ==> bt.Alone() && bt.pLock == [])
  {
    EachOnce(hs);
    if hs == [] {
      assert bt.handles == {};
      NoElements(bt.cursors);
      NoElements(bt.pLock);
    }
  }

  lemma {:induction false} NoElements<T>(s: seq<T>)
    ensures (forall x :: x !in s) ==> s == []
  {
    assert s != [] ==> s[0] in s;
  }

  lemma {:induction false} EachOnce(hs: seq<Btree>)
    requires forall i, j :: 0 <= i < j < |hs| ==> hs[i] != hs[j]
    ensures |set h | h in hs| == |hs|
  {
    if hs != [] {
      var k := |hs| - 1;
      EachOnce(hs[..k]);
      assert (set h | h in hs) == (set h | h in hs[..k]) + {hs[k]};
    }
  }

  /** The open handles, each once. */
  ghost predicate Session(bt: BtShared, hs: seq<Btree>)
    reads bt, bt.handles
  {
    && bt.Valid() && bt.handles == (set h | h in hs) && (forall i, j :: 0 <= i < j < |hs| ==> hs[i] != hs[j])
    && (hs == [] ==> !bt.page1)
  }

  method Join(bt: BtShared, hs: seq<Btree>, readUncommitted: bool) returns (hs': seq<Btree>)
    requires Session(bt, hs)
    modifies bt
    ensures Session(bt, hs') && fresh(bt.handles - old(bt.handles))
    ensures |hs'| == |hs| + 1 && hs'[1..] == hs && fresh(hs'[0]) && hs'[0].readUncommitted == readUncommitted
  {
    hide BtShared.Transactions, BtShared.TableLocks;
    var p := bt.OpenHandle(readUncommitted);
    hs' := [p] + hs;
  }

  method Quit(bt: BtShared, hs: seq<Btree>, h: nat) returns (hs': seq<Btree>)
    requires Session(bt, hs) && h < |hs|
    modifies bt, bt.handles
    ensures Session(bt, hs') && bt.handles <= old(bt.handles) && hs' == RemoveAt(hs, h)
    ensures bt.pLock == Others(old(bt.pLock), hs[h]) && bt.cursors == NotOf(old(bt.cursors), hs[h])
  {
    hide BtShared.Transactions, BtShared.TableLocks, NotOf, Others;
    bt.CloseHandle(hs[h]);
    hs' := RemoveAt(hs, h);
    OneLess(hs, h);
    EachOnce(hs');
    assert bt.nRef == |hs'| by {
      hide Session;
      CountIs(bt);
    }
  }

  lemma {:induction false} CountIs(bt: BtShared)
    requires bt.Valid()
    ensures bt.nRef == |bt.handles|
  {}

  lemma {:induction false} OneLess(hs: seq<Btree>, h: nat)
    requires h < |hs| && forall i, j :: 0 <= i < j < |hs| ==> hs[i] != hs[j]
    ensures forall i, j :: 0 <= i < j < |hs| - 1 ==> RemoveAt(hs, h)[i] != RemoveAt(hs, h)[j]
    ensures (set x | x in RemoveAt(hs, h)) == (set x | x in hs) - {hs[h]}
  {
    forall x | x in hs && x != hs[h] ensures x in RemoveAt(hs, h) {
      var i :| 0 <= i < |hs| && hs[i] == x;
      assert RemoveAt(hs, h)[if i < h then i else i - 1] == x;
    }
  }

  /** One operation: its result, and the handles open then. */
  method RunOne(bt: BtShared, hs: seq<Btree>, op: Op) returns (rc: Rc, hs': seq<Btree>)
    requires Session(bt, hs)
    modifies bt, bt.handles
    ensures Session(bt, hs') && fresh(bt.handles - old(bt.handles))
    ensures op.OpOpen? ==> |hs'| == |hs| + 1 && hs'[1..] == hs && fresh(hs'[0])
                           && hs'[0].readUncommitted == op.readUncommitted
    ensures op.OpClose? ==> hs' == (if op.h < |hs| then RemoveAt(hs, op.h) else hs)
    ensures !op.OpOpen? && !op.OpClose? ==> hs' == hs && Done(bt, hs, op, rc)
  {
    rc, hs' := Ok, hs;
    if op.OpOpen? {
      hs' := Join(bt, hs, op.readUncommitted);
    } else if op.OpClose? {
      if op.h < |hs| {
        hs' := Quit(bt, hs, op.h);
      }
    } else {
      rc := Ask(bt, hs, op);
      assert hs == [] ==> bt.handles == {};
    }
  }

  /** What has come of an operation that could be done. */
  twostate predicate Done(bt: BtShared, hs: seq<Btree>, op: Op, rc: Rc)
    reads bt, hs
  {
    match op
    case OpBegin(h, wrflag, attempts) =>
      h < |hs| && attempts != [] && rc == Ok ==>
        hs[h].inTrans == (if wrflag || old(hs[h].inTrans) == TRANS_WRITE then TRANS_WRITE else TRANS_READ)
    case OpCommit(h, pagerRc) =>
      h < |hs| && (pagerRc == Ok || old(hs[h].inTrans) != TRANS_WRITE) ==>
        rc == Ok && hs[h].inTrans == TRANS_NONE && bt.pLock == Others(old(bt.pLock), hs[h])
    case OpRollback(h) =>
      h < |hs| ==> hs[h].inTrans == TRANS_NONE && bt.pLock == Others(old(bt.pLock), hs[h])
    case OpLock(h, iTab, isWriteLock) =>
      h < |hs| && rc == Ok && bt.useSharedData && (isWriteLock || !hs[h].readUncommitted) ==>
        Held(bt.pLock, hs[h], iTab) >= (if isWriteLock then WRITE_LOCK else READ_LOCK)
    case OpRead(h, attempts) => h < |hs| && attempts != [] && rc == Ok ==> bt.page1
    case OpOpenCursor(h, attempts) =>
      h < |hs| && attempts != [] ==> bt.cursors == (if rc == Ok then [hs[h]] else []) + old(bt.cursors)
    case OpCloseCursor(c) => c < |old(bt.cursors)| ==> bt.cursors == RemoveAt(old(bt.cursors), c)
    case _ => true
  }

  /** What does not change which handles there are. */
  method Ask(bt: BtShared, hs: seq<Btree>, op: Op) returns (rc: Rc)
    requires bt.Valid() && (forall h :: h in hs ==> h in bt.handles) && !op.OpOpen? && !op.OpClose?
    modifies bt, bt.handles
    ensures bt.Valid() && bt.handles == old(bt.handles) && (hs == [] && !old(bt.page1) ==> !bt.page1)
    ensures Done(bt, hs, op, rc)
  {
    hide BtShared.Transactions, BtShared.TableLocks, Held, Others;
    rc := Ok;
    match op
    case OpBegin(h, wrflag, attempts) =>
      if h < |hs| && attempts != [] {
        rc := bt.BeginTrans(hs[h], wrflag, attempts);
      }
    case OpCommit(h, pagerRc) =>
      if h < |hs| {
        rc := bt.Commit(hs[h], pagerRc);
      }
    case OpRollback(h) =>
      if h < |hs| {
        bt.Rollback(hs[h]);
      }
    case OpLock(h, iTab, isWriteLock) =>
      if h < |hs| {
        rc := bt.BtreeLockTable(hs[h], iTab, isWriteLock);
      }
    case OpRead(h, attempts) =>
      if h < |hs| && attempts != [] {
        rc := bt.LockBtreeWithRetry(hs[h], attempts);
      }
    case OpOpenCursor(h, attempts) =>
      if h < |hs| && attempts != [] {
        rc := bt.OpenCursor(hs[h], attempts);
      }
    case OpCloseCursor(c) =>
      if c < |bt.cursors| {
        bt.CloseCursor(c);
      }
    case _ =>
  }

  lemma {:induction false} AtMostWrite(locks: seq<BtLock>, p: Btree, iTable: nat)
    requires LocksOk(locks)
    ensures Held(locks, p, iTable) <= WRITE_LOCK
  {
    HeldAt(locks, p, iTable);
  }

  lemma {:induction false} Cut(s: seq<BtLock>, i: nat)
    requires i < |s|
    ensures (s[..i] + s[i + 1..])[..i] == s[..i] && (s[..i] + s[i + 1..])[i..] == s[i + 1..]
  {}

  lemma {:induction false} NoneYet(locks: seq<BtLock>, p: Btree)
    ensures Others(locks[..0], p) == [] == locks[..0] && locks[0..] == locks
  {}

  lemma {:induction false} OneMore(locks: seq<BtLock>, n: nat, p: Btree)
    requires n < |locks|
    ensures Others(locks[..n + 1], p) == Others(locks[..n], p) + (if locks[n].pBtree == p then [] else [locks[n]])
  {
    assert locks[..n + 1][..n] == locks[..n];
  }

  lemma {:induction false} OthersAll(locks: seq<BtLock>, p: Btree)
    requires LocksOk(locks)
    ensures LocksOk(Others(locks, p)) && forall q, t ::
                                           Held(Others(locks, p), q, t) == if q == p then 0 else Held(locks, q, t)
  {
    hide Held, LocksOk;
    OthersOk(locks, p);
    forall q, t ensures Held(Others(locks, p), q, t) == if q == p then 0 else Held(locks, q, t) {
      OthersHeld(locks, p, q, t);
    }
  }

  /** A new lock that nothing stands in the way of. */
  lemma {:induction false} Added(locks: seq<BtLock>, p: Btree, iTable: nat, eLock: LockType)
    requires LocksOk(locks) && forall j :: 0 <= j < |locks| ==> !HasLock(locks, j, p, iTable)
    requires forall l :: l in locks
                         ==> !(l.pBtree != p && l.iTable == iTable && (l.eLock != eLock || eLock != READ_LOCK))
    ensures var more := [BtLock(p, iTable, eLock)] + locks;
            LocksOk(more) && Held(locks, p, iTable) == 0
            && forall q, t :: Held(more, q, t) == if q == p && t == iTable then eLock else Held(locks, q, t)
  {
    var more := [BtLock(p, iTable, eLock)] + locks;
    HeldAt(locks, p, iTable);
    assert more[1..] == locks;
    forall i, j | 0 <= i < j < |more| ensures Compatible(more[i], more[j]) {
      assert more[j] == locks[j - 1] && !HasLock(locks, j - 1, p, iTable) && locks[j - 1] in locks;
      if i > 0 {
        assert Compatible(locks[i - 1], locks[j - 1]);
      }
    }
  }

  /** A lock that is raised, if it is, where nothing stands in the way. */
  lemma {:induction false} Raised(locks: seq<BtLock>, i: nat, p: Btree, iTable: nat, eLock: LockType)
    requires LocksOk(locks) && i < |locks| && HasLock(locks, i, p, iTable)
    requires forall l :: l in locks
                         ==> !(l.pBtree != p && l.iTable == iTable && (l.eLock != eLock || eLock != READ_LOCK))
    ensures Held(locks, p, iTable) == locks[i].eLock
    ensures eLock > locks[i].eLock ==> var more := locks[i := locks[i].(eLock := eLock)];
              && LocksOk(more)
              && forall q, t :: Held(more, q, t) == if q == p && t == iTable then eLock else Held(locks, q, t)
  {
    HeldAt(locks, p, iTable);
    if eLock > locks[i].eLock {
      var more := locks[i := locks[i].(eLock := eLock)];
      forall a, b | 0 <= a < b < |more| ensures Compatible(more[a], more[b]) {
        assert Compatible(locks[a], locks[b]) && locks[a] in locks && locks[b] in locks;
      }
      forall q, t ensures Held(more, q, t) == if q == p && t == iTable then eLock else Held(locks, q, t) {
        SameOthers(locks, more, i, q, t);
        HeldAt(more, p, iTable);
        assert HasLock(more, i, p, iTable);
      }
    }
  }

  /** Another strength of one lock does not matter to other handles and tables. */
  lemma {:induction false} SameOthers(locks: seq<BtLock>, more: seq<BtLock>, i: nat, q: Btree, t: nat)
    requires i < |locks| == |more| && more == locks[i := locks[i].(eLock := more[i].eLock)]
    ensures !(q == locks[i].pBtree && t == locks[i].iTable) ==> Held(more, q, t) == Held(locks, q, t)
  {
    if i > 0 {
      SameOthers(locks[1..], more[1..], i - 1, q, t);
    } else {
      assert more[1..] == locks[1..];
    }
  }
}
