/**
 * The resource roots shared by all threads. A step is what one thread does between taking and giving back the
 * locks, so a run is any interleaving of such steps.
 */
module Roots {
  import opened Common
  import opened HandlePacking
  import opened RootPool

  type Rid = nat

  const MAX_NUM_ROOTS: nat := 1024

  /** The pool of roots, the handle count of each, the number of roots allocated, and the handles issued so far. */
  datatype State = State(pool: Pool<Rid>, rrv: map<Rid, nat>, count: nat, issued: seq<Handle>)

  datatype Action =
    | Take(t: Thread)
    | GiveBack(t: Thread)
    | Install(t: Thread)
    | Release(t: Thread, rid: Rid)
    | Lock(t: Thread, rid: Rid)
    | Unlock(t: Thread, rid: Rid)
    | Next(t: Thread, rid: Rid)

  datatype Reply = Done | InvalidHandle | TooManyConnections | Timeout

  const INITIAL := State(Pool(map[], [], map[]), map[], 0, [])

  /** A step can be taken when the thread is there in its code and the locks it waits for are free. */
  predicate Enabled(s: State, a: Action) {
    var p := s.pool;
    match a
    case Take(t) => t !in p.taken
    case GiveBack(t) => t in p.taken
    case Install(t) => t in p.taken && p.taken[t] in p.roots && p.roots[p.taken[t]].lock == None
    case Release(t, r) => t !in p.taken && (r in p.roots ==> p.roots[r].lock == None)
    case Lock(t, r) => t !in p.taken
    case Unlock(t, r) => t !in p.taken
    case Next(t, r) => t !in p.taken && r in p.roots && p.roots[r].live && r in s.rrv
  }

  /** The first half of acquiring: a root from the free list, or else a new one. */
  function DoTake(s: State, t: Thread): (State, Reply) {
    if s.pool.free != [] then
      (s.(pool := TakeFree(s.pool, t)), Done)
    else if s.count < MAX_NUM_ROOTS then
      (s.(pool := TakeNew(s.pool, t, s.count), rrv := s.rrv[s.count := 0], count := s.count + 1), Done)
    else
      (s, TooManyConnections)
  }

  function DoRelease(s: State, r: Rid): (State, Reply) {
    if r !in s.pool.roots || !s.pool.roots[r].live then
      (s, InvalidHandle)
    else
      (s.(pool := RootPool.Release(s.pool, r)), Done)
  }

  function DoLock(s: State, t: Thread, r: Rid): (State, Reply) {
    if r !in s.pool.roots then (s, InvalidHandle)
    else if s.pool.roots[r].lock != None then (s, Timeout)
    else if !s.pool.roots[r].live then (s, InvalidHandle)
    else (s.(pool := SetLock(s.pool, r, Some(t))), Done)
  }

  /** The lock is given back whichever thread holds it. */
  function DoUnlock(s: State, r: Rid): (State, Reply) {
    if r !in s.pool.roots then (s, InvalidHandle)
    else (s.(pool := SetLock(s.pool, r, None)), Done)
  }

  function DoNext(s: State, r: Rid): (State, Reply)
    requires r in s.rrv
  {
    (s.(rrv := s.rrv[r := s.rrv[r] + 1], issued := s.issued + [Make(r, s.rrv[r] + 1)]), Done)
  }

  function Do(s: State, a: Action): (State, Reply)
    requires Enabled(s, a)
  {
    match a
    case Take(t) => DoTake(s, t)
    case GiveBack(t) => (s.(pool := RootPool.GiveBack(s.pool, t)), Done)
    case Install(t) => (s.(pool := RootPool.Install(s.pool, t)), Done)
    case Release(t, r) => DoRelease(s, r)
    case Lock(t, r) => DoLock(s, t, r)
    case Unlock(t, r) => DoUnlock(s, r)
    case Next(t, r) => DoNext(s, r)
  }

  /** The roots have the numbers below the count, and each has a handle count. */
  ghost predicate Numbered(s: State) {
    && s.count <= MAX_NUM_ROOTS && s.rrv.Keys == s.pool.roots.Keys
    && forall r: nat :: r in s.rrv <==> r < s.count
  }

  /** The root r has issued h. */
  ghost predicate Issuer(rrv: map<Rid, nat>, r: Rid, h: Handle) {
    r in rrv && IssuedBy(r, rrv[r], h)
  }

  /** The handles issued are those of the counts of each root so far. */
  ghost predicate Tallied(rrv: map<Rid, nat>, issued: seq<Handle>) {
    && (forall h :: h in issued ==> exists r :: Issuer(rrv, r, h))
    && (forall r, h :: Issuer(rrv, r, h) ==> h in issued)
  }

  /** No root has counted past 2^48. */
  predicate CountsFit(rrv: map<Rid, nat>) {
    forall r :: r in rrv ==> rrv[r] <= IDS
  }

  ghost predicate Safe(s: State) {
    Numbered(s) && Partitioned(s.pool)
  }

  lemma NoDuplicatesAdd<T>(s: seq<T>, x: T)
    ensures NoDuplicates(s + [x]) <==> NoDuplicates(s) && x !in s
  {
    var t := s + [x];
    if NoDuplicates(t) {
      forall i, j | 0 <= i < j < |s| ensures s[i] != s[j] { assert t[i] != t[j]; }
      forall i | 0 <= i < |s| ensures s[i] != x { assert t[i] != t[|s|]; }
    }
  }

  /** Handles of different roots differ. */
  lemma RootsDiffer(r: Rid, n: nat, q: Rid, m: nat, h: Handle)
    requires r < MAX_NUM_ROOTS && q < MAX_NUM_ROOTS && IssuedBy(r, n, h) && IssuedBy(q, m, h)
    ensures r == q
  {
    var i :| 1 <= i <= n && Make(r, i) == h;
    var j :| 1 <= j <= m && Make(q, j) == h;
    MakeEqual(r, i, q, j);
  }

  ghost predicate BelowMax(rrv: map<Rid, nat>) {
    forall r :: r in rrv ==> r < MAX_NUM_ROOTS
  }

  /** The next handle of a root was issued before exactly when its count has reached 2^48. */
  lemma NextInTally(rrv: map<Rid, nat>, issued: seq<Handle>, r: Rid)
    requires BelowMax(rrv) && Tallied(rrv, issued) && r in rrv
    ensures Make(r, rrv[r] + 1) in issued <==> rrv[r] >= IDS
  {
    var next := Make(r, rrv[r] + 1);
    NextIsNew(r, rrv[r]);
    assert IssuedBy(r, rrv[r], next) ==> Issuer(rrv, r, next);
    if next in issued {
      var q :| Issuer(rrv, q, next);
      assert 1 <= rrv[r] + 1 <= rrv[r] + 1;
      RootsDiffer(r, rrv[r] + 1, q, rrv[q], next);
    }
  }

  lemma NextTallies(rrv: map<Rid, nat>, issued: seq<Handle>, r: Rid)
    requires Tallied(rrv, issued) && r in rrv
    ensures Tallied(rrv[r := rrv[r] + 1], issued + [Make(r, rrv[r] + 1)])
  {
    var next, now := Make(r, rrv[r] + 1), rrv[r := rrv[r] + 1];
    forall h | h in issued + [next] ensures exists q :: Issuer(now, q, h) {
      var q := r;
      if h in issued { q :| Issuer(rrv, q, h); }
      IssuedByNext(r, rrv[r], h);
      assert Issuer(now, q, h);
    }
    forall q, h | Issuer(now, q, h) ensures h in issued + [next] {
      IssuedByNext(r, rrv[r], h);
      assert Issuer(rrv, q, h) || h == next;
    }
  }

  lemma NewRootTallies(rrv: map<Rid, nat>, issued: seq<Handle>, r: Rid)
    requires Tallied(rrv, issued) && r !in rrv
    ensures Tallied(rrv[r := 0], issued)
  {
    var now := rrv[r := 0];
    forall h | h in issued ensures exists q :: Issuer(now, q, h) {
      var q :| Issuer(rrv, q, h);
      assert Issuer(now, q, h);
    }
    forall q, h | Issuer(now, q, h) ensures h in issued { assert Issuer(rrv, q, h); }
  }

  /** The handles issued are distinct exactly when no root has counted past 2^48. */
  ghost predicate Distinct(rrv: map<Rid, nat>, issued: seq<Handle>) {
    Tallied(rrv, issued) && (NoDuplicates(issued) <==> CountsFit(rrv))
  }

  lemma NextKeepsDistinct(rrv: map<Rid, nat>, issued: seq<Handle>, r: Rid)
    requires BelowMax(rrv) && Distinct(rrv, issued) && r in rrv
    ensures Distinct(rrv[r := rrv[r] + 1], issued + [Make(r, rrv[r] + 1)])
  {
    NextTallies(rrv, issued, r);
    NextInTally(rrv, issued, r);
    NoDuplicatesAdd(issued, Make(r, rrv[r] + 1));
    CountsStep(rrv, r);
  }

  lemma CountsStep(rrv: map<Rid, nat>, r: Rid)
    requires r in rrv
    ensures CountsFit(rrv[r := rrv[r] + 1]) <==> CountsFit(rrv) && rrv[r] < IDS
  {
    var now := rrv[r := rrv[r] + 1];
    if CountsFit(now) {
      assert now[r] == rrv[r] + 1;
      forall q | q in rrv ensures rrv[q] <= IDS { assert q in now && now[q] <= IDS; }
    }
  }

  lemma NewRootKeepsDistinct(rrv: map<Rid, nat>, issued: seq<Handle>, r: Rid)
    requires Distinct(rrv, issued) && r !in rrv
    ensures Distinct(rrv[r := 0], issued)
  {
    NewRootTallies(rrv, issued, r);
    var now := rrv[r := 0];
    if CountsFit(now) {
      forall q | q in rrv ensures rrv[q] <= IDS { assert q in now && now[q] == rrv[q]; }
    }
  }

  lemma TakeKeeps(s: State, t: Thread)
    requires Safe(s) && t !in s.pool.taken
    ensures Safe(DoTake(s, t).0)
  {
    if s.pool.free != [] {
      TakeFreeKeeps(s.pool, t);
    } else if s.count < MAX_NUM_ROOTS {
      TakeNewKeeps(s.pool, t, s.count);
    }
  }

  /** Every step keeps each root free once, taken by one thread, or in use. */
  lemma DoKeepsSafe(s: State, a: Action)
    requires Safe(s) && Enabled(s, a)
    ensures Safe(Do(s, a).0)
  {
    match a {
      case Take(t) => TakeKeeps(s, t);
      case GiveBack(t) => GiveBackKeeps(s.pool, t);
      case Install(t) => InstallKeeps(s.pool, t);
      case Release(t, r) => if r in s.pool.roots && s.pool.roots[r].live { ReleaseKeeps(s.pool, r); }
      case Lock(t, r) => if DoLock(s, t, r).1 == Done { SetLockKeeps(s.pool, r, Some(t)); }
      case Unlock(t, r) => if r in s.pool.roots { SetLockKeeps(s.pool, r, None); }
      case Next(t, r) => assert s.rrv[r := s.rrv[r] + 1].Keys == s.rrv.Keys;
    }
  }

  /** After every step the handles issued are distinct exactly when no root has counted past 2^48. */
  lemma DoKeepsDistinct(s: State, a: Action)
    requires Safe(s) && Distinct(s.rrv, s.issued) && Enabled(s, a)
    ensures Distinct(Do(s, a).0.rrv, Do(s, a).0.issued)
  {
    match a {
      case Next(t, r) => NextKeepsDistinct(s.rrv, s.issued, r);
      case Take(t) =>
        if s.pool.free == [] && s.count < MAX_NUM_ROOTS { NewRootKeepsDistinct(s.rrv, s.issued, s.count); }
      case _ =>
    }
  }

  /** A run: the states between the steps of any threads, from the start. */
  ghost predicate IsRun(ss: seq<State>, acts: seq<Action>) {
    && |ss| == |acts| + 1 && ss[0] == INITIAL
    && forall i :: 0 <= i < |acts| ==> Enabled(ss[i], acts[i]) && ss[i + 1] == Do(ss[i], acts[i]).0
  }

  /** In every state of every run each root is free once, taken by one thread, or in use. */
  lemma {:induction false} RunSafe(ss: seq<State>, acts: seq<Action>, i: int)
    requires IsRun(ss, acts) && 0 <= i <= |acts|
    ensures Safe(ss[i])
    decreases i
  {
    if i == 0 {
    } else {
      RunSafe(ss, acts, i - 1);
      assert ss[i - 1 + 1] == Do(ss[i - 1], acts[i - 1]).0;
      DoKeepsSafe(ss[i - 1], acts[i - 1]);
    }
  }

  lemma {:induction false} RunTallies(ss: seq<State>, acts: seq<Action>, i: int)
    requires IsRun(ss, acts) && 0 <= i <= |acts|
    ensures Distinct(ss[i].rrv, ss[i].issued)
    decreases i
  {
    if i == 0 {
    } else {
      RunTallies(ss, acts, i - 1);
      RunSafe(ss, acts, i - 1);
      assert ss[i - 1 + 1] == Do(ss[i - 1], acts[i - 1]).0;
      DoKeepsDistinct(ss[i - 1], acts[i - 1]);
    }
  }

  /** Through any recycling of roots, the handles of a run are distinct exactly when no root has counted past 2^48. */
  lemma RunDistinct(ss: seq<State>, acts: seq<Action>, i: int)
    requires IsRun(ss, acts) && 0 <= i <= |acts|
    ensures NoDuplicates(ss[i].issued) <==> CountsFit(ss[i].rrv)
  {
    RunTallies(ss, acts, i);
  }

  predicate InUse(s: State, r: Rid) {
    r in s.pool.roots && s.pool.roots[r].live
  }

  /** The step hands root r to the thread that acquires it. */
  predicate HandsOut(s: State, a: Action, r: Rid) {
    a.Install? && a.t in s.pool.taken && s.pool.taken[a.t] == r
  }

  predicate Releases(a: Action, r: Rid) {
    a.Release? && a.rid == r
  }

  /** A root in use stays in use and is handed to no one until a release of it. */
  lemma StepExclusive(s: State, a: Action, r: Rid)
    requires Safe(s) && Enabled(s, a) && InUse(s, r) && !Releases(a, r)
    ensures InUse(Do(s, a).0, r) && !HandsOut(s, a, r) && r !in s.pool.free && !Held(s.pool, r)
  {
    if a.Take? && s.pool.free == [] { assert s.count !in s.rrv; }
  }

  lemma {:induction false} Exclusive(ss: seq<State>, acts: seq<Action>, i: int, j: int, r: Rid)
    requires IsRun(ss, acts) && 0 <= i <= j <= |acts| && InUse(ss[i], r)
    requires forall k :: i <= k < j ==> !Releases(acts[k], r)
    ensures InUse(ss[j], r) && forall k :: i <= k < j ==> !HandsOut(ss[k], acts[k], r)
    decreases j
  {
    if i >= j {
    } else {
      Exclusive(ss, acts, i, j - 1, r);
      RunSafe(ss, acts, j - 1);
      StepExclusive(ss[j - 1], acts[j - 1], r);
      assert ss[j - 1 + 1] == Do(ss[j - 1], acts[j - 1]).0;
    }
  }

  /** A root not in use stays so until it is handed out. */
  lemma StepUnused(s: State, a: Action, r: Rid)
    requires Safe(s) && Enabled(s, a) && !InUse(s, r) && !HandsOut(s, a, r)
    ensures !InUse(Do(s, a).0, r)
  {
  }

  lemma {:induction false} Unused(ss: seq<State>, acts: seq<Action>, i: int, j: int, r: Rid)
    requires IsRun(ss, acts) && 0 <= i <= j <= |acts| && !InUse(ss[i], r)
    requires forall k :: i <= k < j ==> !HandsOut(ss[k], acts[k], r)
    ensures !InUse(ss[j], r)
    decreases j
  {
    if i >= j {
    } else {
      Unused(ss, acts, i, j - 1, r);
      RunSafe(ss, acts, j - 1);
      StepUnused(ss[j - 1], acts[j - 1], r);
      assert ss[j - 1 + 1] == Do(ss[j - 1], acts[j - 1]).0;
    }
  }

  /** A second release of a root that was not handed out in between is rejected and changes nothing. */
  lemma SecondReleaseRejected(ss: seq<State>, acts: seq<Action>, i: int, j: int, r: Rid)
    requires IsRun(ss, acts) && 0 <= i < j < |acts| && Releases(acts[i], r) && Releases(acts[j], r)
    requires forall k :: i < k < j ==> !HandsOut(ss[k], acts[k], r)
    ensures Enabled(ss[j], acts[j]) && Do(ss[j], acts[j]) == (ss[j], InvalidHandle)
  {
    assert ss[i + 1] == Do(ss[i], acts[i]).0;
    Unused(ss, acts, i + 1, j, r);
  }

  /** While a thread holds the lock of a root, the root keeps its interface. */
  lemma LockedInUse(ss: seq<State>, acts: seq<Action>, i: int, r: Rid)
    requires IsRun(ss, acts) && 0 <= i <= |acts| && r in ss[i].pool.roots && ss[i].pool.roots[r].lock != None
    ensures InUse(ss[i], r)
  {
    RunSafe(ss, acts, i);
  }

  predicate HoldsLock(s: State, t: Thread, r: Rid) {
    r in s.pool.roots && s.pool.roots[r].lock == Some(t)
  }

  predicate Unlocks(a: Action, r: Rid) {
    a.Unlock? && a.rid == r
  }

  /** The step gives thread t the lock of root r. */
  predicate Locks(s: State, a: Action, t: Thread, r: Rid) {
    a == Lock(t, r) && Enabled(s, a) && Do(s, a).1 == Done
  }

  lemma LocksHolds(s: State, a: Action, t: Thread, r: Rid)
    requires Locks(s, a, t, r)
    ensures HoldsLock(Do(s, a).0, t, r)
  {
  }

  /** Without another lock of it by t, a step leaves t the lock of r unless some thread unlocks r. */
  lemma StepLocked(s: State, a: Action, t: Thread, r: Rid)
    requires Safe(s) && Enabled(s, a) && a != Lock(t, r)
    ensures HoldsLock(Do(s, a).0, t, r) <==> HoldsLock(s, t, r) && !Unlocks(a, r)
  {
    if a.Take? && s.pool.free == [] { assert s.count !in s.rrv; }
  }

  /** At every step from the one after i to the one before j, t keeps the lock unless some thread unlocks r. */
  ghost predicate OnlyUnlocked(ss: seq<State>, acts: seq<Action>, i: int, j: int, t: Thread, r: Rid)
    requires 0 <= i < j <= |acts| < |ss|
  {
    forall k :: i < k < j ==> (HoldsLock(ss[k + 1], t, r) <==> HoldsLock(ss[k], t, r) && !Unlocks(acts[k], r))
  }

  lemma {:induction false} HeldUntilUnlocked(ss: seq<State>, acts: seq<Action>, i: int, j: int, t: Thread, r: Rid)
    requires 0 <= i < j <= |acts| < |ss| && HoldsLock(ss[i + 1], t, r) && OnlyUnlocked(ss, acts, i, j, t, r)
    ensures HoldsLock(ss[j], t, r) <==> forall k :: i < k < j ==> !Unlocks(acts[k], r)
    decreases j
  {
    if i + 1 >= j {
    } else {
      HeldUntilUnlocked(ss, acts, i, j - 1, t, r);
      assert HoldsLock(ss[j - 1 + 1], t, r) <==> HoldsLock(ss[j - 1], t, r) && !Unlocks(acts[j - 1], r);
    }
  }

  /** The thread that locked a root and has not locked it again has the lock exactly if no thread unlocked the root. */
  lemma LockKept(ss: seq<State>, acts: seq<Action>, i: int, j: int, t: Thread, r: Rid)
    requires IsRun(ss, acts) && 0 <= i < j <= |acts| && Locks(ss[i], acts[i], t, r)
    requires forall k :: i < k < j ==> acts[k] != Lock(t, r)
    ensures HoldsLock(ss[j], t, r) <==> forall k :: i < k < j ==> !Unlocks(acts[k], r)
  {
    LocksHolds(ss[i], acts[i], t, r);
    forall k | i < k < j ensures HoldsLock(ss[k + 1], t, r) <==> HoldsLock(ss[k], t, r) && !Unlocks(acts[k], r) {
      RunSafe(ss, acts, k);
      StepLocked(ss[k], acts[k], t, r);
    }
    HeldUntilUnlocked(ss, acts, i, j, t, r);
  }

  /** While no thread unlocks it, a root that was locked can be neither released nor locked. */
  lemma LockProtects(ss: seq<State>, acts: seq<Action>, i: int, j: int, t: Thread, r: Rid)
    requires IsRun(ss, acts) && 0 <= i < j <= |acts| && Locks(ss[i], acts[i], t, r)
    requires forall k :: i < k < j ==> acts[k] != Lock(t, r) && !Unlocks(acts[k], r)
    ensures InUse(ss[j], r) && forall u :: !Enabled(ss[j], Release(u, r)) && DoLock(ss[j], u, r).1 == Timeout
  {
    LockKept(ss, acts, i, j, t, r);
    LockedInUse(ss, acts, j, r);
  }

  /** A run in which a root is released while the thread that locked it has not unlocked it. */
  lemma LockUndone()
    ensures exists ss, acts :: IsRun(ss, acts) && |acts| == 5 && Locks(ss[2], acts[2], 0, 0) && !InUse(ss[5], 0)
                               && forall k :: 0 <= k < 5 ==> acts[k] != Unlock(0, 0)
  {
    var acts := [Take(0), Install(0), Lock(0, 0), Unlock(1, 0), Release(1, 0)];
    var s1 := Do(INITIAL, acts[0]).0;
    var s2 := Do(s1, acts[1]).0;
    var s3 := Do(s2, acts[2]).0;
    var s4 := Do(s3, acts[3]).0;
    var s5 := Do(s4, acts[4]).0;
    assert IsRun([INITIAL, s1, s2, s3, s4, s5], acts);
  }

  // ---- which root a thread gets ----

  /** A thread has taken the root, or it is in use. */
  ghost predicate Busy(s: State, r: Rid) {
    InUse(s, r) || exists t :: t in s.pool.taken && s.pool.taken[t] == r
  }

  /** The root has been numbered and is not busy. */
  ghost predicate Idle(s: State, r: Rid) {
    r in s.pool.roots && !Busy(s, r)
  }

  /** The step gives back root r: the thread that took it makes nothing of it, or it is released. */
  predicate GivesBack(s: State, a: Action, r: Rid) {
    (a.GiveBack? && a.t in s.pool.taken && s.pool.taken[a.t] == r) || (Releases(a, r) && InUse(s, r))
  }

  lemma IdleIsFree(s: State, r: Rid)
    requires Safe(s)
    ensures Idle(s, r) <==> r in s.pool.free
  {
    assert Busy(s, r) <==> InUse(s, r) || Held(s.pool, r);
  }

  lemma AllBusy(s: State)
    requires Safe(s)
    ensures s.pool.free == [] <==> forall r :: r in s.pool.roots ==> Busy(s, r)
  {
    if s.pool.free == [] {
      forall r | r in s.pool.roots ensures Busy(s, r) { IdleIsFree(s, r); }
    } else {
      IdleIsFree(s, s.pool.free[0]);
    }
  }

  /** In every run, acquiring fails exactly if there are 1024 roots and all are busy; then nothing changes. */
  lemma TakeFails(ss: seq<State>, acts: seq<Action>, i: int, t: Thread)
    requires IsRun(ss, acts) && 0 <= i <= |acts| && t !in ss[i].pool.taken
    ensures Enabled(ss[i], Take(t))
    ensures Do(ss[i], Take(t)).1 == Done || Do(ss[i], Take(t)) == (ss[i], TooManyConnections)
    ensures Do(ss[i], Take(t)).1 == TooManyConnections <==> forall r: nat :: r < 1024 ==> Busy(ss[i], r)
  {
    RunSafe(ss, acts, i);
    AllBusy(ss[i]);
    var s := ss[i];
    if forall r: nat :: r < 1024 ==> Busy(s, r) {
      assert Busy(s, 1023);
      assert 1023 in s.pool.roots;
    }
  }

  /** Otherwise the thread gets an idle root as it is, or the next number exactly if there is none. */
  lemma TakeGives(ss: seq<State>, acts: seq<Action>, i: int, t: Thread) returns (r: Rid)
    requires IsRun(ss, acts) && 0 <= i <= |acts| && t !in ss[i].pool.taken
    requires Do(ss[i], Take(t)).1 == Done
    ensures var s, s' := ss[i], Do(ss[i], Take(t)).0;
            && s'.pool.taken == s.pool.taken[t := r] && s'.issued == s.issued && !Busy(s, r)
            && (if exists q :: Idle(s, q) then Idle(s, r) && s'.pool.roots == s.pool.roots && s'.rrv == s.rrv
                else r == s.count && s'.count == r + 1 && s'.rrv == s.rrv[r := 0])
  {
    var s := ss[i];
    RunSafe(ss, acts, i);
    AllBusy(s);
    if s.pool.free != [] {
      r := s.pool.free[0];
      IdleIsFree(s, r);
    } else {
      r := s.count;
      assert r !in s.rrv;
      forall q ensures !Idle(s, q) { IdleIsFree(s, q); }
    }
  }

  /** r is on the free list, and every root before it was given back after step i. */
  ghost predicate FreeBelow(ss: seq<State>, acts: seq<Action>, i: int, j: int, r: Rid, p: nat)
    requires 0 <= i < j <= |acts| < |ss|
  {
    && p < |ss[j].pool.free| && ss[j].pool.free[p] == r
    && forall m :: 0 <= m < p ==> GivenBetween(ss, acts, i, j, ss[j].pool.free[m])
  }

  ghost predicate GivenBetween(ss: seq<State>, acts: seq<Action>, i: int, j: int, q: Rid)
    requires 0 <= i < j <= |acts| < |ss|
  {
    exists k :: i < k < j && GivesBack(ss[k], acts[k], q)
  }

  /** A step leaves the free list, takes its first root, or puts the root it gives back in front. */
  lemma FreeChanges(s: State, a: Action, f: seq<Rid>)
    requires Safe(s) && Enabled(s, a) && f == Do(s, a).0.pool.free
    ensures || f == s.pool.free
            || (s.pool.free != [] && f == s.pool.free[1..])
            || (f != [] && f[1..] == s.pool.free && GivesBack(s, a, f[0]))
    ensures forall r :: GivesBack(s, a, r) ==> f != [] && f[0] == r && f[1..] == s.pool.free
  {
  }

  lemma GivenLonger(ss: seq<State>, acts: seq<Action>, i: int, j: int, q: Rid)
    requires 0 <= i < j < |acts| < |ss| && GivenBetween(ss, acts, i, j, q)
    ensures GivenBetween(ss, acts, i, j + 1, q)
  {
  }

  lemma FreeBelowNext(ss: seq<State>, acts: seq<Action>, i: int, j: int, r: Rid, p: nat) returns (p': nat)
    requires 0 <= i < j < |acts| < |ss| && FreeBelow(ss, acts, i, j, r, p)
    requires Safe(ss[j]) && Enabled(ss[j], acts[j]) && ss[j + 1] == Do(ss[j], acts[j]).0 && r in ss[j + 1].pool.free
    ensures FreeBelow(ss, acts, i, j + 1, r, p')
  {
    var f, f' := ss[j].pool.free, ss[j + 1].pool.free;
    FreeChanges(ss[j], acts[j], f');
    forall m | 0 <= m < p ensures GivenBetween(ss, acts, i, j + 1, f[m]) {
      assert GivenBetween(ss, acts, i, j, f[m]);
      GivenLonger(ss, acts, i, j, f[m]);
    }
    if f' == f {
      p' := p;
    } else if f' != [] && f'[1..] == f && GivesBack(ss[j], acts[j], f'[0]) {
      p' := p + 1;
      assert GivenBetween(ss, acts, i, j + 1, f'[0]);
      forall m | 0 <= m < p' ensures GivenBetween(ss, acts, i, j + 1, f'[m]) {
        if m > 0 { assert f'[m] == f[m - 1]; }
      }
    } else {
      p' := p - 1;
      forall m | 0 <= m < p' ensures GivenBetween(ss, acts, i, j + 1, f'[m]) { assert f'[m] == f[m + 1]; }
    }
  }

  /** A root that was given back and has been idle since is below roots given back later only. */
  lemma {:induction false} GivenIsBelow(ss: seq<State>, acts: seq<Action>, i: int, j: int, r: Rid) returns (p: nat)
    requires IsRun(ss, acts) && 0 <= i < j <= |acts| && GivesBack(ss[i], acts[i], r)
    requires forall k :: i < k <= j ==> Idle(ss[k], r)
    ensures FreeBelow(ss, acts, i, j, r, p)
    decreases j
  {
    RunSafe(ss, acts, j - 1);
    RunSafe(ss, acts, j);
    assert ss[j - 1 + 1] == Do(ss[j - 1], acts[j - 1]).0;
    IdleIsFree(ss[j], r);
    if i + 1 >= j {
      FreeChanges(ss[i], acts[i], ss[j].pool.free);
      p := 0;
    } else {
      p := GivenIsBelow(ss, acts, i, j - 1, r);
      p := FreeBelowNext(ss, acts, i, j - 1, r, p);
    }
  }

  /** Of the roots that were given back and are idle, a thread gets the one given back last. */
  lemma TakesLast(ss: seq<State>, acts: seq<Action>, i: int, j: int, r: Rid, t: Thread)
    requires IsRun(ss, acts) && 0 <= i < j <= |acts| && t !in ss[j].pool.taken
    requires GivesBack(ss[i], acts[i], r) && forall k :: i < k <= j ==> Idle(ss[k], r)
    requires forall k, q :: i < k < j && GivesBack(ss[k], acts[k], q) ==> !Idle(ss[j], q)
    ensures Do(ss[j], Take(t)).1 == Done && Do(ss[j], Take(t)).0.pool.taken == ss[j].pool.taken[t := r]
  {
    var p := GivenIsBelow(ss, acts, i, j, r);
    RunSafe(ss, acts, j);
    if p > 0 {
      var q := ss[j].pool.free[0];
      assert GivenBetween(ss, acts, i, j, q);
      IdleIsFree(ss[j], q);
    }
  }

  // ---- what a thread can do, and what is answered ----

  /** No thread waits in vain: only a release waits, and only for a thread that holds the lock of the root. */
  lemma ThreadsGoOn(ss: seq<State>, acts: seq<Action>, i: int, t: Thread)
    requires IsRun(ss, acts) && 0 <= i <= |acts|
    ensures t in ss[i].pool.taken ==> Enabled(ss[i], Install(t)) && Enabled(ss[i], GiveBack(t))
    ensures t !in ss[i].pool.taken ==> Enabled(ss[i], Take(t))
    ensures t !in ss[i].pool.taken ==> forall r :: Enabled(ss[i], Lock(t, r)) && Enabled(ss[i], Unlock(t, r))
    ensures t !in ss[i].pool.taken ==>
              forall r :: Enabled(ss[i], Release(t, r)) <==> forall u :: !HoldsLock(ss[i], u, r)
  {
    var s := ss[i];
    RunSafe(ss, acts, i);
    forall r ensures (r in s.pool.roots && s.pool.roots[r].lock != None) <==> exists u :: HoldsLock(s, u, r) {
      if r in s.pool.roots && s.pool.roots[r].lock != None { assert HoldsLock(s, s.pool.roots[r].lock.value, r); }
    }
  }

  /** A lock is granted exactly if the root is in use and no thread holds it; a held one asks to come back. */
  lemma LockAnswers(ss: seq<State>, acts: seq<Action>, i: int, t: Thread, r: Rid)
    requires IsRun(ss, acts) && 0 <= i <= |acts| && t !in ss[i].pool.taken
    ensures var s, answer := ss[i], Do(ss[i], Lock(t, r)).1;
            && (answer == Done <==> InUse(s, r) && forall u :: !HoldsLock(s, u, r))
            && (answer == Timeout <==> exists u :: HoldsLock(s, u, r))
            && (answer != Done ==> Do(s, Lock(t, r)).0 == s)
  {
    var s := ss[i];
    RunSafe(ss, acts, i);
    if r in s.pool.roots && s.pool.roots[r].lock != None { assert HoldsLock(s, s.pool.roots[r].lock.value, r); }
  }

  /** A release succeeds exactly if the root is in use, which is then idle and has the count it had. */
  lemma ReleaseAnswers(ss: seq<State>, acts: seq<Action>, i: int, t: Thread, r: Rid)
    requires IsRun(ss, acts) && 0 <= i <= |acts| && Enabled(ss[i], Release(t, r))
    ensures var s, (s', answer) := ss[i], Do(ss[i], Release(t, r));
            && (answer == Done <==> InUse(s, r)) && s'.rrv == s.rrv
            && (if answer == Done then Idle(s', r) else answer == InvalidHandle && s' == s)
  {
    RunSafe(ss, acts, i);
    StepSafeRelease(ss[i], t, r);
  }

  lemma StepSafeRelease(s: State, t: Thread, r: Rid)
    requires Safe(s) && Enabled(s, Release(t, r))
    ensures InUse(s, r) ==> Idle(Do(s, Release(t, r)).0, r)
  {
    if InUse(s, r) {
      DoKeepsSafe(s, Release(t, r));
      IdleIsFree(Do(s, Release(t, r)).0, r);
    }
  }

  /** A thread that took a root can have it in use, and then has taken none. */
  lemma InstallAnswers(ss: seq<State>, acts: seq<Action>, i: int, t: Thread)
    requires IsRun(ss, acts) && 0 <= i <= |acts| && t in ss[i].pool.taken
    ensures Enabled(ss[i], Install(t))
    ensures var s, s' := ss[i], Do(ss[i], Install(t)).0;
            InUse(s', s.pool.taken[t]) && s'.pool.taken == s.pool.taken - {t} && s'.rrv == s.rrv
  {
    RunSafe(ss, acts, i);
  }
}
