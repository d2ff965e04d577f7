/** The pool of roots: which are free, which a thread has taken, and which have an interface. */
module RootPool {
  import opened Common

  type Thread = nat

  /** A root has an interface or not; some thread may hold its lock. */
  datatype Root = Root(live: bool, lock: Option<Thread>)

  datatype Pool<R> = Pool(roots: map<R, Root>, free: seq<R>, taken: map<Thread, R>)

  function TakeFree<R>(p: Pool<R>, t: Thread): Pool<R>
    requires p.free != []
  {
    p.(free := p.free[1..], taken := p.taken[t := p.free[0]])
  }

  function TakeNew<R>(p: Pool<R>, t: Thread, r: R): Pool<R> {
    p.(roots := p.roots[r := Root(false, None)], taken := p.taken[t := r])
  }

  function GiveBack<R>(p: Pool<R>, t: Thread): Pool<R>
    requires t in p.taken
  {
    p.(free := [p.taken[t]] + p.free, taken := p.taken - {t})
  }

  function Install<R>(p: Pool<R>, t: Thread): Pool<R>
    requires t in p.taken && p.taken[t] in p.roots
  {
    p.(roots := p.roots[p.taken[t] := p.roots[p.taken[t]].(live := true)], taken := p.taken - {t})
  }

  function Release<R>(p: Pool<R>, r: R): Pool<R>
    requires r in p.roots
  {
    p.(free := [r] + p.free, roots := p.roots[r := p.roots[r].(live := false)])
  }

  function SetLock<R>(p: Pool<R>, r: R, lock: Option<Thread>): Pool<R>
    requires r in p.roots
  {
    p.(roots := p.roots[r := p.roots[r].(lock := lock)])
  }

  ghost predicate Held<R>(p: Pool<R>, r: R) {
    exists t :: t in p.taken && p.taken[t] == r
  }

  /** A free root has no interface and no thread has taken it. */
  ghost predicate FreeOk<R>(p: Pool<R>) {
    NoDuplicates(p.free) && forall r :: r in p.free ==> r in p.roots && !p.roots[r].live && !Held(p, r)
  }

  /** A taken root has no interface, and one thread only has taken it. */
  ghost predicate TakenOk<R>(p: Pool<R>) {
    && (forall t :: t in p.taken ==> p.taken[t] in p.roots && !p.roots[p.taken[t]].live)
    && (forall t, u :: t in p.taken && u in p.taken && t != u ==> p.taken[t] != p.taken[u])
  }

  /** Every root is free, taken or has an interface; one that is locked has an interface. */
  ghost predicate NoneLost<R>(p: Pool<R>) {
    && (forall r :: r in p.roots ==> r in p.free || Held(p, r) || p.roots[r].live)
    && (forall r :: r in p.roots && p.roots[r].lock != None ==> p.roots[r].live)
  }

  ghost predicate Partitioned<R>(p: Pool<R>) {
    FreeOk(p) && TakenOk(p) && NoneLost(p)
  }

  lemma HeldTaken<R>(p: Pool<R>, q: Pool<R>, t: Thread, x: R, r: R)
    requires q.taken == p.taken[t := x] && t !in p.taken
    ensures Held(q, r) <==> Held(p, r) || r == x
  {
    if Held(p, r) {
      var u :| u in p.taken && p.taken[u] == r;
      assert q.taken[u] == r;
    }
    assert q.taken[t] == x;
  }

  lemma HeldGiven<R>(p: Pool<R>, q: Pool<R>, t: Thread, r: R)
    requires TakenOk(p) && t in p.taken && q.taken == p.taken - {t}
    ensures Held(q, r) <==> Held(p, r) && r != p.taken[t]
  {
    if Held(p, r) && r != p.taken[t] {
      var u :| u in p.taken && p.taken[u] == r;
      assert u in q.taken && q.taken[u] == r;
    }
  }

  lemma TakeFreeKeeps<R>(p: Pool<R>, t: Thread)
    requires Partitioned(p) && t !in p.taken && p.free != []
    ensures Partitioned(TakeFree(p, t))
  {
    var q := TakeFree(p, t);
    forall r ensures Held(q, r) <==> Held(p, r) || r == p.free[0] { HeldTaken(p, q, t, p.free[0], r); }
    assert p.free == [p.free[0]] + q.free;
    assert p.free[0] !in q.free;
    forall u, v | u in q.taken && v in q.taken && u != v ensures q.taken[u] != q.taken[v] {
      assert p.free[0] in p.free;
      if u == t { assert Held(p, p.taken[v]); }
      if v == t { assert Held(p, p.taken[u]); }
    }
  }

  lemma TakeNewKeeps<R>(p: Pool<R>, t: Thread, x: R)
    requires Partitioned(p) && t !in p.taken && x !in p.roots
    ensures Partitioned(TakeNew(p, t, x))
  {
    var q := TakeNew(p, t, x);
    forall r ensures Held(q, r) <==> Held(p, r) || r == x { HeldTaken(p, q, t, x, r); }
  }

  lemma GiveBackKeeps<R>(p: Pool<R>, t: Thread)
    requires Partitioned(p) && t in p.taken
    ensures Partitioned(GiveBack(p, t))
  {
    var q := GiveBack(p, t);
    forall r ensures Held(q, r) <==> Held(p, r) && r != p.taken[t] { HeldGiven(p, q, t, r); }
    assert Held(p, p.taken[t]);
    assert p.taken[t] !in p.free;
    assert p.taken[t] in q.free;
  }

  lemma InstallKeeps<R>(p: Pool<R>, t: Thread)
    requires Partitioned(p) && t in p.taken
    ensures Partitioned(Install(p, t))
  {
    var q := Install(p, t);
    forall r ensures Held(q, r) <==> Held(p, r) && r != p.taken[t] { HeldGiven(p, q, t, r); }
    assert Held(p, p.taken[t]);
    assert p.taken[t] !in p.free;
  }

  lemma ReleaseKeeps<R>(p: Pool<R>, r: R)
    requires Partitioned(p) && r in p.roots && p.roots[r].live && p.roots[r].lock == None
    ensures Partitioned(Release(p, r))
  {
    var q := Release(p, r);
    forall x ensures Held(q, x) <==> Held(p, x) { SameHeld(p, q, x); }
    assert r !in p.free && !Held(p, r);
    assert r in q.free;
  }

  lemma SameHeld<R>(p: Pool<R>, q: Pool<R>, r: R)
    requires q.taken == p.taken
    ensures Held(q, r) <==> Held(p, r)
  {
  }

  lemma SetLockKeeps<R>(p: Pool<R>, r: R, lock: Option<Thread>)
    requires Partitioned(p) && r in p.roots && (lock == None || p.roots[r].live)
    ensures Partitioned(SetLock(p, r, lock))
  {
    var q := SetLock(p, r, lock);
    forall x ensures Held(q, x) <==> Held(p, x) { SameHeld(p, q, x); }
  }
}
