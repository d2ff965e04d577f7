/** The handle context of a root: its forest of nodes, and the table that finds a node by its handle. */
module HandleContext {
  import opened Common
  import opened HandlePacking
  import opened NodeLists
  import ForestModel
  import ForestOps
  import ForestTops
  import HashTable

  function HashOf(h: Handle): nat {
    h % 0xFFFF_FFFF
  }

  function KeyOf(n: Node): Handle {
    n.handle
  }

  /** Some node of the forest has the handle h. */
  ghost predicate Live(f: Model, h: Handle) {
    exists n :: n in f.kids && n.handle == h
  }

  ghost predicate HandlesDiffer(f: Model) {
    forall n, k :: n in f.kids && k in f.kids && n.handle == k.handle ==> n == k
  }

  /** Once a subtree is removed, exactly the handles of its nodes are no longer live. */
  lemma DestroyedNotLive(f: Model, g: Model, n: Node, h: Handle)
    requires ForestModel.WellFormed(f) && n in f.kids && ForestOps.Removed(f, g, n) && HandlesDiffer(f)
    ensures Live(g, h) <==> Live(f, h) && !exists x :: x in ForestModel.Desc(f, n) && x.handle == h
    ensures !Live(g, n.handle)
  {
    var D := ForestModel.Desc(f, n);
    forall x | x in D ensures x in f.kids { ForestModel.DescLower(f, n, x); }
    assert n in D;
    if Live(g, h) {
      var k :| k in g.kids && k.handle == h;
      assert k in f.kids && k !in D;
    }
    if Live(f, h) && !exists x :: x in D && x.handle == h {
      var k :| k in f.kids && k.handle == h;
      assert k in g.kids;
    }
  }

  class Context {
    const provider: Provider
    const lists: Lists
    const table: HashTable.Table<Node, Handle>
    /** The nodes whose destructor was called, in order. */
    ghost var destroyed: seq<Node>
    ghost var repr: set<object>

    /** The forest, the table and the counter are apart. */
    ghost predicate Framed()
      reads this, repr
    {
      && {this, provider, lists, table} <= repr && lists.repr <= repr && table.repr <= repr
      && lists in lists.repr && table in table.repr && lists.repr !! table.repr
      && {this, provider} !! lists.repr && {this, provider} !! table.repr
    }

    /** The table finds each of these nodes by its handle, and finds nothing else. */
    ghost predicate Finds(ns: set<Node>)
      requires table.Valid()
      reads table, table.repr
    {
      && table.keyf == KeyOf
      && (forall n :: n in ns ==> table.Stack(n.handle) == [n])
      && (forall k :: table.Stack(k) == [] || (table.Stack(k)[0] in ns && table.Stack(k)[0].handle == k))
    }

    /** The links say what the forest says, and the table finds these nodes. */
    ghost predicate Sound(ns: set<Node>)
      reads this, repr
    {
      Framed() && lists.Valid() && table.Valid() && Finds(ns)
    }

    /** No destructor was called and no handle issued. */
    ghost predicate Kept(log: seq<Node>, rrv: nat, issued: set<Handle>)
      reads this, provider
    {
      destroyed == log && provider.rrv == rrv && provider.issued == issued
    }

    ghost predicate Valid()
      reads this, repr
    {
      Framed() && Sound(lists.m.kids.Keys) && provider.Valid() && Issued(lists.m.kids.Keys, provider.issued)
    }

    constructor (provider: Provider, lists: Lists, table: HashTable.Table<Node, Handle>)
      requires provider.Valid() && lists.Valid() && lists.m.kids == map[]
      requires table.Valid() && table.keyf == KeyOf && forall k :: table.Stack(k) == []
      requires lists.repr !! table.repr && provider !in lists.repr && provider !in table.repr
      ensures Valid() && repr == {this, provider} + lists.repr + table.repr
      ensures this.provider == provider && this.lists == lists && destroyed == []
    {
      this.provider, this.lists, this.table, destroyed := provider, lists, table, [];
      repr := {this, provider} + lists.repr + table.repr;
    }

    /** Look a handle up in the table: it yields a node exactly when the handle is live. */
    method Lookup(h: Handle) returns (r: Option<Node>)
      requires Valid()
      ensures r.Some? <==> Live(lists.m, h)
      ensures r.Some? ==> r.value in lists.m.kids && r.value.handle == h
    {
      r := table.Lookup(h);
    }

    /** Find the node with a live handle. For others the table yields nothing, which is not tested for. */
    method Find(h: Handle) returns (n: Node)
      requires Valid() && Live(lists.m, h)
      ensures n in lists.m.kids && n.handle == h
    {
      var r := Lookup(h);
      n := r.value;
    }

    lemma LiveHandlesDiffer()
      requires Valid()
      ensures HandlesDiffer(lists.m)
    {
      forall n, k | n in lists.m.kids && k in lists.m.kids && n.handle == k.handle ensures n == k {
        assert table.Stack(n.handle) == [n] && table.Stack(k.handle) == [k];
      }
    }

    /** Enter a node with a new handle. */
    method Enter(n: Node, ghost ns: set<Node>)
      requires table.Valid() && Finds(ns) && forall x :: x in ns ==> x.handle != n.handle
      modifies table.repr
      ensures table.Valid() && Finds(ns + {n}) && fresh(table.repr - old(table.repr))
    {
      table.Insert(n);
    }

    method EnterNode(n: Node, ghost ns: set<Node>)
      requires Sound(ns) && forall x :: x in ns ==> x.handle != n.handle
      modifies repr
      ensures Sound(ns + {n}) && fresh(repr - old(repr))
      ensures lists.m == old(lists.m) && Kept(old(destroyed), old(provider.rrv), old(provider.issued))
    {
      Enter(n, ns);
      repr := repr + table.repr;
    }

    /** Take a node out of the table. */
    method Forget(n: Node, ghost ns: set<Node>) returns (r: Option<Node>)
      requires Sound(ns) && n in ns
      modifies repr
      ensures Sound(ns - {n}) && r == Some(n) && repr == old(repr)
      ensures lists.m == old(lists.m) && Kept(old(destroyed), old(provider.rrv), old(provider.issued))
    {
      r := table.Delete(n.handle);
    }

    method NewNode(h: Handle, ghost ns: set<Node>) returns (n: Node)
      requires Sound(ns)
      modifies repr
      ensures Sound(ns) && fresh(repr - old(repr)) && fresh(n) && n.handle == h
      ensures lists.m == ForestOps.Add(old(lists.m), n) && Kept(old(destroyed), old(provider.rrv), old(provider.issued))
    {
      n := lists.AddNode(h);
      assert lists.repr !! table.repr;
      assert table.Valid() && Finds(ns);
      repr := repr + lists.repr;
    }

    method RegisterNode(n: Node, ghost ns: set<Node>)
      requires Sound(ns) && n in lists.m.loose
      modifies repr
      ensures Sound(ns) && repr == old(repr)
      ensures lists.m == ForestOps.Register(old(lists.m), n)
              && Kept(old(destroyed), old(provider.rrv), old(provider.issued))
    {
      lists.RegisterNode(n);
    }

    method UnlinkNode(n: Node, ghost ns: set<Node>)
      requires Sound(ns) && n in lists.m.kids
      modifies repr
      ensures Sound(ns) && repr == old(repr)
      ensures lists.m == ForestOps.Unlink(old(lists.m), n)
              && Kept(old(destroyed), old(provider.rrv), old(provider.issued))
    {
      lists.UnlinkNode(n);
    }

    method AttachNode(n: Node, p: Node, ghost ns: set<Node>)
      requires Sound(ns) && ForestModel.WellFormed(lists.m) && n in lists.m.loose && n in lists.m.kids
               && p in lists.m.kids
      requires p !in ForestModel.Desc(lists.m, n)
      modifies repr
      ensures Sound(ns) && repr == old(repr)
      ensures lists.m == ForestOps.Attach(old(lists.m), n, p)
              && Kept(old(destroyed), old(provider.rrv), old(provider.issued))
    {
      ForestOps.AttachKeeps(lists.m, n, p);
      lists.AttachNode(n, p);
    }

    ghost method DropNode(n: Node, ns: set<Node>)
      requires Sound(ns) && n in lists.m.loose && n in lists.m.kids && lists.m.kids[n] == []
      modifies repr
      ensures Sound(ns) && repr == old(repr)
      ensures lists.m == ForestOps.Drop(old(lists.m), n)
              && Kept(old(destroyed), old(provider.rrv), old(provider.issued))
    {
      lists.DropNode(n);
    }

    /** Make a node with a new handle, and enter it. */
    method NewEntered(h: Handle, ghost ns: set<Node>) returns (n: Node)
      requires Sound(ns) && forall x :: x in ns ==> x.handle != h
      modifies repr
      ensures Sound(ns + {n}) && fresh(repr - old(repr)) && fresh(n) && n.handle == h
      ensures lists.m == ForestOps.Add(old(lists.m), n)
      ensures Kept(old(destroyed), old(provider.rrv), old(provider.issued))
    {
      n := NewNode(h, ns);
      EnterNode(n, ns);
    }

    /** Make a node with a new handle, and make it a root in front of the others. */
    method AllocNode(h: Handle, ghost ns: set<Node>) returns (n: Node)
      requires Sound(ns) && forall x :: x in ns ==> x.handle != h
      modifies repr
      ensures Sound(ns + {n}) && fresh(repr - old(repr)) && fresh(n) && n.handle == h
      ensures lists.m == ForestOps.Register(ForestOps.Add(old(lists.m), n), n)
      ensures Kept(old(destroyed), old(provider.rrv), old(provider.issued))
    {
      n := NewEntered(h, ns);
      RegisterNode(n, ns + {n});
    }

    /** Issue the next handle of the root, which may have been issued before but is not live. */
    method Alloc() returns (n: Node)
      requires Valid() && !Live(lists.m, Make(provider.rid, provider.rrv + 1))
      modifies repr
      ensures Valid() && fresh(repr - old(repr)) && fresh(n)
      ensures n.handle == Make(provider.rid, provider.rrv) && provider.rrv == old(provider.rrv) + 1
      ensures n.handle !in old(provider.issued) <==> old(provider.rrv) < IDS
      ensures provider.issued == old(provider.issued) + {n.handle}
      ensures lists.m == ForestOps.Register(ForestOps.Add(old(lists.m), n), n) && destroyed == old(destroyed)
      ensures old(lists.m.loose) == {} ==> lists.m.loose == {}
    {
      ghost var ns := lists.m.kids.Keys;
      var h := Issue(ns);
      n := AllocNode(h, ns);
      assert lists.m.kids.Keys == ns + {n};
    }

    method Issue(ghost ns: set<Node>) returns (h: Handle)
      requires Sound(ns) && provider.Valid()
      modifies provider
      ensures Sound(ns) && provider.Valid()
      ensures h == Make(provider.rid, provider.rrv) && provider.rrv == old(provider.rrv) + 1
      ensures h !in old(provider.issued) <==> old(provider.rrv) < IDS
      ensures provider.issued == old(provider.issued) + {h}
    {
      h := provider.Next();
    }

    /** Take a node from its parent and make it a root in front of the others. */
    method Prune(n: Node)
      requires Valid() && n in lists.m.kids
      modifies repr
      ensures Valid() && repr == old(repr)
      ensures lists.m == ForestOps.Register(ForestOps.Unlink(old(lists.m), n), n) && destroyed == old(destroyed)
      ensures old(lists.m.loose) == {} ==> lists.m.loose == {}
    {
      ghost var ns := lists.m.kids.Keys;
      UnlinkNode(n, ns);
      RegisterNode(n, ns);
      assert lists.m.kids.Keys == ns;
    }

    /** Take a node from its parent and append it to the children of p. */
    method Graft(n: Node, p: Node)
      requires Valid() && n in lists.m.kids && p in lists.m.kids && p !in ForestModel.Desc(lists.m, n)
      modifies repr
      ensures Valid() && repr == old(repr) && ForestModel.WellFormed(ForestOps.Unlink(old(lists.m), n))
      ensures lists.m == ForestOps.Attach(ForestOps.Unlink(old(lists.m), n), n, p) && destroyed == old(destroyed)
      ensures old(lists.m.loose) == {} ==> lists.m.loose == {}
    {
      ghost var ns := lists.m.kids.Keys;
      ForestOps.UnlinkKeeps(lists.m, n);
      ForestOps.UnlinkSubtree(lists.m, n);
      UnlinkNode(n, ns);
      AttachNode(n, p, ns);
      assert lists.m.kids.Keys == ns;
    }

    /** Destroy a node without children. */
    method RemoveSelf(n: Node)
      requires Valid() && n in lists.m.kids && lists.m.kids[n] == []
      modifies repr
      ensures Valid() && repr == old(repr) && destroyed == old(destroyed) + [n]
      ensures lists.m == ForestOps.Drop(ForestOps.Unlink(old(lists.m), n), n)
    {
      ghost var ns := lists.m.kids.Keys;
      var r := Forget(n, ns);
      Destruct(n, ns - {n});
      UnlinkNode(n, ns - {n});
      DropNode(n, ns - {n});
      assert lists.m.kids.Keys == ns - {n};
    }

    /** Call the destructor of a node. */
    ghost method Destruct(n: Node, ns: set<Node>)
      requires Sound(ns)
      modifies this`destroyed
      ensures Sound(ns) && destroyed == old(destroyed) + [n]
    {
      destroyed := destroyed + [n];
    }

    /** Destroy a node and all below it. */
    method DestroyWorker(n: Node)
      requires Valid() && n in lists.m.kids
      modifies repr
      ensures Valid() && repr == old(repr) && ForestOps.Removed(old(lists.m), lists.m, n)
      ensures destroyed == old(destroyed) + ForestModel.PostOrder(old(lists.m), n)
      decreases ForestModel.Level(lists.m, n), 3
    {
      ghost var f, log := lists.m, destroyed;
      ghost var done := DestroyChildren(n);
      ForestOps.ClearedAll(f, lists.m, done, n);
      RemoveSelf(n);
      Associative(log, done, [n]);
    }

    /** The subtrees of the first j children of n are gone, and their destructors were called in order. */
    ghost predicate Clearing(f: Model, log: seq<Node>, done: seq<Node>, n: Node, j: int)
      reads this, repr
    {
      Valid() && ForestOps.Cleared(f, lists.m, done, n, j) && destroyed == log + done
    }

    /** Destroy all below a node. */
    method DestroyChildren(n: Node) returns (ghost done: seq<Node>)
      requires Valid() && n in lists.m.kids
      modifies repr
      ensures repr == old(repr) && Clearing(old(lists.m), old(destroyed), done, n, |old(lists.m).kids[n]|)
      decreases ForestModel.Level(lists.m, n), 2
    {
      ghost var f, log, j := lists.m, destroyed, 0;
      ForestOps.ClearedNone(f, n);
      done := [];
      Associative(log, done, done);
      var more := true;
      while more
        invariant Clearing(f, log, done, n, j) && repr == old(repr)
        invariant !more ==> j == |f.kids[n]|
        decreases |f.kids[n]| - j, more
      {
        more, done, j := DestroyFirst(n, f, log, done, j);
      }
    }

    /** Destroy the first child of n, if there is one. */
    method DestroyFirst(n: Node, ghost f: Model, ghost log: seq<Node>, ghost done: seq<Node>, ghost j: int)
        returns (more: bool, ghost done': seq<Node>, ghost j': int)
      requires Clearing(f, log, done, n, j)
      modifies repr
      ensures Clearing(f, log, done', n, j') && repr == old(repr)
      ensures if more then j' == j + 1 else j' == j == |f.kids[n]|
      decreases ForestModel.Level(f, n), 1
    {
      var c := FirstChild(n, f, log, done, j);
      if c == null {
        return false, done, j;
      }
      done' := DestroyNext(c, f, log, done, n, j);
      more, j' := true, j + 1;
    }

    method FirstChild(n: Node, ghost f: Model, ghost log: seq<Node>, ghost done: seq<Node>, ghost j: int)
      returns (c: Node?)
      requires Clearing(f, log, done, n, j)
      ensures c == null <==> j == |f.kids[n]|
      ensures c != null ==> c == f.kids[n][j]
    {
      ForestOps.ClearedRest(f, lists.m, done, n, j);
      c := lists.First(n.children, n);
    }

    method DestroyNext(c: Node, ghost f: Model, ghost log: seq<Node>, ghost done: seq<Node>, ghost n: Node,
                       ghost j: int)
        returns (ghost done': seq<Node>)
      requires Clearing(f, log, done, n, j) && j < |f.kids[n]| && c == f.kids[n][j]
      modifies repr
      ensures Clearing(f, log, done', n, j + 1) && repr == old(repr)
      decreases ForestModel.Level(f, n), 0
    {
      ghost var g := lists.m;
      ForestOps.ClearedRest(f, g, done, n, j);
      DestroyWorker(c);
      ForestOps.ClearedNext(f, g, lists.m, done, n, j);
      done' := done + ForestModel.PostOrder(g, c);
      Associative(log, done, ForestModel.PostOrder(g, c));
    }

    /** Destroy the node with a live handle, and all below it. */
    method DestroyHandle(h: Handle) returns (ghost n: Node)
      requires Valid() && Live(lists.m, h)
      modifies repr
      ensures Valid() && repr == old(repr) && n in old(lists.m).kids && n.handle == h
      ensures ForestOps.Removed(old(lists.m), lists.m, n)
      ensures destroyed == old(destroyed) + ForestModel.PostOrder(old(lists.m), n)
      ensures !Live(lists.m, h)
    {
      ghost var f := lists.m;
      LiveHandlesDiffer();
      var node := Find(h);
      DestroyWorker(node);
      DestroyedNotLive(f, lists.m, node, h);
      n := node;
    }

    /** The subtrees of the first j roots are gone, and their destructors were called in order. */
    ghost predicate Sweeping(f: Model, log: seq<Node>, done: seq<Node>, j: int)
      reads this, repr
    {
      Valid() && ForestTops.Swept(f, lists.m, done, j) && destroyed == log + done
    }

    /** Destroy every root and all below it. */
    method Destroy()
      requires Valid() && lists.m.loose == {}
      modifies repr
      ensures Valid() && repr == old(repr) && lists.m.kids == map[]
      ensures ForestModel.WellFormed(old(lists.m))
      ensures destroyed == old(destroyed) + ForestTops.Order(old(lists.m), |old(lists.m).roots|)
    {
      ghost var f, log, done, j := lists.m, destroyed, [], 0;
      Associative(log, done, done);
      var more := true;
      while more
        invariant Sweeping(f, log, done, j) && repr == old(repr)
        invariant !more ==> j == |f.roots|
        decreases |f.roots| - j, more
      {
        ghost var done';
        more, done' := DestroyFirstRoot(f, log, done, j);
        done, j := if more then done' else done, if more then j + 1 else j;
      }
      ForestTops.SweptAll(f, lists.m, done);
    }

    /** Destroy the first root, if there is one. */
    method DestroyFirstRoot(ghost f: Model, ghost log: seq<Node>, ghost done: seq<Node>, ghost j: int)
        returns (more: bool, ghost done': seq<Node>)
      requires Sweeping(f, log, done, j)
      modifies repr
      ensures repr == old(repr) && (more <==> j < |f.roots|)
      ensures more ==> Sweeping(f, log, done', j + 1)
      ensures !more ==> Sweeping(f, log, done, j)
    {
      var n := FirstRoot(f, log, done, j);
      more, done' := n != null, done;
      if n != null {
        done' := DestroyRoot(n, f, log, done, j);
      }
    }

    method FirstRoot(ghost f: Model, ghost log: seq<Node>, ghost done: seq<Node>, ghost j: int) returns (n: Node?)
      requires Sweeping(f, log, done, j)
      ensures n == null <==> j == |f.roots|
      ensures n != null ==> n == f.roots[j]
    {
      n := lists.First(lists.roots, null);
    }

    method DestroyRoot(n: Node, ghost f: Model, ghost log: seq<Node>, ghost done: seq<Node>, ghost j: int)
        returns (ghost done': seq<Node>)
      requires Sweeping(f, log, done, j) && j < |f.roots| && n == f.roots[j]
      modifies repr
      ensures Sweeping(f, log, done', j + 1) && repr == old(repr)
    {
      ghost var g := lists.m;
      ForestTops.NextRootIntact(f, g, done, j);
      Loosen(n);
      ghost var order := ForestModel.PostOrder(lists.m, n);
      DestroyWorker(n);
      ForestTops.SweptNext(f, g, lists.m, done, j);
      done' := done + order;
      Associative(log, done, order);
    }

    /** Take a node off its list. */
    method Loosen(n: Node)
      requires Valid() && n in lists.m.kids
      modifies repr
      ensures Valid() && repr == old(repr) && lists.m == ForestOps.Unlink(old(lists.m), n)
              && destroyed == old(destroyed)
    {
      ghost var ns := lists.m.kids.Keys;
      UnlinkNode(n, ns);
      assert lists.m.kids.Keys == ns;
    }
  }

  /** The handles of live nodes were issued. */
  ghost predicate Issued(ns: set<Node>, hs: set<Handle>) {
    forall n :: n in ns ==> n.handle in hs
  }

  /** In a context whose root has not counted to 2^48, the next handle is not live. */
  lemma NewNotLive(f: Model, issued: set<Handle>, rid: nat, rrv: nat)
    requires Issued(f.kids.Keys, issued) && AllIssued(rid, rrv, issued) && rrv < IDS
    ensures !Live(f, Make(rid, rrv + 1))
  {
    NextIsNew(rid, rrv);
  }

  /** A context for the counter of a root, with an empty forest. */
  method Create(provider: Provider, bucketSz: nat) returns (c: Context)
    requires bucketSz > 0 && provider.Valid()
    ensures c.Valid() && fresh(c) && fresh(c.repr - {provider}) && c.provider == provider
    ensures c.lists.m.kids == map[] && c.destroyed == []
  {
    var lists := new Lists();
    var table := new HashTable.Table<Node, Handle>(bucketSz, HashOf, KeyOf);
    c := new Context(provider, lists, table);
  }
}
