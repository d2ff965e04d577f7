/** The nodes of a handle forest on their circular lists, refining the forest as a value. */
module NodeLists {
  import opened Common
  import opened DList
  import ForestModel
  import ForestOps

  import opened HandlePacking

  class Node {
    const handle: Handle
    const head: Link<Node>
    const children: Link<Node>
    var parent: Node?

    constructor (handle: Handle)
      ensures this.handle == handle && parent == null && fresh(head) && fresh(children)
      ensures head != children && head.item == Some(this) && children.item == None
      ensures head.next == head && head.prev == head && children.next == children && children.prev == children
    {
      this.handle := handle;
      head := new Link<Node>(None);
      children := new Link<Node>(None);
      parent := null;
      new;
      head.item := Some(this);
    }
  }

  ghost function Heads(s: seq<Node>): (t: seq<Link<Node>>)
    ensures |t| == |s| && forall i :: 0 <= i < |s| ==> t[i] == s[i].head
  {
    seq(|s|, i requires 0 <= i < |s| => s[i].head)
  }

  lemma HeadsDropped(s: seq<Node>, k: int)
    requires 0 <= k < |s|
    ensures Heads(s[..k] + s[k + 1..]) == Dropped(Heads(s), k)
  {
  }

  type Model = ForestModel.Forest<Node>

  /** The list a node stands on: the children of its parent, or the roots. */
  ghost function ListOf(m: Model, o: Node?): seq<Node> {
    if o == null then m.roots else if o in m.kids then m.kids[o] else []
  }

  class Lists {
    const roots: Link<Node>
    ghost var m: Model
    ghost var repr: set<object>

    constructor ()
      ensures Valid() && fresh(repr) && m == ForestModel.Forest([], {}, map[], map[], map[])
    {
      roots := new Link<Node>(None);
      m := ForestModel.Forest([], {}, map[], map[], map[]);
      new;
      repr := {this, roots};
    }

    /** The owners of lists: the nodes, and null for the roots. */
    static ghost function Owners(f: Model): set<Node?> {
      {null} + set n: Node | n in f.kids
    }

    ghost function Header(o: Node?): Link<Node> {
      if o == null then roots else o.children
    }

    ghost function LinksOf(f: Model, o: Node?): set<Link<Node>> {
      Links(Header(o), Heads(ListOf(f, o)))
    }

    /** All links of the forest. */
    ghost function Owned(f: Model): set<Link<Node>> {
      {roots} + (set n | n in f.kids :: n.head) + (set n | n in f.kids :: n.children)
    }

    ghost predicate NodeIn(n: Node)
      reads this`repr, n.head`item, n.children`item
    {
      && n in repr && n.head in repr && n.children in repr
      && n.head.item == Some(n) && n.children.item == None && n.children != roots
    }

    ghost predicate LinksIn(f: Model, o: Node?) {
      LinksOf(f, o) <= Owned(f)
    }

    /** The links of all nodes are allocated, and different nodes have different ones. */
    ghost predicate NodesIn(f: Model)
      reads this`repr, Owned(f)`item
    {
      && this in repr && roots.item == None
      && (forall n {:trigger NodeIn(n)} :: n in f.kids ==> n.head in Owned(f) && n.children in Owned(f) && NodeIn(n))
      && (forall o {:trigger LinksIn(f, o)} :: o in Owners(f) ==> LinksIn(f, o))
      && (forall n, k {:trigger n.children, k.children} :: n in f.kids && k in f.kids && n != k ==>
          n.children != k.children)
    }

    ghost predicate Solid(f: Model)
      reads this`repr, Owned(f)`item
    {
      ForestModel.WellFormed(f) && NodesIn(f)
    }

    /** The list of an owner is a ring of the heads of its nodes. */
    ghost predicate ListOk(f: Model, o: Node?)
      reads LinksOf(f, o)`next, LinksOf(f, o)`prev
    {
      Ring(Header(o), Heads(ListOf(f, o)))
    }

    ghost function ParentOf(f: Model, n: Node): Node? {
      if n !in f.parent || f.parent[n].None? then null else f.parent[n].value
    }

    ghost predicate Alone(n: Node)
      reads n.head`next, n.head`prev
    {
      n.head.next == n.head && n.head.prev == n.head
    }

    /** The lists of the owners are rings, and the loose nodes are alone, all without a link in L. */
    ghost predicate RingsApart(f: Model, loose: set<Node>, owners: set<Node?>, L: set<Link<Node>>)
      reads Owned(f)`next, Owned(f)`prev
    {
      && (forall x {:trigger Alone(x)} :: x in loose ==> x.head in Owned(f) && x.head !in L && Alone(x))
      && (forall o {:trigger ListOk(f, o)} :: o in owners ==> LinksIn(f, o) && LinksOf(f, o) !! L && ListOk(f, o))
    }

    /** The links say what the forest says. */
    ghost predicate LinksSay(g: Model)
      reads this`repr, Owned(g)`next, Owned(g)`prev, Owned(g)`item
    {
      NodesIn(g) && RingsApart(g, g.loose, Owners(g), {})
    }

    ghost predicate ParentsOk(f: Model)
      reads f.kids.Keys`parent
    {
      forall n {:trigger ParentOf(f, n)} :: n in f.kids ==> n.parent == ParentOf(f, n)
    }

    ghost predicate Refines(f: Model)
      reads this, repr
    {
      ForestModel.WellFormed(f) && Owned(f) <= repr && f.kids.Keys <= repr && LinksSay(f) && ParentsOk(f)
    }

    ghost predicate Valid()
      reads this, repr
    {
      Refines(m)
    }

    /** A node on the list of o has o as its parent. */
    lemma Listed(f: Model, o: Node?, c: Node)
      requires Solid(f) && o in Owners(f) && c in ListOf(f, o)
      ensures c in f.kids && c in f.parent && NodeIn(c) && c !in f.loose
      ensures if o == null then f.parent[c].None? else f.parent[c].Some? && f.parent[c].value == o
    {
      if o != null { assert ForestModel.NodeOk(f, o); }
      assert NodeIn(c);
    }

    lemma LinkOf(f: Model, o: Node?, l: Link<Node>)
      requires Solid(f) && o in Owners(f) && l in LinksOf(f, o)
      ensures l == Header(o) || (l.item.Some? && l.item.value in ListOf(f, o) && l == l.item.value.head)
      ensures l == Header(o) ==> l.item == None
    {
      if o != null { assert NodeIn(o); }
      if l != Header(o) {
        var s := ListOf(f, o);
        var i :| 0 <= i < |s| && Heads(s)[i] == l;
        Listed(f, o, s[i]);
      }
    }

    /** Different lists share no link. */
    lemma ListsApart(f: Model, o: Node?, q: Node?)
      requires Solid(f) && o in Owners(f) && q in Owners(f) && o != q
      ensures LinksOf(f, o) !! LinksOf(f, q)
    {
      if o != null { assert NodeIn(o); }
      if q != null { assert NodeIn(q); }
      assert Header(o) != Header(q);
      forall l | l in LinksOf(f, o) ensures l !in LinksOf(f, q) {
        LinkOf(f, o, l);
        if l in LinksOf(f, q) {
          LinkOf(f, q, l);
          Listed(f, o, l.item.value);
          Listed(f, q, l.item.value);
        }
      }
    }

    /** A loose node's link is on no list. */
    lemma LooseApart(f: Model, n: Node, o: Node?)
      requires Solid(f) && o in Owners(f) && n in f.loose
      ensures n in f.kids && NodeIn(n) && n.head !in LinksOf(f, o)
    {
      assert NodeIn(n);
      if n.head in LinksOf(f, o) {
        LinkOf(f, o, n.head);
        Listed(f, o, n);
      }
    }

    /** The other lists, and the nodes on no list, have no link on the list of o. */
    lemma OthersApart(f: Model, o: Node?)
      requires Refines(f) && o in Owners(f)
      ensures RingsApart(f, f.loose, Owners(f) - {o}, LinksOf(f, o))
    {
      forall x | x in f.loose ensures x.head in Owned(f) && x.head !in LinksOf(f, o) { LooseApart(f, x, o); }
      forall q | q in Owners(f) - {o} ensures LinksOf(f, q) !! LinksOf(f, o) { ListsApart(f, q, o); }
    }

    lemma AloneApart(f: Model, n: Node)
      requires Refines(f) && n in f.loose
      ensures RingsApart(f, f.loose - {n}, Owners(f), {n.head})
    {
      forall x | x in f.loose - {n} ensures x.head in Owned(f) && x.head != n.head { assert NodeIn(x) && NodeIn(n); }
      forall q | q in Owners(f) ensures LinksOf(f, q) !! {n.head} { LooseApart(f, n, q); }
    }

    /** Deleting a link from a list leaves the other lists alone. */
    method Take(l: Link<Node>, ghost f: Model, ghost loose: set<Node>, ghost owners: set<Node?>,
                ghost h: Link<Node>, ghost s: seq<Link<Node>>, ghost k: int)
      requires Ring(h, s) && -1 <= k < |s| && At(h, s, k) == l && (k == -1 ==> s == [])
      requires RingsApart(f, loose, owners, Links(h, s)) && ParentsOk(f) && NodesIn(f)
      modifies Links(h, s)`next, Links(h, s)`prev
      ensures Ring(h, Dropped(s, k)) && l.next == l && l.prev == l
      ensures RingsApart(f, loose, owners, Links(h, s)) && ParentsOk(f) && NodesIn(f)
    {
      DList.Delete(l, h, s, k);
      forall x | x in f.kids ensures NodeIn(x) { assert old(NodeIn(x)); }
      forall x | x in loose ensures x.head in Owned(f) && x.head !in Links(h, s) && Alone(x) {
        assert old(Alone(x));
      }
      forall q | q in owners ensures LinksIn(f, q) && LinksOf(f, q) !! Links(h, s) && ListOk(f, q) {
        assert old(ListOk(f, q));
      }
    }

    /** Inserting a link at the front of a list leaves the other lists alone. */
    method PutFront(l: Link<Node>, ghost f: Model, ghost loose: set<Node>, ghost owners: set<Node?>,
                    h: Link<Node>, ghost s: seq<Link<Node>>)
      requires Ring(h, s) && l !in Links(h, s)
      requires RingsApart(f, loose, owners, Links(h, s) + {l}) && ParentsOk(f) && NodesIn(f)
      modifies Links(h, s)`next, Links(h, s)`prev, l`next, l`prev
      ensures Ring(h, [l] + s)
      ensures RingsApart(f, loose, owners, Links(h, s) + {l}) && ParentsOk(f) && NodesIn(f)
    {
      DList.InsertAfter(l, h, h, s, -1);
      assert s[..0] + [l] + s[0..] == [l] + s;
      forall x | x in f.kids ensures NodeIn(x) { assert old(NodeIn(x)); }
      forall x | x in loose ensures x.head in Owned(f) && x.head !in Links(h, s) + {l} && Alone(x) {
        assert old(Alone(x));
      }
      forall q | q in owners ensures LinksIn(f, q) && LinksOf(f, q) !! Links(h, s) + {l} && ListOk(f, q) {
        assert old(ListOk(f, q));
      }
    }

    /** Inserting a link at the end of a list leaves the other lists alone. */
    method PutBack(l: Link<Node>, ghost f: Model, ghost loose: set<Node>, ghost owners: set<Node?>,
                   h: Link<Node>, ghost s: seq<Link<Node>>)
      requires Ring(h, s) && l !in Links(h, s)
      requires RingsApart(f, loose, owners, Links(h, s) + {l}) && ParentsOk(f) && NodesIn(f)
      modifies Links(h, s)`next, Links(h, s)`prev, l`next, l`prev
      ensures Ring(h, s + [l])
      ensures RingsApart(f, loose, owners, Links(h, s) + {l}) && ParentsOk(f) && NodesIn(f)
    {
      DList.InsertBefore(l, h, h, s, |s|);
      assert s[..|s|] + [l] + s[|s|..] == s + [l];
      forall x | x in f.kids ensures NodeIn(x) { assert old(NodeIn(x)); }
      forall x | x in loose ensures x.head in Owned(f) && x.head !in Links(h, s) + {l} && Alone(x) {
        assert old(Alone(x));
      }
      forall q | q in owners ensures LinksIn(f, q) && LinksOf(f, q) !! Links(h, s) + {l} && ListOk(f, q) {
        assert old(ListOk(f, q));
      }
    }

    /** The same nodes on other lists. */
    lemma SameNodesIn(f: Model, g: Model)
      requires Solid(f) && ForestModel.WellFormed(g) && g.kids.Keys == f.kids.Keys
      ensures Solid(g) && Owned(g) == Owned(f) && Owners(g) == Owners(f)
    {
      forall o | o in Owners(g) ensures LinksIn(g, o) {
        if o != null { assert ForestModel.NodeOk(g, o) && NodeIn(o); }
        forall l | l in LinksOf(g, o) ensures l in Owned(g) {
          if l != Header(o) {
            var s := ListOf(g, o);
            var i :| 0 <= i < |s| && Heads(s)[i] == l;
            assert s[i] in f.kids;
            assert NodeIn(s[i]);
          }
        }
      }
      forall n | n in g.kids ensures n.head in Owned(g) && n.children in Owned(g) && NodeIn(n) { assert NodeIn(n); }
    }

    ghost predicate SameLists(f: Model, g: Model, owners: set<Node?>) {
      forall q {:trigger ListOf(g, q)} :: q in owners ==> ListOf(g, q) == ListOf(f, q)
    }

    /** Rings stay rings when the model changes elsewhere. */
    lemma RingsFollow(f: Model, g: Model, loose: set<Node>, owners: set<Node?>, L: set<Link<Node>>)
      requires RingsApart(f, loose, owners, L) && SameLists(f, g, owners) && Owned(g) == Owned(f)
      ensures RingsApart(g, loose, owners, {})
    {
      forall q | q in owners ensures LinksIn(g, q) && LinksOf(g, q) !! {} && ListOk(g, q) {
        assert ListOf(g, q) == ListOf(f, q);
        assert ListOk(f, q) && LinksIn(f, q);
        assert LinksOf(g, q) == LinksOf(f, q);
      }
      forall x | x in loose ensures x.head in Owned(g) && Alone(x) { assert Alone(x); }
    }

    lemma RingJoins(g: Model, loose: set<Node>, owners: set<Node?>, o: Node?)
      requires RingsApart(g, loose, owners, {}) && LinksIn(g, o) && ListOk(g, o)
      ensures RingsApart(g, loose, owners + {o}, {})
    {
      forall q | q in owners + {o} ensures LinksIn(g, q) && LinksOf(g, q) !! {} && ListOk(g, q) {
        if q != o { assert ListOk(g, q); }
      }
      forall x | x in loose ensures x.head in Owned(g) && Alone(x) { assert Alone(x); }
    }

    lemma AloneJoins(g: Model, loose: set<Node>, owners: set<Node?>, n: Node)
      requires RingsApart(g, loose, owners, {}) && n.head in Owned(g) && Alone(n)
      ensures RingsApart(g, loose + {n}, owners, {})
    {
      forall q | q in owners ensures LinksIn(g, q) && LinksOf(g, q) !! {} && ListOk(g, q) { assert ListOk(g, q); }
      forall x | x in loose + {n} ensures x.head in Owned(g) && Alone(x) {
        if x != n { assert Alone(x); }
      }
    }

    /** Where n stands on the list of o, if it is not loose. */
    lemma PlaceOf(n: Node) returns (k: int)
      requires Valid() && n in m.kids
      ensures NodeIn(n) && n.head in Owned(m) && n.parent in Owners(m)
      ensures if n in m.loose then k == -1 && n.parent == null && Alone(n)
              else 0 <= k < |ListOf(m, n.parent)| && ListOf(m, n.parent)[k] == n
    {
      assert NodeIn(n) && n.parent == ParentOf(m, n) && ForestModel.NodeOk(m, n);
      if n in m.loose {
        k := -1;
        assert Alone(n);
      } else {
        k :| 0 <= k < |ListOf(m, n.parent)| && ListOf(m, n.parent)[k] == n;
      }
    }

    /** The lists of the unlinked forest. */
    lemma UnlinkedLists(f: Model, n: Node, o: Node?)
      requires ForestModel.WellFormed(f) && n in f.kids && o in Owners(f)
      ensures n !in ListOf(f, o) ==> ListOf(ForestOps.Unlink(f, n), o) == ListOf(f, o)
      ensures forall k :: 0 <= k < |ListOf(f, o)| && ListOf(f, o)[k] == n ==>
                ListOf(ForestOps.Unlink(f, n), o) == ListOf(f, o)[..k] + ListOf(f, o)[k + 1..]
    {
      if o != null { assert ForestModel.NodeOk(f, o); }
      if n !in ListOf(f, o) { ForestOps.WithoutAbsent(ListOf(f, o), n); }
      forall k | 0 <= k < |ListOf(f, o)| && ListOf(f, o)[k] == n
        ensures ListOf(ForestOps.Unlink(f, n), o) == ListOf(f, o)[..k] + ListOf(f, o)[k + 1..]
      {
        ForestOps.WithoutAt(ListOf(f, o), k);
      }
    }

    /** Unlinking a node changes only the list it stands on. */
    lemma UnlinkedOthers(f: Model, n: Node, owners: set<Node?>)
      requires Solid(f) && n in f.kids && owners <= Owners(f) && forall q :: q in owners ==> n !in ListOf(f, q)
      ensures SameLists(f, ForestOps.Unlink(f, n), owners)
    {
      forall q | q in owners ensures ListOf(ForestOps.Unlink(f, n), q) == ListOf(f, q) {
        UnlinkedLists(f, n, q);
      }
    }

    lemma OnlyOn(f: Model, n: Node, o: Node?)
      requires Solid(f) && o in Owners(f) && n in ListOf(f, o)
      ensures n in f.kids && SameLists(f, ForestOps.Unlink(f, n), Owners(f) - {o})
    {
      Listed(f, o, n);
      forall q | q in Owners(f) - {o} ensures n !in ListOf(f, q) { OnOneList(f, n, o, q); }
      UnlinkedOthers(f, n, Owners(f) - {o});
    }

    lemma OnOneList(f: Model, n: Node, o: Node?, q: Node?)
      requires Solid(f) && o in Owners(f) && n in ListOf(f, o) && q in Owners(f) && q != o
      ensures n !in ListOf(f, q)
    {
      if n in ListOf(f, q) {
        Listed(f, o, n);
        Listed(f, q, n);
      }
    }

    /** The forest g differs from f on the list of o only, and that is a ring. */
    lemma ListChanged(f: Model, g: Model, loose: set<Node>, o: Node?, L: set<Link<Node>>)
      requires o in Owners(f) && Owners(g) == Owners(f) && Owned(g) == Owned(f) && SameLists(f, g, Owners(f) - {o})
      requires RingsApart(f, loose, Owners(f) - {o}, L) && LinksIn(g, o) && ListOk(g, o)
      ensures RingsApart(g, loose, Owners(g), {})
    {
      RingsFollow(f, g, loose, Owners(f) - {o}, L);
      RingJoins(g, loose, Owners(f) - {o}, o);
      assert Owners(f) - {o} + {o} == Owners(g);
    }

    lemma UnlinkedRing(f: Model, n: Node, o: Node?, k: int)
      requires ForestModel.WellFormed(f) && n in f.kids && o in Owners(f)
      requires 0 <= k < |ListOf(f, o)| && ListOf(f, o)[k] == n && Ring(Header(o), Dropped(Heads(ListOf(f, o)), k))
      ensures ListOk(ForestOps.Unlink(f, n), o)
    {
      UnlinkedLists(f, n, o);
      HeadsDropped(ListOf(f, o), k);
    }

    lemma UnlinkedNodesIn(f: Model, n: Node)
      requires Solid(f) && n in f.kids
      ensures var g := ForestOps.Unlink(f, n); Solid(g) && Owned(g) == Owned(f) && Owners(g) == Owners(f)
    {
      ForestOps.UnlinkKeeps(f, n);
      SameNodesIn(f, ForestOps.Unlink(f, n));
    }

    lemma Unlinked(f: Model, n: Node, o: Node?, k: int)
      requires Owned(f) <= repr && Solid(f) && n in f.kids && o in Owners(f) && Alone(n)
      requires 0 <= k < |ListOf(f, o)| && ListOf(f, o)[k] == n
      requires RingsApart(f, f.loose, Owners(f) - {o}, LinksOf(f, o))
               && Ring(Header(o), Dropped(Heads(ListOf(f, o)), k))
      ensures LinksSay(ForestOps.Unlink(f, n)) && ForestModel.WellFormed(ForestOps.Unlink(f, n))
    {
      var g := ForestOps.Unlink(f, n);
      UnlinkedNodesIn(f, n);
      UnlinkedRing(f, n, o, k);
      OnlyOn(f, n, o);
      assert LinksIn(g, o) && NodeIn(n);
      ListChanged(f, g, f.loose, o, LinksOf(f, o));
      AloneJoins(g, f.loose, Owners(g), n);
    }

    lemma UnlinkedLoose(f: Model, n: Node)
      requires Owned(f) <= repr && Solid(f) && n in f.loose && Alone(n)
      requires RingsApart(f, f.loose - {n}, Owners(f), Links(n.head, []))
      ensures n in f.kids && LinksSay(ForestOps.Unlink(f, n)) && ForestModel.WellFormed(ForestOps.Unlink(f, n))
    {
      var g := ForestOps.Unlink(f, n);
      UnlinkedNodesIn(f, n);
      forall q | q in Owners(f) ensures n !in ListOf(f, q) {
        if n in ListOf(f, q) { Listed(f, q, n); }
      }
      UnlinkedOthers(f, n, Owners(f));
      RingsFollow(f, g, f.loose - {n}, Owners(f), Links(n.head, []));
      assert NodeIn(n);
      AloneJoins(g, f.loose - {n}, Owners(g), n);
      assert f.loose - {n} + {n} == g.loose;
    }

    /** What stays apart from the list of n, and that list; alone, n is its own header. */
    lemma Standing(n: Node) returns (k: int, loose: set<Node>, owners: set<Node?>, h: Link<Node>, s: seq<Link<Node>>)
      requires Valid() && n in m.kids
      ensures Ring(h, s) && -1 <= k < |s| && At(h, s, k) == n.head && (k == -1 ==> s == [])
      ensures RingsApart(m, loose, owners, Links(h, s)) && Links(h, s) <= Owned(m) && NodeIn(n) && n.parent in Owners(m)
      ensures if n in m.loose then loose == m.loose - {n} && owners == Owners(m) && h == n.head && s == []
              else && 0 <= k < |ListOf(m, n.parent)| && ListOf(m, n.parent)[k] == n && loose == m.loose
                   && owners == Owners(m) - {n.parent} && h == Header(n.parent) && s == Heads(ListOf(m, n.parent))
    {
      k := PlaceOf(n);
      if n in m.loose {
        AloneApart(m, n);
        loose, owners, h, s := m.loose - {n}, Owners(m), n.head, [];
        assert Links(h, s) == {n.head};
      } else {
        OthersApart(m, n.parent);
        loose, owners, h, s := m.loose, Owners(m) - {n.parent}, Header(n.parent), Heads(ListOf(m, n.parent));
        assert ListOk(m, n.parent) && LinksIn(m, n.parent);
      }
    }

    lemma UnlinkedParents(f: Model, n: Node)
      ensures var g := ForestOps.Unlink(f, n);
              g.kids.Keys == f.kids.Keys
              && forall x :: x in g.kids ==> ParentOf(g, x) == if x == n then null else ParentOf(f, x)
    {
    }

    /** All that is missing to the forest g is the parent p of n. */
    ghost predicate Ready(f: Model, g: Model, n: Node, p: Node?)
      reads this, repr
    {
      && ForestModel.WellFormed(g) && Owned(g) <= repr && g.kids.Keys <= repr && n in g.kids && LinksSay(g)
      && g.kids.Keys == f.kids.Keys && ParentsOk(f)
      && forall x :: x in g.kids ==> ParentOf(g, x) == if x == n then p else ParentOf(f, x)
    }

    method UnlinkLinks(n: Node)
      requires Valid() && n in m.kids
      modifies Owned(m)`next, Owned(m)`prev
      ensures Ready(m, ForestOps.Unlink(m, n), n, null)
    {
      UnlinkedParents(m, n);
      ghost var k, loose, owners, h, s := Standing(n);
      Take(n.head, m, loose, owners, h, s, k);
      if n in m.loose {
        UnlinkedLoose(m, n);
      } else {
        Unlinked(m, n, n.parent, k);
      }
    }

    /** Set the parent of n, when that is all that is missing to the forest g. */
    method Settle(n: Node, p: Node?, ghost f: Model, ghost g: Model)
      requires Owned(g) <= repr && LinksSay(g) && ParentsOk(f) && g.kids.Keys == f.kids.Keys
      requires forall x :: x in g.kids ==> ParentOf(g, x) == if x == n then p else ParentOf(f, x)
      modifies n`parent
      ensures LinksSay(g) && ParentsOk(g)
    {
      n.parent := p;
      forall x | x in g.kids ensures x.parent == ParentOf(g, x) {
        assert x != n ==> x.parent == ParentOf(f, x);
      }
    }

    ghost method Adopt(g: Model)
      requires ForestModel.WellFormed(g) && Owned(g) <= repr && g.kids.Keys <= repr && LinksSay(g) && ParentsOk(g)
      modifies this`m
      ensures Valid() && m == g
    {
      m := g;
    }

    method Finish(n: Node, p: Node?, ghost g: Model)
      requires this in repr && Ready(m, g, n, p)
      modifies n`parent, this`m
      ensures Valid() && m == g
    {
      Settle(n, p, m, g);
      Adopt(g);
    }

    /** Take a node off its list. */
    method UnlinkNode(n: Node)
      requires Valid() && n in m.kids
      modifies repr
      ensures Valid() && repr == old(repr)
      ensures m == ForestOps.Unlink(old(m), n)
    {
      UnlinkLinks(n);
      Finish(n, null, ForestOps.Unlink(m, n));
    }

    /** A loose node's link, and the list of o, are apart from everything else. */
    lemma InsertApart(f: Model, n: Node, o: Node?)
      requires Refines(f) && n in f.loose && o in Owners(f)
      ensures n.head in Owned(f) && n.head !in LinksOf(f, o) && ListOk(f, o) && LinksIn(f, o)
      ensures RingsApart(f, f.loose - {n}, Owners(f) - {o}, LinksOf(f, o) + {n.head})
    {
      OthersApart(f, o);
      AloneApart(f, n);
      LooseApart(f, n, o);
      assert ListOk(f, o);
      forall q | q in Owners(f) - {o}
        ensures LinksIn(f, q) && LinksOf(f, q) !! LinksOf(f, o) + {n.head} && ListOk(f, q) { assert ListOk(f, q); }
      forall x | x in f.loose - {n}
        ensures x.head in Owned(f) && x.head !in LinksOf(f, o) + {n.head} && Alone(x) { assert Alone(x); }
    }

    /** With n on the list of o as well, the links say what the forest g says. */
    lemma Inserted(f: Model, g: Model, n: Node, o: Node?)
      requires Solid(f) && ForestModel.WellFormed(g) && g.kids.Keys == f.kids.Keys && o in Owners(f)
      requires g.loose == f.loose - {n} && SameLists(f, g, Owners(f) - {o})
      requires RingsApart(f, f.loose - {n}, Owners(f) - {o}, LinksOf(f, o) + {n.head}) && ListOk(g, o)
      ensures LinksSay(g) && Owned(g) == Owned(f)
    {
      SameNodesIn(f, g);
      assert LinksIn(g, o);
      ListChanged(f, g, f.loose - {n}, o, LinksOf(f, o) + {n.head});
    }

    lemma SameParents(f: Model, g: Model)
      requires ParentsOk(f) && g.parent == f.parent && g.kids.Keys == f.kids.Keys
      ensures ParentsOk(g)
    {
      forall x | x in g.kids ensures x.parent == ParentOf(g, x) { assert x.parent == ParentOf(f, x); }
    }

    lemma Registered(f: Model, n: Node)
      requires ForestModel.WellFormed(f) && n in f.loose
      ensures var g := ForestOps.Register(f, n);
              && ForestModel.WellFormed(g) && g.kids.Keys == f.kids.Keys && g.loose == f.loose - {n}
              && SameLists(f, g, Owners(f) - {null}) && Heads(ListOf(g, null)) == [n.head] + Heads(f.roots)
              && (forall x :: x in g.kids ==> ParentOf(g, x) == if x == n then null else ParentOf(f, x))
    {
      ForestOps.RegisterKeeps(f, n);
    }

    method RegisterLinks(n: Node)
      requires Valid() && n in m.loose
      modifies Owned(m)`next, Owned(m)`prev
      ensures Ready(m, ForestOps.Register(m, n), n, null)
    {
      InsertApart(m, n, null);
      PutFront(n.head, m, m.loose - {n}, Owners(m) - {null}, roots, Heads(m.roots));
      ghost var g := ForestOps.Register(m, n);
      Registered(m, n);
      Inserted(m, g, n, null);
    }

    /** Put a loose node at the front of the roots. */
    method RegisterNode(n: Node)
      requires Valid() && n in m.loose
      modifies repr
      ensures Valid() && repr == old(repr)
      ensures m == ForestOps.Register(old(m), n)
    {
      ghost var g := ForestOps.Register(m, n);
      RegisterLinks(n);
      SameParents(m, g);
      Adopt(g);
    }

    lemma Attached(f: Model, n: Node, p: Node)
      requires ForestModel.WellFormed(f) && n in f.loose && p in f.kids && p !in ForestModel.Desc(f, n)
      ensures var g := ForestOps.Attach(f, n, p);
              && ForestModel.WellFormed(g) && g.kids.Keys == f.kids.Keys && g.loose == f.loose - {n}
              && SameLists(f, g, Owners(f) - {p}) && Heads(ListOf(g, p)) == Heads(f.kids[p]) + [n.head]
              && (forall x :: x in g.kids ==> ParentOf(g, x) == if x == n then p else ParentOf(f, x))
    {
      ForestOps.AttachKeeps(f, n, p);
    }

    method AttachLinks(n: Node, p: Node)
      requires Valid() && n in m.loose && p in m.kids && p !in ForestModel.Desc(m, n)
      modifies Owned(m)`next, Owned(m)`prev
      ensures Ready(m, ForestOps.Attach(m, n, p), n, p)
    {
      InsertApart(m, n, p);
      PutBack(n.head, m, m.loose - {n}, Owners(m) - {p}, p.children, Heads(m.kids[p]));
      ghost var g := ForestOps.Attach(m, n, p);
      Attached(m, n, p);
      Inserted(m, g, n, p);
    }

    /** Append a loose node to the children of p. */
    method AttachNode(n: Node, p: Node)
      requires Valid() && n in m.loose && p in m.kids && p !in ForestModel.Desc(m, n)
      modifies repr
      ensures Valid() && repr == old(repr)
      ensures m == ForestOps.Attach(old(m), n, p)
    {
      ghost var g := ForestOps.Attach(m, n, p);
      AttachLinks(n, p);
      Finish(n, p, g);
    }

    /** The first node on a list. */
    method First(h: Link<Node>, ghost o: Node?) returns (n: Node?)
      requires Valid() && o in Owners(m) && h == Header(o)
      ensures n == if ListOf(m, o) == [] then null else ListOf(m, o)[0]
    {
      assert ListOk(m, o);
      ghost var s := Heads(ListOf(m, o));
      Neighbours(h, s, -1);
      if h.next == h {
        n := null;
      } else {
        LinkOf(m, o, h.next);
        n := h.next.item.value;
      }
    }

    /** The node after the i-th one on a list. */
    method Following(n: Node, h: Link<Node>, ghost o: Node?, ghost i: int) returns (s: Node?)
      requires Valid() && o in Owners(m) && h == Header(o) && 0 <= i < |ListOf(m, o)| && ListOf(m, o)[i] == n
      ensures s == if i + 1 == |ListOf(m, o)| then null else ListOf(m, o)[i + 1]
    {
      assert ListOk(m, o);
      ghost var links := Heads(ListOf(m, o));
      Neighbours(h, links, i);
      if n.head.next == h {
        s := null;
      } else {
        LinkOf(m, o, n.head.next);
        s := n.head.next.item.value;
      }
    }

    /** Forgetting a loose node without children leaves the other nodes as they are. */
    lemma DroppedNodesIn(f: Model, n: Node)
      requires Refines(f) && n in f.loose && f.kids[n] == []
      ensures NodesIn(ForestOps.Drop(f, n)) && ForestModel.WellFormed(ForestOps.Drop(f, n))
      ensures Owned(ForestOps.Drop(f, n)) <= Owned(f)
    {
      var g := ForestOps.Drop(f, n);
      ForestOps.DropKeeps(f, n);
      assert Owned(g) <= Owned(f);
      forall o | o in Owners(g) ensures LinksIn(g, o) {
        forall l | l in LinksOf(g, o) ensures l in Owned(g) {
          if l != Header(o) {
            var s := ListOf(g, o);
            var i :| 0 <= i < |s| && Heads(s)[i] == l;
            if o != null { assert ForestModel.NodeOk(g, o); }
          }
        }
      }
      forall x | x in g.kids ensures x.head in Owned(g) && x.children in Owned(g) && NodeIn(x) { assert NodeIn(x); }
    }

    lemma DroppedRings(f: Model, g: Model)
      requires RingsApart(f, f.loose, Owners(f), {}) && g.loose <= f.loose && Owners(g) <= Owners(f)
      requires SameLists(f, g, Owners(g)) && NodesIn(g) && forall x :: x in g.loose ==> x in g.kids
      ensures RingsApart(g, g.loose, Owners(g), {})
    {
      forall x | x in g.loose ensures x.head in Owned(g) && Alone(x) { assert Alone(x) && NodeIn(x); }
      forall q | q in Owners(g) ensures LinksIn(g, q) && LinksOf(g, q) !! {} && ListOk(g, q) {
        assert ListOf(g, q) == ListOf(f, q) && ListOk(f, q) && LinksIn(g, q);
      }
    }

    /** Free a loose node without children. */
    ghost method DropNode(n: Node)
      requires Valid() && n in m.loose && m.kids[n] == []
      modifies this`m
      ensures Valid() && m == ForestOps.Drop(old(m), n)
    {
      var g := ForestOps.Drop(m, n);
      DroppedNodesIn(m, n);
      DroppedRings(m, g);
      assert forall x :: x in g.kids ==> ParentOf(g, x) == ParentOf(m, x);
      Adopt(g);
    }

    /** The links of a node that is in no forest yet. */
    ghost predicate Apart(f: Model, n: Node)
      reads n.head`item, n.children`item
    {
      && n !in f.kids && n.head !in Owned(f) && n.children !in Owned(f)
      && n.head.item == Some(n) && n.children.item == None
    }

    lemma AddedNodesIn(f: Model, n: Node)
      requires Solid(f) && Apart(f, n) && NodeIn(n)
      ensures var g := ForestOps.Add(f, n);
              && ForestModel.WellFormed(g) && NodesIn(g) && Owned(g) == Owned(f) + {n.head, n.children}
    {
      var g := ForestOps.Add(f, n);
      ForestOps.AddKeeps(f, n);
      assert Owned(g) == Owned(f) + {n.head, n.children};
      forall o | o in Owners(g) ensures LinksIn(g, o) {
        if o != n { assert LinksIn(f, o) && ListOf(g, o) == ListOf(f, o); }
      }
      forall x | x in g.kids ensures x.head in Owned(g) && x.children in Owned(g) && NodeIn(x) {
        if x != n { assert NodeIn(x); }
      }
      forall x, y | x in g.kids && y in g.kids && x != y ensures x.children != y.children {
        assert x != n ==> NodeIn(x);
        assert y != n ==> NodeIn(y);
      }
    }

    lemma AddedRings(f: Model, n: Node)
      requires RingsApart(f, f.loose, Owners(f), {}) && n !in f.kids && Alone(n) && Ring(n.children, [])
      requires Owned(ForestOps.Add(f, n)) == Owned(f) + {n.head, n.children}
      ensures RingsApart(ForestOps.Add(f, n), ForestOps.Add(f, n).loose, Owners(ForestOps.Add(f, n)), {})
    {
      var g := ForestOps.Add(f, n);
      forall x | x in g.loose ensures x.head in Owned(g) && Alone(x) {
        if x != n { assert Alone(x); }
      }
      forall q | q in Owners(g) ensures LinksIn(g, q) && LinksOf(g, q) !! {} && ListOk(g, q) {
        if q != n { assert ListOf(g, q) == ListOf(f, q) && ListOk(f, q) && LinksIn(f, q); }
      }
    }

    ghost method Widen(n: Node, f: Model)
      requires NodesIn(f) && Apart(f, n) && n.children != roots
      modifies this`repr
      ensures NodesIn(f) && NodeIn(n) && repr == old(repr) + {n, n.head, n.children}
    {
      repr := repr + {n, n.head, n.children};
      forall x | x in f.kids ensures NodeIn(x) { assert old(NodeIn(x)); }
    }

    lemma AddedParents(f: Model, n: Node)
      requires ParentsOk(f) && n !in f.kids && n.parent == null
      ensures ParentsOk(ForestOps.Add(f, n))
    {
      var g := ForestOps.Add(f, n);
      forall x | x in g.kids ensures x.parent == ParentOf(g, x) { assert x != n ==> x.parent == ParentOf(f, x); }
    }

    ghost method Include(n: Node)
      requires Valid() && Apart(m, n) && n.children != roots && Alone(n) && Ring(n.children, []) && n.parent == null
      modifies this`m, this`repr
      ensures Valid() && repr == old(repr) + {n, n.head, n.children} && m == ForestOps.Add(old(m), n)
    {
      Widen(n, m);
      AddedNodesIn(m, n);
      AddedRings(m, n);
      AddedParents(m, n);
      Adopt(ForestOps.Add(m, n));
    }

    /** Make a new node, on no list. */
    method AddNode(handle: Handle) returns (n: Node)
      requires Valid()
      modifies repr
      ensures Valid() && fresh(repr - old(repr)) && fresh(n) && n.handle == handle
      ensures m == ForestOps.Add(old(m), n)
    {
      n := new Node(handle);
      assert Owned(m) <= repr;
      Include(n);
    }
  }
}
