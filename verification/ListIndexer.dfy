/** A list of values reached by index through a linked list with a moving cursor. */
module ListIndexer {
  import opened Common
  import opened DList

  function Distance(i: int, j: int): (d: int)
    ensures d >= 0
  {
    if i > j then i - j else j - i
  }

  /** The first error a function answers with on the elements from an index on, or zero. */
  function FirstError<E>(mapf: (int, E) -> int, s: seq<E>, i: nat): int
    requires i <= |s|
    decreases |s| - i
  {
    if i == |s| then 0 else if mapf(i, s[i]) != 0 then mapf(i, s[i]) else FirstError(mapf, s, i + 1)
  }

  /** A cursor is -1 exactly when the list is empty, and otherwise names the link at its position. */
  ghost predicate CursorIn<E>(idx: int, elem: Link?<E>, links: seq<Link<E>>) {
    if links == [] then idx == -1 && elem == null else 0 <= idx < |links| && elem == links[idx]
  }

  class Indexer<E> {
    var nelems: int
    const elems: Link<E>
    var cacheIdx: int
    var cacheElem: Link?<E>
    ghost var links: seq<Link<E>>
    ghost var contents: seq<E>  // the sequence the list stands for

    /** The links form a ring whose items are the contents. */
    ghost predicate Listed()
      reads this, Links(elems, links)
    {
      && Ring(elems, links) && nelems == |links| == |contents|
      && (forall i :: 0 <= i < |links| ==> links[i].item == Some(contents[i]))
    }

    ghost predicate CursorOk()
      reads this
    {
      CursorIn(cacheIdx, cacheElem, links)
    }

    ghost predicate Valid()
      reads this, Links(elems, links)
    {
      Listed() && CursorOk()
    }

    constructor ()
      ensures Valid() && contents == [] && fresh(Links(elems, links))
    {
      elems := new Link<E>(None);
      nelems, cacheIdx, cacheElem, links, contents := 0, -1, null, [], [];
    }

    /** Find the element at an index and leave the cursor there; steps counts the links followed. */
    method GetLink(index: int) returns (e: Link<E>, ghost steps: int)
      requires Valid() && 0 <= index < nelems
      modifies this`cacheIdx, this`cacheElem
      ensures Valid()
      ensures e == links[index] && cacheIdx == index
      ensures 0 <= steps <= index && steps <= nelems - index
      ensures steps <= index - old(cacheIdx) || steps <= old(cacheIdx) - index
    {
      steps := 0;
      if index == cacheIdx {
        return cacheElem, 0;
      } else if index == 0 {
        cacheIdx := index;
        assert At(elems, links, -1).next == At(elems, links, 0);
        cacheElem := elems.next;
        return cacheElem, 0;
      } else if index == nelems - 1 {
        cacheIdx := index;
        assert At(elems, links, nelems).prev == At(elems, links, nelems - 1);
        cacheElem := elems.prev;
        return cacheElem, 0;
      }
      var h;
      h, steps := Walk(index);
      cacheIdx := index;
      cacheElem := h;
      return h, steps;
    }

    /** Choose the nearest of the first element, the cursor and the last element, and a direction. */
    method ChooseStart(index: int) returns (h: Link<E>, i: int, inc: int)
      requires Valid() && 0 < index < nelems - 1 && index != cacheIdx
      ensures 0 <= i < nelems && h == links[i] && inc == (if i < index then 1 else -1)
      ensures i != index && Distance(i, index) <= index && Distance(i, index) <= nelems - index
      ensures Distance(i, index) <= Distance(index, cacheIdx)
    {
      var ds := index;
      var dc := if index > cacheIdx then index - cacheIdx else cacheIdx - index;
      var de := nelems - index;
      assert At(elems, links, -1).next == At(elems, links, 0);
      assert At(elems, links, nelems).prev == At(elems, links, nelems - 1);
      if ds > dc {
        if de > dc {
          return cacheElem, cacheIdx, if index > cacheIdx then 1 else -1;
        } else {
          return elems.prev, nelems - 1, -1;
        }
      } else {
        if de > ds {
          return elems.next, 0, 1;
        } else {
          return elems.prev, nelems - 1, -1;
        }
      }
    }

    method Walk(index: int) returns (h: Link<E>, ghost steps: int)
      requires Valid() && 0 < index < nelems - 1 && index != cacheIdx
      ensures h == links[index] && 0 <= steps <= index && steps <= nelems - index
      ensures steps <= Distance(index, cacheIdx)
    {
      var i, inc;
      h, i, inc := ChooseStart(index);
      ghost var start := i;
      steps := 0;
      while i != index
        invariant 0 <= i < nelems && h == links[i] && steps == Distance(i, start)
        invariant if inc == 1 then start <= i <= index else inc == -1 && index <= i <= start
        decreases Distance(i, index)
      {
        if inc > 0 {
          assert At(elems, links, i).next == At(elems, links, i + 1);
          h := h.next;
        } else {
          assert At(elems, links, i).prev == At(elems, links, i - 1);
          h := h.prev;
        }
        i := i + inc;
        steps := steps + 1;
      }
    }

    method Get(index: int) returns (v: E)
      requires Valid() && 0 <= index < nelems
      modifies this`cacheIdx, this`cacheElem
      ensures Valid() && v == contents[index]
    {
      var e, _ := GetLink(index);
      v := e.item.value;
    }

    method Set(index: int, v: E)
      requires Valid() && 0 <= index < nelems
      modifies this`cacheIdx, this`cacheElem, this`contents, Links(elems, links)`item
      ensures Valid() && contents == old(contents)[index := v]
    {
      var e, _ := GetLink(index);
      e.item := Some(v);
      contents := contents[index := v];
    }

    /** Remove the element at an index; the cursor moves to a neighbour. */
    method Delete(index: int) returns (v: E)
      requires Valid() && 0 <= index < nelems
      modifies this, Links(elems, links)`next, Links(elems, links)`prev
      ensures Valid() && v == old(contents)[index]
      ensures contents == old(contents)[..index] + old(contents)[index + 1..]
      ensures links == old(links[..index] + links[index + 1..])
    {
      var e, _ := GetLink(index);
      v := e.item.value;
      LeaveCursor(e, index);
      Unlink(e, index);
    }

    /** Move the cursor from the element at an index to a neighbour. */
    method LeaveCursor(e: Link<E>, index: int)
      requires Valid() && 0 <= index < nelems && e == links[index] && cacheIdx == index
      modifies this`cacheIdx, this`cacheElem
      ensures Listed()
      ensures if nelems == 1 then cacheIdx == -1 && cacheElem == null
              else if index > 0 then cacheIdx == index - 1 && cacheElem == links[index - 1]
              else cacheIdx == 0 && cacheElem == links[1]
    {
      Neighbours(elems, links, index - 1);
      Neighbours(elems, links, index);
      // The cursor is at the element: the case of an element before the cursor does not arise.
      if nelems > 1 {
        if index > 0 {
          cacheIdx := index - 1;
          cacheElem := e.prev;
        } else {
          cacheElem := e.next;
        }
      } else {
        cacheIdx := -1;
        cacheElem := null;
      }
    }

    method Unlink(e: Link<E>, ghost index: int)
      requires Listed() && 0 <= index < |links| && e == links[index]
      modifies this`nelems, this`links, this`contents, Links(elems, links)`next, Links(elems, links)`prev
      ensures Listed() && links == old(links)[..index] + old(links)[index + 1..]
      ensures contents == old(contents)[..index] + old(contents)[index + 1..]
      ensures Links(elems, links) <= old(Links(elems, links))
    {
      nelems := nelems - 1;
      DList.Delete(e, elems, links, index);
      links := links[..index] + links[index + 1..];
      contents := contents[..index] + contents[index + 1..];
    }

    method LinkIn(e: Link<E>, h: Link<E>, ghost index: int, ghost v: E)
      requires Listed() && -1 <= index < |links| && h == At(elems, links, index)
      requires e !in Links(elems, links) && e.item == Some(v)
      modifies this`nelems, this`links, this`contents, Links(elems, links)`next, Links(elems, links)`prev, e`next,
               e`prev
      ensures Listed() && links == old(links)[..index + 1] + [e] + old(links)[index + 1..]
      ensures contents == old(contents)[..index + 1] + [v] + old(contents)[index + 1..]
      ensures Links(elems, links) == old(Links(elems, links)) + {e}
    {
      InsertAfter(e, h, elems, links, index);
      LinksInserted(elems, links, index + 1, e);
      nelems := nelems + 1;
      links := links[..index + 1] + [e] + links[index + 1..];
      contents := contents[..index + 1] + [v] + contents[index + 1..];
    }

    method LinkNew(h: Link<E>, ghost index: int, v: E) returns (e: Link<E>)
      requires Listed() && -1 <= index < |links| && h == At(elems, links, index)
      modifies this`nelems, this`links, this`contents, Links(elems, links)`next, Links(elems, links)`prev
      ensures Listed() && links == old(links)[..index + 1] + [e] + old(links)[index + 1..]
      ensures contents == old(contents)[..index + 1] + [v] + old(contents)[index + 1..]
      ensures fresh(Links(elems, links) - old(Links(elems, links)))
    {
      e := new Link<E>(Some(v));
      LinkIn(e, h, index, v);
    }

    method LinkOrHeader(index: int) returns (h: Link<E>)
      requires Valid() && -1 <= index < nelems
      modifies this`cacheIdx, this`cacheElem
      ensures Valid() && h == At(elems, links, index)
      ensures if index == -1 then cacheIdx == old(cacheIdx) && cacheElem == old(cacheElem) else cacheIdx == index
    {
      if index == -1 { return elems; }
      ghost var steps;
      h, steps := GetLink(index);
    }

    /** Insert after the element at an index, or at the front for index -1. */
    method Insert(index: int, v: E)
      requires Valid() && -1 <= index < nelems
      modifies this, Links(elems, links)`next, Links(elems, links)`prev
      ensures Valid() && contents == old(contents)[..index + 1] + [v] + old(contents)[index + 1..]
      ensures fresh(Links(elems, links) - old(Links(elems, links)))
      ensures index >= 0 ==> cacheIdx == index
      ensures index == -1 ==> cacheIdx == old(cacheIdx) + 1 && (old(contents) != [] ==> cacheElem == old(cacheElem))
    {
      var h := LinkOrHeader(index);
      ghost var was := links;
      var e := LinkNew(h, index, v);
      AdjustCursor(index, e, was);
    }

    /** Keep the cursor on its element after e was linked in behind index. */
    method AdjustCursor(index: int, e: Link<E>, ghost was: seq<Link<E>>)
      requires Listed() && -1 <= index < |was| && links == was[..index + 1] + [e] + was[index + 1..]
      requires CursorIn(cacheIdx, cacheElem, was)
      modifies this`cacheIdx, this`cacheElem
      ensures Valid() && cacheIdx == old(cacheIdx) + (if index < old(cacheIdx) || old(cacheIdx) == -1 then 1 else 0)
      ensures old(cacheIdx) >= 0 ==> cacheElem == old(cacheElem)
    {
      if index == -1 && cacheIdx == -1 {
        cacheIdx := 0;
        cacheElem := e;
      } else if index < cacheIdx {
        cacheIdx := cacheIdx + 1;
      }
    }

    /**
     * Call mapf on the elements in order until it answers with an error; the result is that answer,
     * and visited counts the elements it answered without one.
     */
    method Map(mapf: (int, E) -> int) returns (res: int, ghost visited: int)
      requires Valid()
      ensures res == FirstError(mapf, contents, 0)
      ensures 0 <= visited <= |contents| && (forall i :: 0 <= i < visited ==> mapf(i, contents[i]) == 0)
      ensures res == 0 <==> visited == |contents|
      ensures res != 0 ==> res == mapf(visited, contents[visited])
    {
      visited := 0;
      Neighbours(elems, links, -1);
      var tmp, index := elems.next, 0;
      while tmp != elems
        invariant 0 <= index <= |links| && tmp == At(elems, links, index) && visited == index
        invariant forall i :: 0 <= i < index ==> mapf(i, contents[i]) == 0
        invariant FirstError(mapf, contents, index) == FirstError(mapf, contents, 0)
        decreases |links| - index
      {
        var r := mapf(index, tmp.item.value);
        if r != 0 {
          return r, visited;
        }
        Neighbours(elems, links, index);
        index := index + 1;
        tmp := tmp.next;
        visited := index;
      }
      res := 0;
    }

    /** Take the first element off the list. */
    method PopFront() returns (v: E)
      requires Listed() && links != []
      modifies this`nelems, this`links, this`contents, Links(elems, links)`next, Links(elems, links)`prev
      ensures Listed() && old(contents) == [v] + contents && |links| < |old(links)|
      ensures Links(elems, links) <= old(Links(elems, links))
    {
      Neighbours(elems, links, -1);
      var e := elems.next;
      v := e.item.value;
      Unlink(e, 0);
    }

    /** The list is empty when its header points to itself. */
    method IsEmpty() returns (empty: bool)
      requires Listed()
      ensures empty <==> links == []
    {
      Neighbours(elems, links, -1);
      Neighbours(elems, links, |links| - 1);
      empty := elems.next == elems && elems.prev == elems;
    }

    /** Take the elements off one by one; the destructor sees each of them once, in order. */
    method Destroy() returns (destroyed: seq<E>)
      requires Valid()
      modifies this`nelems, this`links, this`contents, Links(elems, links)`next, Links(elems, links)`prev
      ensures destroyed == old(contents) && Listed() && links == []
    {
      destroyed := [];
      ghost var all := Links(elems, links);
      while true
        modifies this`nelems, this`links, this`contents, all`next, all`prev
        invariant Listed() && Links(elems, links) <= all
        invariant destroyed + contents == old(contents)
        decreases |links|
      {
        var empty := IsEmpty();
        if empty { break; }
        var v := PopFront();
        destroyed := destroyed + [v];
      }
    }
  }
}
