/** Exchanging two adjacent blocks of the argument vector in place. */
module PermuteArgs {
  import opened Arith
  import opened Rotation

  method ComputeGcd(a0: int, b0: int) returns (g: int)
    requires a0 > 0 && b0 > 0
    ensures g == Gcd(a0, b0)
  {
    var a, b := a0, b0;
    var c := a % b;
    while c != 0
      invariant a >= 0 && b > 0 && c == a % b && Gcd(a, b) == Gcd(a0, b0)
      decreases c
    {
      a := b;
      b := c;
      c := a % b;
    }
    return b;
  }

  /** Where the element that ends up at position p of the exchanged blocks comes from. */
  ghost function Source(k: Blocks, p: int): (q: int)
    requires k.Valid() && 0 <= p < k.N()
    ensures 0 <= q < k.N()
  {
    if p >= k.B then p - k.B else p + k.A
  }

  lemma SourceResidue(k: Blocks, p: int)
    requires k.Valid() && 0 <= p < k.N()
    ensures Source(k, p) % k.g == p % k.g
  {
    ResidueShift(p, k.A, k.x, k.g);
    ResidueShift(p, k.B, k.y, k.g);
  }

  ghost predicate Unvisited(k: Blocks, c: int, j: nat, p: int)
    requires k.Valid() && 0 <= c < k.N()
  {
    forall t: nat :: t <= j ==> Orbit(k, c, t) != p
  }

  /** The window w after j swaps of the cycle from c, which started with w0. */
  ghost predicate Cycled<T>(k: Blocks, w0: seq<T>, w: seq<T>, c: int, j: int) {
    && k.Valid() && |w0| == |w| == k.N() && 0 <= c < k.N() && 0 <= j <= k.Len()
    && (forall t: nat :: t < j && t + 1 < k.Len() ==> w[Orbit(k, c, t + 1)] == w0[Orbit(k, c, t)])
    && w[c] == w0[Orbit(k, c, if j < k.Len() then j else k.Len() - 1)]
    && (forall p :: 0 <= p < k.N() && Unvisited(k, c, j, p) ==> w[p] == w0[p])
  }

  lemma CycleStarts<T>(k: Blocks, w0: seq<T>, c: int)
    requires k.Valid() && |w0| == k.N() && 0 <= c < k.N()
    ensures Cycled(k, w0, w0, c, 0)
  {
  }

  function Swapped<T>(w: seq<T>, p: int, c: int): seq<T>
    requires 0 <= p < |w| && 0 <= c < |w|
  {
    w[p := w[c]][c := w[p]]
  }

  lemma FreshPosition(k: Blocks, c: int, j: nat)
    requires k.Valid() && 0 <= c < k.N() && j + 1 < k.Len()
    ensures Unvisited(k, c, j, Orbit(k, c, j + 1))
  {
    forall t: nat | t <= j ensures Orbit(k, c, t) != Orbit(k, c, j + 1) {
      OrbitDistinct(k, c, t, j + 1);
    }
  }

  /** One swap inside a cycle. */
  lemma CycleStep<T>(k: Blocks, w0: seq<T>, w: seq<T>, c: int, j: nat)
    requires Cycled(k, w0, w, c, j) && j + 1 < k.Len()
    ensures Cycled(k, w0, Swapped(w, Orbit(k, c, j + 1), c), c, j + 1)
  {
    var p := Orbit(k, c, j + 1);
    var w' := Swapped(w, p, c);
    FreshPosition(k, c, j);
    assert p != c;
    forall t: nat | t < j + 1 && t + 1 < k.Len()
      ensures w'[Orbit(k, c, t + 1)] == w0[Orbit(k, c, t)]
    {
      if t < j {
        OrbitDistinct(k, c, t + 1, j + 1);
        OrbitDistinct(k, c, 0, t + 1);
      }
    }
    forall q | 0 <= q < k.N() && Unvisited(k, c, j + 1, q)
      ensures w'[q] == w0[q]
    {
      assert Orbit(k, c, 0) != q && Orbit(k, c, j + 1) != q;
      assert Unvisited(k, c, j, q);
    }
  }

  /** The last swap of a cycle exchanges the start with itself. */
  lemma CycleEnds<T>(k: Blocks, w0: seq<T>, w: seq<T>, c: int)
    requires Cycled(k, w0, w, c, k.Len() - 1)
    ensures Orbit(k, c, k.Len()) == c
    ensures Cycled(k, w0, w, c, k.Len())
  {
    OrbitCloses(k, c);
    forall q | 0 <= q < k.N() && Unvisited(k, c, k.Len(), q)
      ensures w[q] == w0[q]
    {
      assert Unvisited(k, c, k.Len() - 1, q);
    }
  }

  lemma CycleAdvances<T>(k: Blocks, w0: seq<T>, w: seq<T>, c: int, j: nat)
    requires Cycled(k, w0, w, c, j) && j < k.Len()
    ensures Cycled(k, w0, Swapped(w, Orbit(k, c, j + 1), c), c, j + 1)
  {
    if j + 1 < k.Len() {
      CycleStep(k, w0, w, c, j);
    } else {
      CycleEnds(k, w0, w, c);
      assert Swapped(w, c, c) == w;
    }
  }

  /** A complete cycle has moved exactly the positions of its residue class. */
  lemma CycleDone<T>(k: Blocks, w0: seq<T>, w: seq<T>, c: int, p: int)
    requires Cycled(k, w0, w, c, k.Len()) && 0 <= p < k.N()
    ensures w[p] == if p % k.g == c % k.g then w0[Source(k, p)] else w0[p]
  {
    if p % k.g == c % k.g {
      var t := OrbitCovers(k, c, p);
      if t == 0 {
        OrbitCloses(k, c);
      } else {
        assert w[Orbit(k, c, t - 1 + 1)] == w0[Orbit(k, c, t - 1)];
      }
    } else {
      forall t: nat | t <= k.Len() ensures Orbit(k, c, t) != p {
        OrbitResidue(k, c, t);
      }
      assert Unvisited(k, c, k.Len(), p);
    }
  }

  /** The residue classes below i have been moved, the others not. */
  ghost predicate ClassesMoved<T>(k: Blocks, w0: seq<T>, w: seq<T>, i: int) {
    && k.Valid() && |w0| == |w| == k.N()
    && forall p :: 0 <= p < k.N() ==> w[p] == if p % k.g < i then w0[Source(k, p)] else w0[p]
  }

  lemma NextClassMoved<T>(k: Blocks, w0: seq<T>, w: seq<T>, w': seq<T>, i: int)
    requires ClassesMoved(k, w0, w, i) && 0 <= i < k.g && Cycled(k, w, w', k.A + i, k.Len())
    ensures ClassesMoved(k, w0, w', i + 1)
  {
    ModIs(k.A + i, k.g, k.x, i);
    forall p | 0 <= p < k.N()
      ensures w'[p] == if p % k.g < i + 1 then w0[Source(k, p)] else w0[p]
    {
      CycleDone(k, w, w', k.A + i, p);
      SourceResidue(k, p);
    }
  }

  /** When every class has been moved the two blocks are exchanged. */
  lemma AllClassesMoved<T>(k: Blocks, w0: seq<T>, w: seq<T>)
    requires ClassesMoved(k, w0, w, k.g)
    ensures w == w0[k.A..] + w0[..k.A]
  {
    forall p | 0 <= p < k.N() ensures w[p] == (w0[k.A..] + w0[..k.A])[p] {
      assert p % k.g < k.g;
    }
  }

  /** The window of the array from start holds w; the rest is as in a0. */
  ghost predicate Holds<T>(a: seq<T>, a0: seq<T>, start: int, w: seq<T>) {
    && |a| == |a0| && 0 <= start && start + |w| <= |a|
    && a == a0[..start] + w + a0[start + |w|..]
  }

  lemma HoldsSwap<T>(a: seq<T>, a0: seq<T>, start: int, w: seq<T>, p: int, c: int)
    requires Holds(a, a0, start, w) && 0 <= p < |w| && 0 <= c < |w|
    ensures Holds(Swapped(a, start + p, start + c), a0, start, Swapped(w, p, c))
  {}

  /** After j swaps of the cycle at c the window is w, and the last swap was at pos. */
  ghost predicate Moving<T>(k: Blocks, a: seq<T>, a0: seq<T>, start: int, w0: seq<T>, w: seq<T>, c: int, j: nat,
                            pos: int)
  {
    && Cycled(k, w0, w, c, j) && |w| == k.A + k.B && Holds(a, a0, start, w)
    && 0 <= pos - start < k.A + k.B && pos - start == Orbit(k, c, j)
  }

  lemma MovingStep<T>(k: Blocks, a: seq<T>, a0: seq<T>, start: int, w0: seq<T>, w: seq<T>, c: int, j: nat, pos: int)
      returns (p: int)
    requires Moving(k, a, a0, start, w0, w, c, j, pos) && j < k.Len()
    ensures 0 <= p < |w| && 0 <= c < |w| && |w| == k.A + k.B && 0 <= start && start + |w| <= |a|
    ensures start + p == if pos >= start + k.A then pos - k.A else pos + k.B
    ensures Moving(k, Swapped(a, start + p, start + c), a0, start, w0, Swapped(w, p, c), c, j + 1, start + p)
  {
    p := Orbit(k, c, j + 1);
    CycleAdvances(k, w0, w, c, j);
    HoldsSwap(a, a0, start, w, p, c);
  }

  /** Advance one position and swap it with the start of the cycle. */
  method SwapNext<T>(a: array<T>, nonoptEnd: int, nnonopts: int, nopts: int, cstart: int, pos: int) returns (pos': int)
    requires 0 <= nnonopts <= nonoptEnd && 0 <= nopts && nonoptEnd + nopts <= a.Length
    requires nonoptEnd - nnonopts <= pos < nonoptEnd + nopts && 0 <= cstart < a.Length
    modifies a
    ensures pos' == if pos >= nonoptEnd then pos - nnonopts else pos + nopts
    ensures a[..] == Swapped(old(a[..]), pos', cstart)
  {
    if pos >= nonoptEnd {
      pos' := pos - nnonopts;
    } else {
      pos' := pos + nopts;
    }
    a[pos'], a[cstart] := a[cstart], a[pos'];
  }

  /** One cycle of swaps, starting at the element with index i of the second block. */
  method MoveCycle<T>(a: array<T>, start: int, ghost k: Blocks, nnonopts: int, nopts: int, cyclelen: int, i: int,
                      ghost w0: seq<T>, ghost a0: seq<T>)
    returns (ghost w: seq<T>)
    requires k.Valid() && nnonopts == k.A && nopts == k.B && cyclelen == k.Len() && 0 <= i < k.B
    requires |w0| == k.N() && Holds(a[..], a0, start, w0)
    modifies a
    ensures |w| == k.N() && Holds(a[..], a0, start, w)
    ensures Cycled(k, w0, w, k.A + i, k.Len())
  {
    w := w0;
    var nonoptEnd := start + nnonopts;
    var cstart := nonoptEnd + i;
    var pos := cstart;
    ghost var c := k.A + i;
    CycleStarts(k, w0, c);
    for j := 0 to cyclelen
      invariant Moving(k, a[..], a0, start, w0, w, c, j, pos)
    {
      ghost var p := MovingStep(k, a[..], a0, start, w0, w, c, j, pos);
      pos := SwapNext(a, nonoptEnd, nnonopts, nopts, cstart, pos);
      w := Swapped(w, p, c);
    }
  }

  /** All the cycles: the window w0 from start becomes its second block followed by its first. */
  method MoveCycles<T>(a: array<T>, start: int, ghost k: Blocks, nnonopts: int, nopts: int, ncycle: int, cyclelen: int,
                       ghost w0: seq<T>, ghost a0: seq<T>)
    requires k.Valid() && nnonopts == k.A && nopts == k.B && ncycle == k.g <= k.B && cyclelen == k.Len()
    requires |w0| == k.N() && Holds(a[..], a0, start, w0)
    modifies a
    ensures Holds(a[..], a0, start, w0[nnonopts..] + w0[..nnonopts])
  {
    ghost var w := w0;
    for i := 0 to ncycle
      invariant ClassesMoved(k, w0, w, i) && Holds(a[..], a0, start, w)
    {
      ghost var w' := MoveCycle(a, start, k, nnonopts, nopts, cyclelen, i, w, a0);
      NextClassMoved(k, w0, w, w', i);
      w := w';
    }
    AllClassesMoved(k, w0, w);
  }

  /**
   * Exchange the block from nonoptStart to nonoptEnd with the block from nonoptEnd to optEnd,
   * keeping the order within each block and everything outside them.
   */
  method Permute<T>(a: array<T>, nonoptStart: int, nonoptEnd: int, optEnd: int)
    requires 0 <= nonoptStart < nonoptEnd < optEnd <= a.Length
    modifies a
    ensures a[..] == old(a[..nonoptStart] + a[nonoptEnd..optEnd] + a[nonoptStart..nonoptEnd] + a[optEnd..])
  {
    var nnonopts := nonoptEnd - nonoptStart;
    var nopts := optEnd - nonoptEnd;
    var ncycle := ComputeGcd(nnonopts, nopts);
    var cyclelen := (optEnd - nonoptStart) / ncycle;
    ghost var k := MakeBlocks(nnonopts, nopts);
    assert cyclelen == k.Len() by {
      CycleSpan(k);
      DivModUnique(k.N(), k.g, k.Len(), 0);
    }
    assert k.g <= k.B by { MulLe(1, k.y, k.g); }
    ghost var w0 := a[nonoptStart..optEnd];
    MoveCycles(a, nonoptStart, k, nnonopts, nopts, ncycle, cyclelen, w0, a[..]);
    assert w0[nnonopts..] == old(a[nonoptEnd..optEnd]) && w0[..nnonopts] == old(a[nonoptStart..nonoptEnd]);
  }
}
