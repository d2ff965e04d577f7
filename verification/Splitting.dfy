/** The pieces of a string between separators. */
module Splitting {

  /** The longest pieces of s that hold no separator, in order. */
  function Pieces(s: string, seps: set<char>): (r: seq<string>)
    ensures s != "" && s[0] !in seps ==> r != []
  {
    if s == "" then []
    else if s[0] in seps then Pieces(s[1..], seps)
    else if |s| == 1 || s[1] in seps then [s[..1]] + Pieces(s[1..], seps)
    else
      var r := Pieces(s[1..], seps);
      [s[..1] + r[0]] + r[1..]
  }

  /** The text before the first NUL. */
  function UpToNul(s: string): string {
    if s == "" || s[0] == '\0' then "" else [s[0]] + UpToNul(s[1..])
  }

  predicate Free(s: string, seps: set<char>) {
    forall i :: 0 <= i < |s| ==> s[i] !in seps
  }

  /** A piece in front of the end or a separator. */
  lemma {:induction false} PiecesFirst(w: string, rest: string, seps: set<char>)
    requires w != "" && Free(w, seps) && (rest == "" || rest[0] in seps)
    ensures Pieces(w + rest, seps) == [w] + Pieces(rest, seps)
    decreases |w|
  {
    var s := w + rest;
    assert s[..1] == w[..1] && s[0] == w[0];
    if |w| == 1 {
      assert s[1..] == rest && s[..1] == w;
    } else {
      PiecesFirst(w[1..], rest, seps);
      assert s[1..] == w[1..] + rest && s[1] == w[1];
      var r := Pieces(s[1..], seps);
      assert r[0] == w[1..] && r[1..] == Pieces(rest, seps);
      assert w[..1] + w[1..] == w;
    }
  }

  /** A string without separators is one piece. */
  lemma OnePiece(w: string, seps: set<char>)
    requires Free(w, seps)
    ensures Pieces(w, seps) == if w == "" then [] else [w]
  {
    if w != "" {
      PiecesFirst(w, "", seps);
      assert w + "" == w;
    }
  }

  /** One character in front: a separator, a piece of its own, or the start of the first piece. */
  lemma PiecesCons(x: char, t: string, seps: set<char>)
    ensures x in seps ==> Pieces([x] + t, seps) == Pieces(t, seps)
    ensures x !in seps && (t == "" || t[0] in seps) ==> Pieces([x] + t, seps) == [[x]] + Pieces(t, seps)
    ensures x !in seps && t != "" && t[0] !in seps ==>
              Pieces([x] + t, seps) == [[x] + Pieces(t, seps)[0]] + Pieces(t, seps)[1..]
  {
    var s := [x] + t;
    assert s[..1] == [x] && s[1..] == t;
    if t != "" { assert s[1] == t[0]; }
  }

  lemma Regroup<T>(x: T, r: seq<T>, q: seq<T>)
    ensures [x] + (r + q) == [x] + r + q
  {
  }

  /** A separator parts the pieces before it from those after it. */
  lemma {:induction false} PiecesApart(a: string, c: char, b: string, seps: set<char>)
    requires c in seps
    ensures Pieces(a + [c] + b, seps) == Pieces(a, seps) + Pieces(b, seps)
    decreases |a|
  {
    if a == "" {
      assert a + [c] + b == [c] + b;
      PiecesCons(c, b, seps);
    } else {
      var x, t := a[0], a[1..];
      var u, r, q := t + [c] + b, Pieces(t, seps), Pieces(b, seps);
      PiecesApart(t, c, b, seps);
      assert a == [x] + t && a + [c] + b == [x] + u;
      assert u[0] == if t == "" then c else t[0];
      PiecesCons(x, t, seps);
      PiecesCons(x, u, seps);
      if x !in seps && (t == "" || t[0] in seps) {
        Regroup([x], r, q);
      } else if x !in seps {
        assert (r + q)[0] == r[0] && (r + q)[1..] == r[1..] + q;
        Regroup([x] + r[0], r[1..], q);
      }
    }
  }
}
