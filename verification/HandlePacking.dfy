/**
 * Handles are 64-bit words: the upper 16 bits name a root, the lower 48 bits count the handles it has issued.
 * The masks and shifts of unsigned words are written as remainders, products and quotients.
 */
module HandlePacking {

  type Handle = nat

  const RIDS: nat := 0x1_0000
  const IDS: nat := 0x1_0000_0000_0000

  function Make(rid: nat, id: nat): Handle {
    (rid % RIDS) * IDS + id % IDS
  }

  function GetRid(h: Handle): nat {
    h / IDS % RIDS
  }

  function GetId(h: Handle): nat {
    h % IDS
  }

  /** Packing keeps the low 16 bits of the root and the low 48 bits of the count, in a 64-bit word. */
  lemma GetMake(rid: nat, id: nat)
    ensures Make(rid, id) < RIDS * IDS && GetRid(Make(rid, id)) == rid % RIDS && GetId(Make(rid, id)) == id % IDS
  {
  }

  /** The upper 16 of 64 bits are those of the root, the lower 48 those of the count. */
  lemma MakeParts(rid: nat, id: nat)
    ensures Make(rid, id) / 0x1_0000_0000_0000 == rid % 0x1_0000
    ensures Make(rid, id) % 0x1_0000_0000_0000 == id % 0x1_0000_0000_0000
  {
  }

  /** Packing what was unpacked from a 64-bit word gives it back. */
  lemma MakeGet(h: Handle)
    requires h < RIDS * IDS
    ensures Make(GetRid(h), GetId(h)) == h
  {
  }

  /** Handles are equal exactly when the roots agree in 16 bits and the counts in 48 bits. */
  lemma MakeEqual(rid: nat, id: nat, rid': nat, id': nat)
    ensures Make(rid, id) == Make(rid', id') <==> rid % RIDS == rid' % RIDS && id % IDS == id' % IDS
  {
    GetMake(rid, id);
    GetMake(rid', id');
  }

  /** Counts that differ by 2^48 give the same handle. */
  lemma CountsRepeat(rid: nat, id: nat)
    ensures Make(rid, id + IDS) == Make(rid, id)
  {
    MakeEqual(rid, id, rid, id + IDS);
  }

  /** The handle h is the one of root rid at a count from 1 to n. */
  ghost predicate IssuedBy(rid: nat, n: nat, h: Handle) {
    exists i :: 1 <= i <= n && Make(rid, i) == h
  }

  /** The handle after n others of its root is new exactly when n is below 2^48. */
  lemma NextIsNew(rid: nat, n: nat)
    ensures IssuedBy(rid, n, Make(rid, n + 1)) <==> n >= IDS
  {
    if n >= IDS {
      CountsRepeat(rid, n + 1 - IDS);
      assert Make(rid, n + 1 - IDS) == Make(rid, n + 1);
    } else {
      forall i | 1 <= i <= n ensures Make(rid, i) != Make(rid, n + 1) {
        MakeEqual(rid, i, rid, n + 1);
        if n + 1 == IDS { assert (n + 1) % IDS == 0; }
      }
    }
  }

  lemma IssuedByNext(rid: nat, n: nat, h: Handle)
    ensures IssuedBy(rid, n + 1, h) <==> IssuedBy(rid, n, h) || h == Make(rid, n + 1)
  {
    if IssuedBy(rid, n, h) {
      var i :| 1 <= i <= n && Make(rid, i) == h;
      assert 1 <= i <= n + 1;
    }
    if h == Make(rid, n + 1) { assert 1 <= n + 1 <= n + 1; }
  }

  ghost predicate AllIssued(rid: nat, n: nat, hs: set<Handle>) {
    forall h {:trigger IssuedBy(rid, n, h)} :: h in hs <==> IssuedBy(rid, n, h)
  }

  /** The counter of a root. */
  class Provider {
    const rid: nat
    var rrv: nat
    ghost var issued: set<Handle>

    constructor (rid: nat)
      ensures Valid() && this.rid == rid && rrv == 0 && issued == {}
    {
      this.rid, rrv, issued := rid, 0, {};
    }

    /** The handles issued are those of the counts so far. */
    ghost predicate Valid()
      reads this
    {
      AllIssued(rid, rrv, issued)
    }

    /** Issue the next handle, which is new exactly when the count was below 2^48. */
    method Next() returns (h: Handle)
      requires Valid()
      modifies this
      ensures Valid() && rrv == old(rrv) + 1 && h == Make(rid, rrv)
      ensures h / 0x1_0000_0000_0000 == rid % 0x1_0000 && h % 0x1_0000_0000_0000 == rrv % 0x1_0000_0000_0000
      ensures h !in old(issued) <==> old(rrv) < 0x1_0000_0000_0000
      ensures issued == old(issued) + {h}
    {
      ghost var n := rrv;
      NextIsNew(rid, n);
      assert Make(rid, n + 1) in issued <==> IssuedBy(rid, n, Make(rid, n + 1));
      rrv := rrv + 1;
      h := Make(rid, rrv);
      MakeParts(rid, rrv);
      ghost var before := issued;
      issued := issued + {h};
      forall x ensures x in issued <==> IssuedBy(rid, rrv, x) {
        IssuedByNext(rid, n, x);
        assert x in before <==> IssuedBy(rid, n, x);
      }
    }
  }
}
