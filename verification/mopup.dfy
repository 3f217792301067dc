/** The scan of a block taken off the to-do list by oldify_mopup
    (byterun/minor_gc.c): its copy is filled in field by field with the
    images of the original's fields. */
module Mopups {
  import opened Heap
  import opened Promotion
  import opened Steps

  /** Fields 0 .. i-1 of c, the copy of block a, hold the images of the
      original's fields. */
  ghost predicate Filled(y: Range, m0: Mem, m: Mem, a: nat, c: nat, i: nat)
    requires a in m0 && c in m && i <= |m0[a].fields| && |m[c].fields| == |m0[a].fields|
  {
    forall j | 0 <= j < i :: Settled(y, m, m0[a].fields[j]) && m[c].fields[j] == Image(y, m, m0[a].fields[j])
  }

  /** Taking the head a off a non-empty to-do list: its copy holds the link
      to the rest of the list in field 1, and the invariant holds with a
      being filled in. */
  lemma {:induction false} PopFacts(y: Range, st: nat, m0: Mem, n0: nat, m: Mem, nf: nat, todo: Value, s: seq<nat>)
    requires GcInv(y, st, m0, n0, m, nf, todo, s, {}) && todo != Null
    ensures s != [] && todo == Ptr(s[0]) && s[0] in m && s[0] in m0
    ensures m[s[0]].hd == Forwarded && |m[s[0]].fields| > 0 && m[s[0]].fields[0] == Ptr(Copy(m, s[0]))
    ensures Copy(m, s[0]) in m && |m[Copy(m, s[0])].fields| >= 2
    ensures m[Copy(m, s[0])].fields[1] == Link(s, 0) && m[Copy(m, s[0])].fields[0] == m0[s[0]].fields[0]
    ensures GcInv(y, st, m0, n0, m, nf, Link(s, 0), s[1..], {s[0]})
  {
    PopKeeps(y, st, m0, n0, m, nf, todo, s, {});
    AgreesAt(y, m0, m, n0, s[0]);
  }

  /** What filling in field i of the copy of a, the block being scanned,
      needs: the copy is outside the minor heap, has the original's header
      and size, and is the copy of no other block; field i of the original
      is readable, and for i > 0 still holds its first value. */
  lemma {:induction false} FillSlot(y: Range, st: nat, m0: Mem, n0: nat, m: Mem, nf: nat, todo: Value, s: seq<nat>,
                                    a: nat, i: nat)
    requires GcInv(y, st, m0, n0, m, nf, todo, s, {a}) && a in m0 && i < |m0[a].fields|
    ensures a in m && y.Contains(a) && m[a].hd == Forwarded && |m[a].fields| == |m0[a].fields|
    ensures Copy(m, a) in m && !y.Contains(Copy(m, a)) && Copy(m, a) >= n0 && m[Copy(m, a)].hd == m0[a].hd && m0[a].hd.Hd?
    ensures |m[Copy(m, a)].fields| == m0[a].hd.wosize == |m0[a].fields|
    ensures Unprotected(y, m, {a}, Copy(m, a))
    ensures RefOK(y, m, m0[a].fields[i])
    ensures 0 < i ==> m[a].fields[i] == m0[a].fields[i]
  {
    AgreesAt(y, m0, m, n0, a);
    OwnCopyUnprotected(y, m, {a}, a);
    assert BlockWf(y, m0, st, a);
    assert RefOK(y, m0, m0[a].fields[i]);
    if 0 < i {
      assert m[a].fields[i] == m[a].fields[1..][i - 1];
    }
  }

  /** Field i of the copy now holds the image of the original's field i:
      one more field is filled, and the earlier ones are untouched. */
  lemma {:induction false} FilledStep(y: Range, m0: Mem, m: Mem, m': Mem, a: nat, c: nat, i: nat, x: Value)
    requires a in m0 && a in m && y.Contains(a) && m[a].hd == Forwarded && c == Copy(m, a)
    requires c in m && !y.Contains(c) && i < |m0[a].fields| == |m[c].fields|
    requires Filled(y, m0, m, a, c, i)
    requires SlotOK(m, Field(c, i)) && WroteOnly(y, m, m', Field(c, i), x)
    requires Settled(y, m', m0[a].fields[i]) && x == Image(y, m', m0[a].fields[i])
    ensures a in m' && m'[a] == m[a] && Copy(m', a) == c
    ensures c in m' && m'[c].hd == m[c].hd && |m'[c].fields| == |m[c].fields|
    ensures Filled(y, m0, m', a, c, i + 1)
  {
    forall j | 0 <= j < i
      ensures Settled(y, m', m0[a].fields[j]) && m'[c].fields[j] == Image(y, m', m0[a].fields[j])
    {
      ImageStable(y, m, m', m0[a].fields[j]);
    }
  }

  /** Field i of the copy already holds the original's field, which is not
      a pointer into the minor heap: one more field is filled. */
  lemma {:induction false} FilledKept(y: Range, m0: Mem, m: Mem, a: nat, c: nat, i: nat)
    requires a in m0 && c in m && i < |m0[a].fields| == |m[c].fields|
    requires Filled(y, m0, m, a, c, i) && m[c].fields[i] == m0[a].fields[i] && !IsMinor(y, m0[a].fields[i])
    ensures Filled(y, m0, m, a, c, i + 1)
  {
  }

  /** From m to m', no block outside the minor heap below n0 (that is, no
      block that existed when the collection began) changed. */
  ghost predicate Below(y: Range, n0: nat, m: Mem, m': Mem) {
    forall a | a in m && !y.Contains(a) && a < n0 :: a in m' && m'[a] == m[a]
  }

  /** A write into a block allocated during the collection changes nothing
      below n0. */
  lemma {:induction false} WroteBelow(y: Range, n0: nat, m: Mem, m': Mem, p: Slot, x: Value)
    requires SlotOK(m, p) && WroteOnly(y, m, m', p, x) && (p.Field? ==> p.addr >= n0)
    ensures Below(y, n0, m, m')
  {
  }

  lemma {:induction false} BelowTrans(y: Range, n0: nat, m1: Mem, m2: Mem, m3: Mem)
    requires Below(y, n0, m1, m2) && Below(y, n0, m2, m3)
    ensures Below(y, n0, m1, m3)
  {
    forall a | a in m1 && !y.Contains(a) && a < n0 ensures a in m3 && m3[a] == m1[a] {
      assert a in m2 && m2[a] == m1[a];
    }
  }

  /** Once every field of the copy is filled, the block is done and leaves
      the blocks being filled in. */
  lemma {:induction false} ScanDone(y: Range, st: nat, m0: Mem, n0: nat, m: Mem, nf: nat, todo: Value, s: seq<nat>,
                                    a: nat, c: nat)
    requires GcInv(y, st, m0, n0, m, nf, todo, s, {a}) && a in m0 && a in m && c == Copy(m, a) && c in m
    requires |m[c].fields| == |m0[a].fields| && Filled(y, m0, m, a, c, |m0[a].fields|)
    ensures GcInv(y, st, m0, n0, m, nf, todo, s, {})
  {
    FinishKeeps(y, st, m0, n0, m, nf, todo, s, {a}, a);
    assert {a} - {a} == {};
  }
}
