/** The sequential skeleton of caml_empty_minor_heap_domain
    (byterun/minor_gc.c:379-481): promote what the roots and the remembered
    set point to, finish the copies, rewrite the remembered slots, empty the
    remembered set, reset the minor heap and count the collection. */
module Drains {
  import opened Heap
  import opened Promotion
  import opened Steps
  import opened Chains
  import opened Mopups
  import opened RefTables
  import opened Domains
  import opened Oldify
  import opened Rewrites

  /** Slots that are fields of shared-heap blocks of m holding values that
      can be dereferenced. */
  ghost predicate SlotsIn(y: Range, m: Mem, qs: seq<Slot>) {
    forall q | q in qs :: q.Field? && !y.Contains(q.addr) && SlotOK(m, q) && RefOK(y, m, SlotVal(m, q))
  }

  /** The state of the slots qs, measured against the heap mS at the start
      of the collection: those among qs[..i] hold the image of their
      original value, the others still hold their original value, which is
      settled for those among qs[..k]. */
  ghost predicate Slots(y: Range, mS: Mem, m: Mem, qs: seq<Slot>, i: nat, k: nat)
    requires SlotsIn(y, mS, qs) && i <= |qs| && k <= |qs|
  {
    forall q | q in qs ::
      SlotOK(m, q) &&
      (q in qs[..i] ==> Settled(y, m, SlotVal(mS, q)) && SlotVal(m, q) == Image(y, m, SlotVal(mS, q))) &&
      (q !in qs[..i] ==> SlotVal(m, q) == SlotVal(mS, q) && (q in qs[..k] ==> Settled(y, m, SlotVal(mS, q))))
  }

  /** Every block that lay outside the minor heap in m0 is still there
      with its header and size, and each of its fields that is neither a
      root nor a remembered slot still holds its value from m0. */
  ghost predicate Untouched(y: Range, m0: Mem, m: Mem, roots: seq<Slot>, es: seq<Slot>) {
    forall a | a in m0 && !y.Contains(a) ::
      a in m && m[a].hd == m0[a].hd && |m[a].fields| == |m0[a].fields| &&
      forall i | 0 <= i < |m0[a].fields| && Field(a, i) !in roots && Field(a, i) !in es ::
        m[a].fields[i] == m0[a].fields[i]
  }

  /** A block that lay outside the minor heap and holds no root and no
      remembered slot is exactly as it was. */
  lemma {:induction false} UntouchedBlock(y: Range, m0: Mem, m: Mem, roots: seq<Slot>, es: seq<Slot>, b: nat)
    requires Untouched(y, m0, m, roots, es) && b in m0 && !y.Contains(b)
    requires forall q | q in roots || q in es :: !(q.Field? && q.addr == b)
    ensures b in m && m[b] == m0[b]
  {
    assert m[b].fields == m0[b].fields by {
      forall i | 0 <= i < |m0[b].fields| ensures m[b].fields[i] == m0[b].fields[i] {
        assert Field(b, i) !in roots && Field(b, i) !in es;
      }
    }
  }

  /** A write into a root or remembered slot, or into a local, keeps the
      other fields of the blocks that existed at the start. */
  lemma {:induction false} UntouchedWrite(y: Range, m0: Mem, m: Mem, m': Mem, roots: seq<Slot>, es: seq<Slot>,
                                          p: Slot, x: Value)
    requires Untouched(y, m0, m, roots, es) && SlotOK(m, p) && WroteOnly(y, m, m', p, x)
    requires p.Field? ==> p in roots || p in es
    ensures Untouched(y, m0, m', roots, es)
  {
    forall a | a in m0 && !y.Contains(a)
      ensures a in m' && m'[a].hd == m0[a].hd && |m'[a].fields| == |m0[a].fields|
      ensures forall i | 0 <= i < |m0[a].fields| && Field(a, i) !in roots && Field(a, i) !in es ::
        m'[a].fields[i] == m0[a].fields[i]
    {
      if p.Field? && a == p.addr {
        forall i | 0 <= i < |m0[a].fields| && Field(a, i) !in roots && Field(a, i) !in es
          ensures m'[a].fields[i] == m0[a].fields[i]
        {
          assert i != p.index;
        }
      }
    }
  }

  /** Changes confined to blocks allocated during the collection keep the
      blocks that existed at the start. */
  lemma {:induction false} UntouchedBelow(y: Range, n0: nat, m0: Mem, m: Mem, m': Mem, roots: seq<Slot>, es: seq<Slot>)
    requires Untouched(y, m0, m, roots, es) && Below(y, n0, m, m') && forall a | a in m0 :: a < n0
    ensures Untouched(y, m0, m', roots, es)
  {
    forall a | a in m0 && !y.Contains(a) ensures a in m' && m'[a] == m[a] {
      assert a in m && a < n0;
    }
  }

  /** A slot of qs holds a value that can be dereferenced while the minor
      heap keeps its blocks. */
  lemma {:induction false} SlotRefOK(y: Range, mS: Mem, m: Mem, qs: seq<Slot>, i: nat, k: nat, q: Slot)
    requires SlotsIn(y, mS, qs) && i <= |qs| && k <= |qs| && Slots(y, mS, m, qs, i, k) && q in qs
    requires forall a | y.Contains(a) :: a in mS <==> a in m
    ensures SlotOK(m, q) && RefOK(y, m, SlotVal(m, q))
  {
    if q !in qs[..i] {
      assert SlotVal(m, q) == SlotVal(mS, q);
    }
  }

  /** Promoting slot qs[i] in place (the slot comes to hold the image of its
      value, nothing else outside the minor heap changes) advances i. */
  lemma {:induction false} PassSlot(y: Range, mS: Mem, m: Mem, m': Mem, qs: seq<Slot>, i: nat, k: nat, r: Value)
    requires SlotsIn(y, mS, qs) && i < |qs| && k <= |qs| && Slots(y, mS, m, qs, i, k)
    requires SlotOK(m, qs[i]) && WroteOnly(y, m, m', qs[i], r)
    requires Settled(y, m', SlotVal(m, qs[i])) && r == Image(y, m', SlotVal(m, qs[i]))
    ensures Slots(y, mS, m', qs, i + 1, k)
  {
    var p := qs[i];
    assert qs[..i + 1] == qs[..i] + [p];
    forall q | q in qs
      ensures SlotOK(m', q)
      ensures q in qs[..i + 1] ==> Settled(y, m', SlotVal(mS, q)) && SlotVal(m', q) == Image(y, m', SlotVal(mS, q))
      ensures q !in qs[..i + 1] ==> SlotVal(m', q) == SlotVal(mS, q) && (q in qs[..k] ==> Settled(y, m', SlotVal(mS, q)))
    {
      if q == p {
        if q in qs[..i] {
          ImageStable(y, m, m', SlotVal(mS, q));
        }
      } else {
        assert SlotOK(m', q) && SlotVal(m', q) == SlotVal(m, q) by {
          if q.addr != p.addr {
            assert m'[q.addr] == m[q.addr];
          }
        }
        if q in qs[..i] || q in qs[..k] {
          ImageStable(y, m, m', SlotVal(mS, q));
        }
      }
    }
  }

  /** A write to a slot outside qs leaves the state of qs as it is. */
  lemma {:induction false} FrameSlots(y: Range, mS: Mem, m: Mem, m': Mem, qs: seq<Slot>, i: nat, k: nat, p: Slot, r: Value)
    requires SlotsIn(y, mS, qs) && i <= |qs| && k <= |qs| && Slots(y, mS, m, qs, i, k)
    requires SlotOK(m, p) && WroteOnly(y, m, m', p, r) && p !in qs
    ensures Slots(y, mS, m', qs, i, k)
  {
    forall q | q in qs
      ensures SlotOK(m', q) && SlotVal(m', q) == SlotVal(m, q)
      ensures q in qs[..i] || q in qs[..k] ==> Settled(y, m', SlotVal(mS, q)) && Image(y, m', SlotVal(mS, q)) == Image(y, m, SlotVal(mS, q))
    {
      if !(p.Field? && q.addr == p.addr) {
        assert m'[q.addr] == m[q.addr];
      }
      if q in qs[..i] || q in qs[..k] {
        ImageStable(y, m, m', SlotVal(mS, q));
      }
    }
  }

  /** Changes confined to blocks that did not exist at the start leave the
      state of slots of older blocks as it is. */
  lemma {:induction false} BelowSlots(y: Range, n0: nat, mS: Mem, m: Mem, m': Mem, qs: seq<Slot>, i: nat, k: nat)
    requires SlotsIn(y, mS, qs) && i <= |qs| && k <= |qs| && Slots(y, mS, m, qs, i, k)
    requires Below(y, n0, m, m') && Evolves(y, m, m') && forall q | q in qs :: q.addr < n0
    ensures Slots(y, mS, m', qs, i, k)
  {
    forall q | q in qs
      ensures SlotOK(m', q) && SlotVal(m', q) == SlotVal(m, q)
      ensures q in qs[..i] || q in qs[..k] ==> Settled(y, m', SlotVal(mS, q)) && Image(y, m', SlotVal(mS, q)) == Image(y, m, SlotVal(mS, q))
    {
      assert m'[q.addr] == m[q.addr];
      if q in qs[..i] || q in qs[..k] {
        ImageStable(y, m, m', SlotVal(mS, q));
      }
    }
  }

  /** Once the value of slot qs[k] is settled, so is the state up to k + 1. */
  lemma {:induction false} SettleSlot(y: Range, mS: Mem, m: Mem, qs: seq<Slot>, k: nat)
    requires SlotsIn(y, mS, qs) && k < |qs| && Slots(y, mS, m, qs, 0, k)
    requires SlotOK(m, qs[k]) && Settled(y, m, SlotVal(m, qs[k]))
    ensures Slots(y, mS, m, qs, 0, k + 1)
  {
    assert qs[..k + 1] == qs[..k] + [qs[k]];
  }

  /** When every original value is settled, slot qs[i] holds a settled
      value. */
  lemma {:induction false} SlotSettled(y: Range, mS: Mem, m: Mem, qs: seq<Slot>, i: nat)
    requires SlotsIn(y, mS, qs) && i < |qs| && Slots(y, mS, m, qs, i, |qs|)
    ensures SlotOK(m, qs[i]) && Settled(y, m, SlotVal(m, qs[i]))
  {
    var q := qs[i];
    assert q in qs[..|qs|];
  }

  /** Once every slot holds its image, how far the original values were
      known to be settled no longer matters. */
  lemma {:induction false} SlotsDone(y: Range, mS: Mem, m: Mem, qs: seq<Slot>)
    requires SlotsIn(y, mS, qs) && Slots(y, mS, m, qs, |qs|, |qs|)
    ensures Slots(y, mS, m, qs, |qs|, 0)
  {
  }

  /** The slots of qs all lie in blocks below n0. */
  lemma {:induction false} SlotsBelow(y: Range, m0: Mem, n0: nat, qs: seq<Slot>)
    requires SlotsIn(y, m0, qs) && forall a | a in m0 :: a < n0
    ensures forall q | q in qs :: q.addr < n0
  {
  }

  /** The first loop of the collection: each root slot is promoted in
      place, one after the other. */
  method PromoteRoots(st: OldifyState, roots: seq<Slot>, ghost others: seq<Slot>)
    requires st.Inv({}) && st.dom.mem == st.m0
    requires SlotsIn(st.dom.Young(), st.m0, roots) && SlotsIn(st.dom.Young(), st.m0, others)
    requires forall q | q in roots :: q !in others
    modifies st`todo, st`todoSeq, st`liveBytes, st`oldestPromoted, st.dom`mem, st.dom`nextFree, st.dom`allocatedWords
    ensures st.Inv({})
    ensures Slots(st.dom.Young(), st.m0, st.dom.mem, roots, |roots|, 0)
    ensures Slots(st.dom.Young(), st.m0, st.dom.mem, others, 0, 0)
    ensures Untouched(st.dom.Young(), st.m0, st.dom.mem, roots, others)
    ensures st.dom.allocatedWords + old(st.dom.nextFree) == old(st.dom.allocatedWords) + st.dom.nextFree
  {
    ghost var y := st.dom.Young();
    SlotsBelow(y, st.m0, st.n0, roots);
    var i := 0;
    while i < |roots|
      invariant i <= |roots| && st.Inv({})
      invariant Slots(y, st.m0, st.dom.mem, roots, i, 0) && Slots(y, st.m0, st.dom.mem, others, 0, 0)
      invariant Untouched(y, st.m0, st.dom.mem, roots, others)
      invariant st.dom.allocatedWords + old(st.dom.nextFree) == old(st.dom.allocatedWords) + st.dom.nextFree
    {
      var q := roots[i];
      SlotRefOK(y, st.m0, st.dom.mem, roots, i, 0, q);
      BelowN0Unprotected(y, st.m0, st.n0, st.dom.mem, q.addr, {});
      ghost var m := st.dom.mem;
      var r := st.OldifyOne(st.dom.mem[q.addr].fields[q.index], q, {});
      PassSlot(y, st.m0, m, st.dom.mem, roots, i, 0, r);
      FrameSlots(y, st.m0, m, st.dom.mem, others, 0, 0, q, r);
      UntouchedWrite(y, st.m0, m, st.dom.mem, roots, others, q, r);
      i := i + 1;
    }
  }

  /** The loop over major_ref: the value each remembered slot holds is
      promoted into a local variable, leaving the slot itself as it is. */
  method PromoteMajorRef(st: OldifyState, ghost roots: seq<Slot>)
    requires st.Inv({}) && st.dom.majorRef.Valid()
    requires SlotsIn(st.dom.Young(), st.m0, roots) && SlotsIn(st.dom.Young(), st.m0, st.dom.majorRef.Entries())
    requires Slots(st.dom.Young(), st.m0, st.dom.mem, roots, |roots|, 0)
    requires Slots(st.dom.Young(), st.m0, st.dom.mem, st.dom.majorRef.Entries(), 0, 0)
    requires Untouched(st.dom.Young(), st.m0, st.dom.mem, roots, st.dom.majorRef.Entries())
    modifies st`todo, st`todoSeq, st`liveBytes, st`oldestPromoted, st.dom`mem, st.dom`nextFree, st.dom`allocatedWords
    ensures st.Inv({})
    ensures Slots(st.dom.Young(), st.m0, st.dom.mem, roots, |roots|, 0)
    ensures Slots(st.dom.Young(), st.m0, st.dom.mem, st.dom.majorRef.Entries(), 0, |st.dom.majorRef.Entries()|)
    ensures Untouched(st.dom.Young(), st.m0, st.dom.mem, roots, st.dom.majorRef.Entries())
    ensures st.dom.allocatedWords + old(st.dom.nextFree) == old(st.dom.allocatedWords) + st.dom.nextFree
  {
    ghost var y := st.dom.Young();
    ghost var es := st.dom.majorRef.Entries();
    var j := 0;
    while j < st.dom.majorRef.ptr
      invariant j <= |es| && st.Inv({})
      invariant Slots(y, st.m0, st.dom.mem, roots, |roots|, 0) && Slots(y, st.m0, st.dom.mem, es, 0, j)
      invariant Untouched(y, st.m0, st.dom.mem, roots, es)
      invariant st.dom.allocatedWords + old(st.dom.nextFree) == old(st.dom.allocatedWords) + st.dom.nextFree
    {
      var e := st.dom.majorRef.data[j];
      assert e == es[j];
      SlotRefOK(y, st.m0, st.dom.mem, es, 0, j, e);
      ghost var m := st.dom.mem;
      var x := st.dom.mem[e.addr].fields[e.index];
      var _ := st.OldifyOne(x, Local, {});
      FrameSlots(y, st.m0, m, st.dom.mem, roots, |roots|, 0, Local, x);
      FrameSlots(y, st.m0, m, st.dom.mem, es, 0, j, Local, x);
      SettleSlot(y, st.m0, st.dom.mem, es, j);
      UntouchedWrite(y, st.m0, m, st.dom.mem, roots, es, Local, x);
      j := j + 1;
    }
  }

  /** One turn of the rewrite loop: a remembered slot still holding a
      pointer v into the minor heap is swapped to the copy of v's block plus
      v's infix offset, expecting the slot to hold v. */
  method RewriteSlot(st: OldifyState, e: Slot)
    requires st.Inv({}) && e.Field? && SlotOK(st.dom.mem, e) && !st.dom.Young().Contains(e.addr) && e.addr < st.n0
    requires Settled(st.dom.Young(), st.dom.mem, SlotVal(st.dom.mem, e))
    modifies st.dom`mem
    ensures st.Inv({})
    ensures WroteOnly(st.dom.Young(), old(st.dom.mem), st.dom.mem, e,
                      Rewrite(st.dom.Young(), old(st.dom.mem), SlotVal(old(st.dom.mem), e)))
  {
    ghost var m := st.dom.mem;
    var v := st.dom.mem[e.addr].fields[e.index];
    if v.Ptr? && st.dom.Young().Contains(v.addr) {
      var hd := st.dom.mem[v.addr].hd;
      var b, off := v.addr, 0;
      if hd.Hd? && hd.tag == InfixTag {
        off := hd.wosize;
        assert off <= v.addr && Base(st.dom.mem, v.addr) == v.addr - off;
        b := v.addr - off;
      }
      var vnew := Ptr(st.dom.mem[b].fields[0].addr + off);
      assert Cas(v, v, vnew) == Rewrite(st.dom.Young(), m, v) by {
        assert b == Base(m, v.addr) && off == Offset(m, v.addr);
      }
      BelowN0Unprotected(st.dom.Young(), st.m0, st.n0, st.dom.mem, e.addr, {});
      st.Write(e, Cas(st.dom.mem[e.addr].fields[e.index], v, vnew), {});
    } else {
      assert st.dom.mem[e.addr].fields[e.index := v] == st.dom.mem[e.addr].fields;
    }
  }

  /** The loop over major_ref that rewrites each remembered slot. */
  method RewriteMajorRef(st: OldifyState, ghost roots: seq<Slot>)
    requires st.Inv({}) && st.dom.majorRef.Valid()
    requires SlotsIn(st.dom.Young(), st.m0, roots) && SlotsIn(st.dom.Young(), st.m0, st.dom.majorRef.Entries())
    requires forall q | q in roots :: q !in st.dom.majorRef.Entries()
    requires Slots(st.dom.Young(), st.m0, st.dom.mem, roots, |roots|, 0)
    requires Slots(st.dom.Young(), st.m0, st.dom.mem, st.dom.majorRef.Entries(), 0, |st.dom.majorRef.Entries()|)
    requires Untouched(st.dom.Young(), st.m0, st.dom.mem, roots, st.dom.majorRef.Entries())
    modifies st.dom`mem
    ensures st.Inv({})
    ensures Slots(st.dom.Young(), st.m0, st.dom.mem, roots, |roots|, 0)
    ensures Slots(st.dom.Young(), st.m0, st.dom.mem, st.dom.majorRef.Entries(), |st.dom.majorRef.Entries()|, |st.dom.majorRef.Entries()|)
    ensures Untouched(st.dom.Young(), st.m0, st.dom.mem, roots, st.dom.majorRef.Entries())
  {
    ghost var y := st.dom.Young();
    ghost var es := st.dom.majorRef.Entries();
    SlotsBelow(y, st.m0, st.n0, es);
    var j := 0;
    while j < st.dom.majorRef.ptr
      invariant j <= |es| && st.Inv({})
      invariant Slots(y, st.m0, st.dom.mem, roots, |roots|, 0) && Slots(y, st.m0, st.dom.mem, es, j, |es|)
      invariant Untouched(y, st.m0, st.dom.mem, roots, es)
    {
      var e := st.dom.majorRef.data[j];
      assert e == es[j] && e in es;
      SlotSettled(y, st.m0, st.dom.mem, es, j);
      ghost var m := st.dom.mem;
      ghost var x := SlotVal(m, e);
      RewriteSlot(st, e);
      ImageStable(y, m, st.dom.mem, x);
      PassSlot(y, st.m0, m, st.dom.mem, es, j, |es|, Rewrite(y, m, x));
      FrameSlots(y, st.m0, m, st.dom.mem, roots, |roots|, 0, e, Rewrite(y, m, x));
      UntouchedWrite(y, st.m0, m, st.dom.mem, roots, es, e, Rewrite(y, m, x));
      j := j + 1;
    }
  }

  /** The outcome of the promotion work, measured against the heap m0 and
      free pointer n0 at the start: every promoted block's copy is complete,
      the to-do list is empty, every root and every remembered slot holds
      the image of what it held, and every other field of the blocks that
      lay outside the minor heap is as it was. */
  ghost predicate Collected(y: Range, stackTag: nat, m0: Mem, n0: nat, m: Mem, nf: nat, roots: seq<Slot>, es: seq<Slot>)
    requires SlotsIn(y, m0, roots) && SlotsIn(y, m0, es)
  {
    GcInv(y, stackTag, m0, n0, m, nf, Null, [], {}) &&
    Slots(y, m0, m, roots, |roots|, 0) && Slots(y, m0, m, es, |es|, 0) &&
    Untouched(y, m0, m, roots, es)
  }

  /** What a finished collection guarantees of each promoted block: its
      copy lies outside the minor heap with the original's header, and holds
      the image of every original field, or, for a block with no pointers,
      the original fields word for word. */
  lemma {:induction false} CopyComplete(y: Range, stackTag: nat, m0: Mem, n0: nat, m: Mem, nf: nat, a: nat)
    requires GcInv(y, stackTag, m0, n0, m, nf, Null, [], {})
    requires a in m && y.Contains(a) && m[a].hd == Forwarded
    ensures a in m0 && Copy(m, a) in m && !y.Contains(Copy(m, a)) && m[Copy(m, a)].hd == m0[a].hd
    ensures m0[a].hd.Hd? && m0[a].hd.tag < NoScanTag ==>
      forall i | 0 <= i < |m0[a].fields| ::
        Settled(y, m, m0[a].fields[i]) && m[Copy(m, a)].fields[i] == Image(y, m, m0[a].fields[i])
    ensures m0[a].hd.Hd? && m0[a].hd.tag >= NoScanTag ==> m[Copy(m, a)].fields == m0[a].fields
  {
    AgreesAt(y, m0, m, n0, a);
    assert Promoted(y, m0[a], m, a, n0);
    if m0[a].hd.tag < NoScanTag {
      assert Done(y, m0, m, a);
    }
  }

  /** The promotion work of a minor collection: the roots, then what the
      remembered slots point to, then the to-do list, then the rewrite of
      the remembered slots. */
  method Collect(st: OldifyState, roots: seq<Slot>)
    requires st.Inv({}) && st.dom.mem == st.m0 && st.dom.majorRef.Valid()
    requires SlotsIn(st.dom.Young(), st.m0, roots) && SlotsIn(st.dom.Young(), st.m0, st.dom.majorRef.Entries())
    requires forall q | q in roots :: q !in st.dom.majorRef.Entries()
    modifies st`todo, st`todoSeq, st`liveBytes, st`oldestPromoted, st.dom`mem, st.dom`nextFree, st.dom`allocatedWords
    ensures st.dom.Valid()
    ensures Collected(st.dom.Young(), st.dom.stackTag, st.m0, st.n0, st.dom.mem, st.dom.nextFree, roots, st.dom.majorRef.Entries())
    ensures st.dom.allocatedWords + old(st.dom.nextFree) == old(st.dom.allocatedWords) + st.dom.nextFree
  {
    ghost var y, es := st.dom.Young(), st.dom.majorRef.Entries();
    PromoteRoots(st, roots, es);
    PromoteMajorRef(st, roots);
    ghost var m := st.dom.mem;
    st.Mopup();
    SlotsBelow(y, st.m0, st.n0, roots);
    SlotsBelow(y, st.m0, st.n0, es);
    BelowSlots(y, st.n0, st.m0, m, st.dom.mem, roots, |roots|, 0);
    BelowSlots(y, st.n0, st.m0, m, st.dom.mem, es, 0, |es|);
    UntouchedBelow(y, st.n0, st.m0, m, st.dom.mem, roots, es);
    RewriteMajorRef(st, roots);
    SlotsDone(y, st.m0, st.dom.mem, es);
  }

  /** The end of a minor collection: forget the remembered set, empty the
      minor heap and count the collection, minorAllocated words having been
      allocated in the minor heap since the last one and the shared heap's
      allocation count having stood at prevAllocWords before it. */
  method Finish(d: Domain, minorAllocated: nat, prevAllocWords: nat)
    requires d.Valid() && d.majorRef.Valid() && d.minorRef.Valid() && d.fiberRef.Valid()
    requires d.allocatedWords >= prevAllocWords
    modifies d`youngPtr, d`statMinorWords, d`statMinorCollections, d`statPromotedWords, d`promotedInCurrentCycle
    modifies d.majorRef`ptr, d.majorRef`limit, d.minorRef`ptr, d.minorRef`limit, d.fiberRef`ptr, d.fiberRef`limit
    ensures d.Valid() && d.majorRef.Valid() && d.minorRef.Valid() && d.fiberRef.Valid()
    ensures d.majorRef.Entries() == [] && d.minorRef.Entries() == [] && d.fiberRef.Entries() == []
    ensures d.majorRef.limit == d.majorRef.threshold && d.minorRef.limit == d.minorRef.threshold && d.fiberRef.limit == d.fiberRef.threshold
    ensures d.youngPtr == d.youngEnd
    ensures d.statMinorWords == old(d.statMinorWords) + minorAllocated
    ensures d.statMinorCollections == old(d.statMinorCollections) + 1
    ensures d.statPromotedWords == old(d.statPromotedWords) + (d.allocatedWords - prevAllocWords)
    ensures !d.promotedInCurrentCycle
  {
    d.majorRef.ClearTable();
    d.minorRef.ClearTable();
    d.youngPtr := d.youngEnd;
    d.statMinorWords := d.statMinorWords + minorAllocated;
    d.statMinorCollections := d.statMinorCollections + 1;
    d.statPromotedWords := d.statPromotedWords + (d.allocatedWords - prevAllocWords);
    d.fiberRef.ClearTable();
    d.promotedInCurrentCycle := false;
  }

  /** caml_empty_minor_heap_domain, run by the domain alone, with the roots
      given as the list of slots that hold them. Afterwards every root and
      every remembered slot holds the image of what it held before, every
      promoted block's copy is complete, the remembered set is empty, the
      minor heap is empty and the statistics count the collection. */
  method EmptyMinorHeapDomain(d: Domain, roots: seq<Slot>)
    requires d.Valid() && NurseryWf(d.Young(), d.mem, d.stackTag)
    requires d.majorRef.Valid() && d.minorRef.Valid() && d.fiberRef.Valid()
    requires SlotsIn(d.Young(), d.mem, roots) && SlotsIn(d.Young(), d.mem, d.majorRef.Entries())
    requires forall q | q in roots :: q !in d.majorRef.Entries()
    modifies d, d.majorRef`ptr, d.majorRef`limit, d.minorRef`ptr, d.minorRef`limit, d.fiberRef`ptr, d.fiberRef`limit
    ensures d.Valid() && d.majorRef.Valid() && d.minorRef.Valid() && d.fiberRef.Valid()
    ensures Collected(d.Young(), d.stackTag, old(d.mem), old(d.nextFree), d.mem, d.nextFree, roots, old(d.majorRef.Entries()))
    ensures d.majorRef.Entries() == [] && d.minorRef.Entries() == [] && d.fiberRef.Entries() == []
    ensures d.majorRef.limit == d.majorRef.threshold && d.minorRef.limit == d.minorRef.threshold && d.fiberRef.limit == d.fiberRef.threshold
    ensures d.youngPtr == d.youngEnd
    ensures d.statMinorWords == old(d.statMinorWords) + (d.youngEnd - old(d.youngPtr))
    ensures d.statMinorCollections == old(d.statMinorCollections) + 1
    ensures d.allocatedWords >= old(d.allocatedWords)
    ensures d.statPromotedWords == old(d.statPromotedWords) + (d.allocatedWords - old(d.allocatedWords))
    ensures !d.promotedInCurrentCycle
  {
    var minorAllocated := d.youngEnd - d.youngPtr;
    var prevAllocWords := d.allocatedWords;
    var st := new OldifyState(d);
    Collect(st, roots);
    Finish(d, minorAllocated, prevAllocWords);
  }
}
