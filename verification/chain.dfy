/** The tail-call chain of oldify_one (byterun/minor_gc.c): a first pass
    into the caller's slot, then one pass per one-field block promoted on
    the way, each into field 0 of the previous block's copy. */
module Chains {
  import opened Heap
  import opened Promotion
  import opened Steps

  /** oldify_one has returned: the invariant holds with the caller's blocks
      being filled in, v0 is settled and slot p0 holds its image r, nothing
      else outside the minor heap that existed at the start changed, and
      either a block was promoted or the to-do list is as it was. */
  ghost predicate Final(y: Range, st: nat, m0: Mem, n0: nat, exc: set<nat>, mIn: Mem, sIn: seq<nat>,
                        p0: Slot, v0: Value, r: Value, m: Mem, nf: nat, todo: Value, s: seq<nat>)
    requires SlotOK(mIn, p0)
  {
    GcInv(y, st, m0, n0, m, nf, todo, s, exc) &&
    Settled(y, m, v0) && r == Image(y, m, v0) && WroteOnly(y, mIn, m, p0, r) &&
    |Unforwarded(y, m)| <= |Unforwarded(y, mIn)| &&
    (|Unforwarded(y, m)| < |Unforwarded(y, mIn)| || s == sIn)
  }

  /** oldify_one is at its tail_call label after promoting the one-field
      block pend: pend is being filled in, its field v is to be promoted
      into p, field 0 of its copy (a block that did not exist at the start);
      slot p0 already holds the image r of v0. */
  ghost predicate Midway(y: Range, st: nat, m0: Mem, n0: nat, exc: set<nat>, mIn: Mem, sIn: seq<nat>,
                         p0: Slot, v0: Value, r: Value, m: Mem, nf: nat, todo: Value, s: seq<nat>,
                         pend: nat, v: Value, p: Slot)
    requires SlotOK(mIn, p0)
  {
    GcInv(y, st, m0, n0, m, nf, todo, s, exc + {pend}) && pend !in exc &&
    pend in m0 && pend in m && y.Contains(pend) && m[pend].hd == Forwarded && |m0[pend].fields| == 1 &&
    p == Field(Copy(m, pend), 0) && p.addr !in mIn && !y.Contains(p.addr) && SlotOK(m, p) &&
    v == m0[pend].fields[0] && RefOK(y, m, v) &&
    Settled(y, m, v0) && r == Image(y, m, v0) && WroteOnly(y, mIn, m, p0, r) &&
    s == sIn && |Unforwarded(y, m)| < |Unforwarded(y, mIn)|
  }

  /** The first pass of oldify_one, into the caller's slot p. */
  lemma {:induction false} FirstPass(y: Range, st: nat, m0: Mem, n0: nat, m: Mem, nf: nat,
                                     todo: Value, s: seq<nat>, exc: set<nat>, v: Value, p: Slot)
    requires GcInv(y, st, m0, n0, m, nf, todo, s, exc) && SlotOK(m, p) && RefOK(y, m, v)
    requires p.Field? ==> !y.Contains(p.addr) && Unprotected(y, m, exc, p.addr)
    ensures PassOK(y, m, nf, v, p)
    ensures var o := Pass(y, m, nf, todo, s, exc, v, p);
      (o.fin ==> Final(y, st, m0, n0, exc, m, s, p, v, o.rv, o.m, o.nf, o.todo, o.list)) &&
      (!o.fin ==> Midway(y, st, m0, n0, exc, m, s, p, v, o.rv, o.m, o.nf, o.todo, o.list, o.b, o.nv, o.next))
  {
    PassKeeps(y, st, m0, n0, m, nf, todo, s, exc, v, p);
  }

  /** Writes into blocks that did not exist at the start keep what the
      first write into p0 established. */
  lemma {:induction false} WroteOnlyTrans(y: Range, mIn: Mem, m: Mem, m': Mem, p0: Slot, r: Value, p: Slot, x: Value)
    requires SlotOK(mIn, p0) && (p0.Field? ==> !y.Contains(p0.addr)) && WroteOnly(y, mIn, m, p0, r)
    requires SlotOK(m, p) && WroteOnly(y, m, m', p, x) && (p.Field? ==> p.addr !in mIn)
    ensures WroteOnly(y, mIn, m', p0, r)
    ensures forall a | a in mIn :: a in m'
  {
    EvolvesTrans(y, mIn, m, m');
  }

  /** The pending block leaves the blocks being filled in, and the block
      the pass left pending, if any, takes its place. */
  lemma DropPending(exc: set<nat>, pend: nat, b: nat)
    requires pend !in exc
    ensures exc + {pend} - {pend} == exc
    ensures b != pend ==> exc + {pend} + {b} - {pend} == exc + {b}
  {
  }

  /** A tail-call pass of oldify_one, into field 0 of the copy of the
      pending block, after which that block is done. */
  lemma {:induction false} NextPass(y: Range, st: nat, m0: Mem, n0: nat, exc: set<nat>, mIn: Mem, sIn: seq<nat>,
                                    p0: Slot, v0: Value, r: Value, m: Mem, nf: nat, todo: Value, s: seq<nat>,
                                    pend: nat, v: Value, p: Slot)
    requires SlotOK(mIn, p0) && (p0.Field? ==> !y.Contains(p0.addr))
    requires Midway(y, st, m0, n0, exc, mIn, sIn, p0, v0, r, m, nf, todo, s, pend, v, p)
    ensures PassOK(y, m, nf, v, p)
    ensures var o := Pass(y, m, nf, todo, s, exc + {pend}, v, p);
      (o.fin ==> Final(y, st, m0, n0, exc, mIn, sIn, p0, v0, r, o.m, o.nf, o.todo, o.list)) &&
      (!o.fin ==> Midway(y, st, m0, n0, exc, mIn, sIn, p0, v0, r, o.m, o.nf, o.todo, o.list, o.b, o.nv, o.next)) &&
      (!o.fin ==> |Unforwarded(y, o.m)| < |Unforwarded(y, m)|)
  {
    OwnCopyUnprotected(y, m, exc + {pend}, pend);
    PassKeeps(y, st, m0, n0, m, nf, todo, s, exc + {pend}, v, p);
    NextOutcome(y, st, m0, n0, exc, mIn, sIn, p0, v0, r, m, nf, todo, s, pend, v, p,
                Pass(y, m, nf, todo, s, exc + {pend}, v, p));
  }

  /** NextPass, for any outcome with the properties every pass has. */
  lemma {:induction false} NextOutcome(y: Range, st: nat, m0: Mem, n0: nat, exc: set<nat>, mIn: Mem, sIn: seq<nat>,
                                       p0: Slot, v0: Value, r: Value, m: Mem, nf: nat, todo: Value, s: seq<nat>,
                                       pend: nat, v: Value, p: Slot, o: Outcome)
    requires SlotOK(mIn, p0) && (p0.Field? ==> !y.Contains(p0.addr))
    requires Midway(y, st, m0, n0, exc, mIn, sIn, p0, v0, r, m, nf, todo, s, pend, v, p)
    requires Stepped(y, m, nf, s, exc + {pend}, v, p, o) && Kept(y, st, m0, n0, m, s, exc + {pend}, o)
    ensures o.fin ==> Final(y, st, m0, n0, exc, mIn, sIn, p0, v0, r, o.m, o.nf, o.todo, o.list)
    ensures !o.fin ==> Midway(y, st, m0, n0, exc, mIn, sIn, p0, v0, r, o.m, o.nf, o.todo, o.list, o.b, o.nv, o.next)
  {
    var c := Copy(m, pend);
    AgreesAt(y, m0, m, n0, pend);
    assert o.m[pend] == m[pend];
    assert Copy(o.m, pend) == c;
    assert Done(y, m0, o.m, pend) by {
      assert |o.m[c].fields| == 1;
      assert o.m[c].fields[0] == o.rv;
    }
    FinishKeeps(y, st, m0, n0, o.m, o.nf, o.todo, o.list, o.filling, pend);
    WroteOnlyTrans(y, mIn, m, o.m, p0, r, p, o.rv);
    ImageStable(y, m, o.m, v0);
    if o.fin {
      DropPending(exc, pend, pend);
    } else {
      assert m[o.b].hd.Hd? && m[pend].hd == Forwarded;
      DropPending(exc, pend, o.b);
    }
  }
}
