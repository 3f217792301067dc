/** The promotion engine (oldify_one) and the deferred-scan loop
    (oldify_mopup) of byterun/minor_gc.c, over the state of one minor
    collection (struct oldify_state). */
module Oldify {
  import opened Heap
  import opened Promotion
  import opened Domains
  import opened Steps
  import opened Chains
  import opened Mopups

  class OldifyState {
    const dom: Domain
    var todo: Value
    var liveBytes: nat
    var oldestPromoted: nat
    /** The originals on the to-do list, head first. */
    ghost var todoSeq: seq<nat>
    /** The heap and the shared heap's free pointer when the collection began. */
    ghost const m0: Mem
    ghost const n0: nat

    ghost predicate Inv(exc: set<nat>)
      reads this, dom
    {
      dom.Valid() && GcInv(dom.Young(), dom.stackTag, m0, n0, dom.mem, dom.nextFree, todo, todoSeq, exc)
    }

    /** struct oldify_state st = {0}, promoting for domain d. */
    constructor (d: Domain)
      requires d.Valid() && NurseryWf(d.Young(), d.mem, d.stackTag)
      ensures dom == d && m0 == d.mem && n0 == d.nextFree
      ensures todo == Null && todoSeq == [] && liveBytes == 0 && oldestPromoted == 0
      ensures Inv({})
    {
      dom := d;
      todo := Null;
      liveBytes := 0;
      oldestPromoted := 0;
      todoSeq := [];
      m0 := d.mem;
      n0 := d.nextFree;
      new;
      assert Agrees(d.Young(), m0, d.mem, n0) by {
        forall a | a in m0 && d.Young().Contains(a) ensures m0[a].hd.Hd? {
          assert BlockWf(d.Young(), m0, d.stackTag, a);
        }
      }
      assert CopiesDistinct(d.Young(), d.mem) by {
        forall a | a in m0 && d.Young().Contains(a) ensures m0[a].hd.Hd? {
          assert BlockWf(d.Young(), m0, d.stackTag, a);
        }
      }
    }

    /** *p = x, with the collection invariant carried across: p is a local,
        or a shared-heap field that is the copy of no block outside exc. */
    method Write(p: Slot, x: Value, ghost exc: set<nat>)
      requires Inv(exc) && SlotOK(dom.mem, p)
      requires p.Field? ==> !dom.Young().Contains(p.addr) && Unprotected(dom.Young(), dom.mem, exc, p.addr)
      modifies dom`mem
      ensures Inv(exc) && dom.mem == Stored(old(dom.mem), p, x)
      ensures WroteOnly(dom.Young(), old(dom.mem), dom.mem, p, x)
      ensures Unforwarded(dom.Young(), dom.mem) == Unforwarded(dom.Young(), old(dom.mem))
    {
      ghost var m, y := dom.mem, dom.Young();
      StoreKeeps(y, dom.stackTag, m0, n0, m, dom.nextFree, todo, todoSeq, exc, p, x);
      dom.Store(p, x);
      assert dom.mem == Stored(m, p, x);
      assert GcInv(y, dom.stackTag, m0, n0, dom.mem, dom.nextFree, todo, todoSeq, exc);
    }

    /** The copy loop for a pointer-free block: Op_val(result)[i] = Op_val(v)[i]
        for every field. */
    method CopyFields(a: nat, c: nat)
      requires a in dom.mem && c in dom.mem && a != c
      requires |dom.mem[c].fields| == |dom.mem[a].fields|
      modifies dom`mem
      ensures dom.mem == old(dom.mem)[c := old(dom.mem)[c].(fields := old(dom.mem)[a].fields)]
    {
      ghost var m := dom.mem;
      var i := 0;
      assert m[a].fields[..0] + m[c].fields[0..] == m[c].fields;
      assert m[c := m[c].(fields := m[c].fields)] == m;
      while i < |dom.mem[a].fields|
        invariant 0 <= i <= |m[a].fields|
        invariant dom.mem == m[c := m[c].(fields := m[a].fields[..i] + m[c].fields[i..])]
      {
        dom.Store(Field(c, i), dom.mem[a].fields[i]);
        assert m[a].fields[..i + 1] + m[c].fields[i + 1..] == (m[a].fields[..i] + m[c].fields[i..])[i := m[a].fields[i]];
        i := i + 1;
      }
      assert m[a].fields[..i] + m[c].fields[i..] == m[a].fields;
    }

    /** One pass of oldify_one from its tail_call label, as the function
        Pass describes it: store into p the image of v, promoting v's block
        first if it is an original of the minor heap. Either the pass
        finishes (fin), or it has promoted a one-field block whose sole
        field v' is to be promoted next into the copy's field 0, p'. */
    method Promote(v: Value, p: Slot, ghost exc: set<nat>) returns (fin: bool, rv: Value, p': Slot, v': Value)
      requires dom.Valid() && PassOK(dom.Young(), dom.mem, dom.nextFree, v, p)
      modifies this`todo, this`todoSeq, this`liveBytes, this`oldestPromoted, dom`mem, dom`nextFree, dom`allocatedWords
      ensures dom.Valid()
      ensures var o := Pass(dom.Young(), old(dom.mem), old(dom.nextFree), old(todo), old(todoSeq), exc, v, p);
        dom.mem == o.m && dom.nextFree == o.nf && todo == o.todo && todoSeq == o.list &&
        fin == o.fin && rv == o.rv && p' == o.next && v' == o.nv &&
        liveBytes == old(liveBytes) + o.bytes &&
        oldestPromoted == (if o.hp > old(oldestPromoted) then o.hp else old(oldestPromoted)) &&
        dom.allocatedWords == old(dom.allocatedWords) + (o.nf - old(dom.nextFree))
    {
      ghost var m, nf, y := dom.mem, dom.nextFree, dom.Young();
      p', v' := Local, v;
      if !(v.Ptr? && dom.Young().Contains(v.addr)) {
        dom.Store(p, v);
        StoreShape(y, m, nf, todo, todoSeq, exc, v, p);
        return true, v, p', v';
      }
      var a := v.addr;
      var off := 0;
      var hd := dom.mem[a].hd;
      if hd.Hd? && hd.tag == InfixTag {
        off := hd.wosize;
        a := a - off;
        hd := dom.mem[a].hd;
      }
      assert a == Base(m, v.addr) && off == Offset(m, v.addr);
      if hd == Forwarded {
        rv := Ptr(dom.mem[a].fields[0].addr + off);
        dom.Store(p, rv);
        StoreShape(y, m, nf, todo, todoSeq, exc, v, p);
        return true, rv, p', v';
      }
      fin, rv, p', v' := PromoteBlock(v, p, a, off, hd.wosize, hd.tag, exc);
    }

    /** The rest of a pass whose value v points into an original block a of
        the minor heap: record the highest promoted header, then copy the
        block as its tag says. */
    method PromoteBlock(v: Value, p: Slot, a: nat, off: nat, sz: nat, tag: nat, ghost exc: set<nat>)
      returns (fin: bool, rv: Value, p': Slot, v': Value)
      requires dom.Valid() && PassOK(dom.Young(), dom.mem, dom.nextFree, v, p)
      requires IsMinor(dom.Young(), v) && a == Base(dom.mem, v.addr) && dom.mem[a].hd == Hd(sz, tag)
      modifies this`todo, this`todoSeq, this`liveBytes, this`oldestPromoted, dom`mem, dom`nextFree, dom`allocatedWords
      ensures dom.Valid()
      ensures var o := Pass(dom.Young(), old(dom.mem), old(dom.nextFree), old(todo), old(todoSeq), exc, v, p);
        dom.mem == o.m && dom.nextFree == o.nf && todo == o.todo && todoSeq == o.list &&
        fin == o.fin && rv == o.rv && p' == o.next && v' == o.nv &&
        liveBytes == old(liveBytes) + o.bytes &&
        oldestPromoted == (if o.hp > old(oldestPromoted) then o.hp else old(oldestPromoted)) &&
        dom.allocatedWords == old(dom.allocatedWords) + (o.nf - old(dom.nextFree))
      requires off == Offset(dom.mem, v.addr)
    {
      if a - 1 > oldestPromoted {
        oldestPromoted := a - 1;
      }
      if tag < InfixTag {
        fin, rv, p', v' := PromoteScannable(v, p, a, off, sz, tag, exc);
      } else if tag >= NoScanTag {
        rv := PromoteNoScan(v, p, a, sz, tag, exc);
        fin, p', v' := true, Local, v;
      } else {
        rv, p', v' := PromoteForward(v, p, a, sz, tag, exc);
        fin := false;
      }
    }

    /** A block below Infix_tag: copied and forwarded, the copy's address
        plus the infix offset stored into p; then pushed on the to-do list
        with its field 0 and the old head in the copy, or, with a single
        field, followed by a tail call on that field into the copy. */
    method PromoteScannable(v: Value, p: Slot, a: nat, off: nat, sz: nat, tag: nat, ghost exc: set<nat>)
      returns (fin: bool, rv: Value, p': Slot, v': Value)
      requires dom.Valid() && PassOK(dom.Young(), dom.mem, dom.nextFree, v, p)
      requires IsMinor(dom.Young(), v) && a == Base(dom.mem, v.addr) && dom.mem[a].hd == Hd(sz, tag)
      modifies this`todo, this`todoSeq, this`liveBytes, dom`mem, dom`nextFree, dom`allocatedWords
      ensures dom.Valid()
      ensures var o := Pass(dom.Young(), old(dom.mem), old(dom.nextFree), old(todo), old(todoSeq), exc, v, p);
        dom.mem == o.m && dom.nextFree == o.nf && todo == o.todo && todoSeq == o.list &&
        fin == o.fin && rv == o.rv && p' == o.next && v' == o.nv &&
        liveBytes == old(liveBytes) + o.bytes &&
        dom.allocatedWords == old(dom.allocatedWords) + (o.nf - old(dom.nextFree))
      requires off == Offset(dom.mem, v.addr) && tag < InfixTag
    {
      ghost var m, nf, y := dom.mem, dom.nextFree, dom.Young();
      liveBytes := liveBytes + Bhsize(sz);
      var c, f0 := CopyOutFresh(a, sz, tag, off, p);
      rv := Ptr(c + off);
      if sz > 1 {
        dom.Store(Field(c, 0), f0);
        dom.Store(Field(c, 1), todo);
        DeferShape(y, m, nf, todo, todoSeq, exc, v, p);
        todo := Ptr(a);
        todoSeq := [a] + todoSeq;
        fin, p', v' := true, Local, v;
      } else {
        ChainShape(y, m, nf, todo, todoSeq, exc, v, p);
        fin, p', v' := false, Field(c, 0), f0;
      }
    }

    /** A block at or above No_scan_tag: copied word for word. */
    method PromoteNoScan(v: Value, p: Slot, a: nat, sz: nat, tag: nat, ghost exc: set<nat>) returns (rv: Value)
      requires dom.Valid() && PassOK(dom.Young(), dom.mem, dom.nextFree, v, p)
      requires IsMinor(dom.Young(), v) && a == Base(dom.mem, v.addr) && dom.mem[a].hd == Hd(sz, tag)
      modifies this`liveBytes, dom`mem, dom`nextFree, dom`allocatedWords
      ensures dom.Valid()
      ensures var o := Pass(dom.Young(), old(dom.mem), old(dom.nextFree), old(todo), old(todoSeq), exc, v, p);
        dom.mem == o.m && dom.nextFree == o.nf && todo == o.todo && todoSeq == o.list &&
        o.fin && rv == o.rv && o.next == Local && o.nv == v &&
        liveBytes == old(liveBytes) + o.bytes &&
        dom.allocatedWords == old(dom.allocatedWords) + (o.nf - old(dom.nextFree))
      requires tag >= NoScanTag
    {
      ghost var m, nf, y := dom.mem, dom.nextFree, dom.Young();
      liveBytes := liveBytes + Bhsize(sz);
      var c := CopyOutNoScan(a, sz, tag, p);
      rv := Ptr(c);
      NoScanShape(y, m, nf, todo, todoSeq, exc, v, p);
    }

    /** A Forward_tag block: copied as a one-field block (the pointer is not
        short-circuited), followed by a tail call on its field into the
        copy. */
    method PromoteForward(v: Value, p: Slot, a: nat, sz: nat, tag: nat, ghost exc: set<nat>) returns (rv: Value, p': Slot, v': Value)
      requires dom.Valid() && PassOK(dom.Young(), dom.mem, dom.nextFree, v, p)
      requires IsMinor(dom.Young(), v) && a == Base(dom.mem, v.addr) && dom.mem[a].hd == Hd(sz, tag)
      modifies this`liveBytes, dom`mem, dom`nextFree, dom`allocatedWords
      ensures dom.Valid()
      ensures var o := Pass(dom.Young(), old(dom.mem), old(dom.nextFree), old(todo), old(todoSeq), exc, v, p);
        dom.mem == o.m && dom.nextFree == o.nf && todo == o.todo && todoSeq == o.list &&
        !o.fin && rv == o.rv && p' == o.next && v' == o.nv &&
        liveBytes == old(liveBytes) + o.bytes &&
        dom.allocatedWords == old(dom.allocatedWords) + (o.nf - old(dom.nextFree))
      requires InfixTag < tag < NoScanTag
    {
      ghost var m, nf, y := dom.mem, dom.nextFree, dom.Young();
      liveBytes := liveBytes + Bhsize(sz);
      var c, f := CopyOutFresh(a, 1, ForwardTag, 0, p);
      rv := Ptr(c);
      ForwardShape(y, m, nf, todo, todoSeq, exc, v, p);
      p', v' := Field(c, 0), f;
    }

    /** The copy of a block with fields still to fill: alloc_shared, the
        copy's address plus the infix offset stored into p, and the block
        forwarded to its copy; f0 is the original's field 0. */
    method CopyOutFresh(a: nat, sz: nat, tag: nat, off: nat, p: Slot) returns (c: nat, f0: Value)
      requires dom.Valid() && SlotOK(dom.mem, p) && (p.Field? ==> !dom.Young().Contains(p.addr))
      requires a in dom.mem && dom.Young().Contains(a) && |dom.mem[a].fields| > 0
      modifies dom`mem, dom`nextFree, dom`allocatedWords
      ensures dom.Valid() && c == old(dom.nextFree) && c !in old(dom.mem) && f0 == old(dom.mem)[a].fields[0]
      ensures dom.mem == CopyOut(old(dom.mem), c, Fresh(sz, tag), p, Ptr(c + off), a)
      ensures dom.nextFree == old(dom.nextFree) + sz + 1 && dom.allocatedWords == old(dom.allocatedWords) + sz + 1
    {
      c := dom.AllocShared(sz, tag);
      dom.Store(p, Ptr(c + off));
      f0 := dom.mem[a].fields[0];
      dom.ForwardBlock(a, c);
    }

    /** The copy of a pointer-free block: alloc_shared, every field copied,
        the block forwarded, and the copy's address stored into p. */
    method CopyOutNoScan(a: nat, sz: nat, tag: nat, p: Slot) returns (c: nat)
      requires dom.Valid() && SlotOK(dom.mem, p) && (p.Field? ==> !dom.Young().Contains(p.addr))
      requires a in dom.mem && dom.Young().Contains(a) && |dom.mem[a].fields| == sz > 0
      modifies dom`mem, dom`nextFree, dom`allocatedWords
      ensures dom.Valid() && c == old(dom.nextFree) && c !in old(dom.mem)
      ensures dom.mem == CopyOut(old(dom.mem), c, Block(Hd(sz, tag), old(dom.mem)[a].fields), p, Ptr(c), a)
      ensures dom.nextFree == old(dom.nextFree) + sz + 1 && dom.allocatedWords == old(dom.allocatedWords) + sz + 1
    {
      ghost var m := dom.mem;
      c := dom.AllocShared(sz, tag);
      CopyFields(a, c);
      dom.ForwardBlock(a, c);
      ForwardStoreCommute(dom.Young(), m[c := Block(Hd(sz, tag), m[a].fields)], p, Ptr(c), a, c);
      dom.Store(p, Ptr(c));
    }

    /** oldify_one(st, v0, p0): store into p0 the image of v0, promoting
        v0's block and, through the tail calls, the chain of one-field
        blocks it starts. exc are the blocks the caller is filling in. */
    method OldifyOne(v0: Value, p0: Slot, ghost exc: set<nat>) returns (r: Value)
      requires Inv(exc) && RefOK(dom.Young(), dom.mem, v0) && SlotOK(dom.mem, p0)
      requires p0.Field? ==> !dom.Young().Contains(p0.addr) && Unprotected(dom.Young(), dom.mem, exc, p0.addr)
      modifies this`todo, this`todoSeq, this`liveBytes, this`oldestPromoted, dom`mem, dom`nextFree, dom`allocatedWords
      ensures dom.Valid()
      ensures Final(dom.Young(), dom.stackTag, m0, n0, exc, old(dom.mem), old(todoSeq), p0, v0, r,
                    dom.mem, dom.nextFree, todo, todoSeq)
      ensures liveBytes >= old(liveBytes)
      ensures dom.allocatedWords + old(dom.nextFree) == old(dom.allocatedWords) + dom.nextFree
    {
      ghost var y, st, mIn, sIn := dom.Young(), dom.stackTag, dom.mem, todoSeq;
      FirstPass(y, st, m0, n0, dom.mem, dom.nextFree, todo, todoSeq, exc, v0, p0);
      ghost var o := Pass(y, dom.mem, dom.nextFree, todo, todoSeq, exc, v0, p0);
      var fin, p, v;
      fin, r, p, v := Promote(v0, p0, exc);
      ghost var pend := o.b;
      while !fin
        invariant dom.Valid() && liveBytes >= old(liveBytes)
        invariant dom.allocatedWords + old(dom.nextFree) == old(dom.allocatedWords) + dom.nextFree
        invariant fin ==> Final(y, st, m0, n0, exc, mIn, sIn, p0, v0, r, dom.mem, dom.nextFree, todo, todoSeq)
        invariant !fin ==> Midway(y, st, m0, n0, exc, mIn, sIn, p0, v0, r, dom.mem, dom.nextFree, todo, todoSeq, pend, v, p)
        decreases !fin, |Unforwarded(y, dom.mem)|
      {
        NextPass(y, st, m0, n0, exc, mIn, sIn, p0, v0, r, dom.mem, dom.nextFree, todo, todoSeq, pend, v, p);
        o := Pass(y, dom.mem, dom.nextFree, todo, todoSeq, exc + {pend}, v, p);
        var rv;
        fin, rv, p, v := Promote(v, p, exc + {pend});
        pend := o.b;
      }
    }

    /** oldify_mopup: take blocks off the to-do list until it is empty,
        filling in each one's copy: field 0 (already in the copy) and the
        original's fields 1 .. sz-1 are promoted into the copy's fields. */
    method Mopup()
      requires Inv({})
      modifies this`todo, this`todoSeq, this`liveBytes, this`oldestPromoted, dom`mem, dom`nextFree, dom`allocatedWords
      ensures Inv({}) && todo == Null && todoSeq == []
      ensures Evolves(dom.Young(), old(dom.mem), dom.mem) && Below(dom.Young(), n0, old(dom.mem), dom.mem)
      ensures liveBytes >= old(liveBytes)
      ensures dom.allocatedWords + old(dom.nextFree) == old(dom.allocatedWords) + dom.nextFree
    {
      ghost var y, st := dom.Young(), dom.stackTag;
      while todo != Null
        invariant Inv({}) && Evolves(y, old(dom.mem), dom.mem) && Below(y, n0, old(dom.mem), dom.mem)
        invariant liveBytes >= old(liveBytes)
        invariant dom.allocatedWords + old(dom.nextFree) == old(dom.allocatedWords) + dom.nextFree
        decreases |Unforwarded(y, dom.mem)|, |todoSeq|
      {
        ghost var m1, s1 := dom.mem, todoSeq;
        PopFacts(y, st, m0, n0, dom.mem, dom.nextFree, todo, todoSeq);
        var a := todo.addr;
        var c := dom.mem[a].fields[0].addr;
        todo := dom.mem[c].fields[1];
        todoSeq := todoSeq[1..];
        ScanCopy(a, c);
        BelowTrans(y, n0, old(dom.mem), m1, dom.mem);
      }
    }

    /** The body of oldify_mopup's loop for the block a just taken off the
        to-do list, whose copy is c. */
    method ScanCopy(a: nat, c: nat)
      requires Inv({a}) && a in m0 && a in dom.mem && c == Copy(dom.mem, a)
      requires c in dom.mem && |dom.mem[c].fields| > 0 && |m0[a].fields| > 0 && dom.mem[c].fields[0] == m0[a].fields[0]
      modifies this`todo, this`todoSeq, this`liveBytes, this`oldestPromoted, dom`mem, dom`nextFree, dom`allocatedWords
      ensures Inv({}) && Evolves(dom.Young(), old(dom.mem), dom.mem) && liveBytes >= old(liveBytes)
      ensures a in dom.mem && Copy(dom.mem, a) == c && Done(dom.Young(), m0, dom.mem, a)
      ensures Below(dom.Young(), n0, old(dom.mem), dom.mem)
      ensures dom.allocatedWords + old(dom.nextFree) == old(dom.allocatedWords) + dom.nextFree
      ensures |Unforwarded(dom.Young(), dom.mem)| <= |Unforwarded(dom.Young(), old(dom.mem))|
      ensures |Unforwarded(dom.Young(), dom.mem)| < |Unforwarded(dom.Young(), old(dom.mem))| || todoSeq == old(todoSeq)
    {
      ghost var y, st, m1, s1 := dom.Young(), dom.stackTag, dom.mem, todoSeq;
      FillSlot(y, st, m0, n0, dom.mem, dom.nextFree, todo, todoSeq, a, 0);
      var f := dom.mem[c].fields[0];
      if f.Ptr? && dom.Young().Contains(a) {
        ghost var m := dom.mem;
        var _ := OldifyOne(f, Field(c, 0), {a});
        FilledStep(y, m0, m, dom.mem, a, c, 0, dom.mem[c].fields[0]);
        WroteBelow(y, n0, m, dom.mem, Field(c, 0), dom.mem[c].fields[0]);
      } else {
        FilledKept(y, m0, dom.mem, a, c, 0);
      }
      var i := 1;
      while i < dom.mem[c].hd.wosize
        invariant Inv({a}) && Evolves(y, m1, dom.mem) && Below(y, n0, m1, dom.mem) && liveBytes >= old(liveBytes)
        invariant dom.allocatedWords + old(dom.nextFree) == old(dom.allocatedWords) + dom.nextFree
        invariant a in dom.mem && c == Copy(dom.mem, a) && c in dom.mem
        invariant dom.mem[c].hd == m0[a].hd && m0[a].hd.Hd? && m0[a].hd.wosize == |m0[a].fields| == |dom.mem[c].fields|
        invariant 1 <= i <= |m0[a].fields| && Filled(y, m0, dom.mem, a, c, i)
        invariant |Unforwarded(y, dom.mem)| <= |Unforwarded(y, m1)|
        invariant |Unforwarded(y, dom.mem)| < |Unforwarded(y, m1)| || todoSeq == s1
      {
        ghost var m := dom.mem;
        ScanField(a, c, i);
        EvolvesTrans(y, m1, m, dom.mem);
        BelowTrans(y, n0, m1, m, dom.mem);
        i := i + 1;
      }
      ScanDone(y, st, m0, n0, dom.mem, dom.nextFree, todo, todoSeq, a, c);
    }

    /** One turn of oldify_mopup's loop over fields 1 .. sz-1: promote the
        original's field i into field i of the copy c, or copy it there if
        it is not a pointer. */
    method ScanField(a: nat, c: nat, i: nat)
      requires Inv({a}) && a in m0 && a in dom.mem && c == Copy(dom.mem, a) && c in dom.mem
      requires 1 <= i < |m0[a].fields| == |dom.mem[c].fields| && Filled(dom.Young(), m0, dom.mem, a, c, i)
      modifies this`todo, this`todoSeq, this`liveBytes, this`oldestPromoted, dom`mem, dom`nextFree, dom`allocatedWords
      ensures Inv({a}) && Evolves(dom.Young(), old(dom.mem), dom.mem) && liveBytes >= old(liveBytes)
      ensures Below(dom.Young(), n0, old(dom.mem), dom.mem)
      ensures dom.allocatedWords + old(dom.nextFree) == old(dom.allocatedWords) + dom.nextFree
      ensures a in dom.mem && c == Copy(dom.mem, a) && c in dom.mem
      ensures dom.mem[c].hd == old(dom.mem)[c].hd && |dom.mem[c].fields| == |old(dom.mem)[c].fields|
      ensures Filled(dom.Young(), m0, dom.mem, a, c, i + 1)
      ensures |Unforwarded(dom.Young(), dom.mem)| <= |Unforwarded(dom.Young(), old(dom.mem))|
      ensures |Unforwarded(dom.Young(), dom.mem)| < |Unforwarded(dom.Young(), old(dom.mem))| || todoSeq == old(todoSeq)
    {
      ghost var y, m := dom.Young(), dom.mem;
      FillSlot(y, dom.stackTag, m0, n0, dom.mem, dom.nextFree, todo, todoSeq, a, i);
      var f := dom.mem[a].fields[i];
      if f.Ptr? && dom.Young().Contains(a) {
        var _ := OldifyOne(f, Field(c, i), {a});
      } else {
        Write(Field(c, i), f, {a});
      }
      FilledStep(y, m0, m, dom.mem, a, c, i, dom.mem[c].fields[i]);
      WroteBelow(y, n0, m, dom.mem, Field(c, i), dom.mem[c].fields[i]);
    }
  }
}
