/** What one pass of oldify_one does, branch by branch, stated on the heap
    cells it touches. */
module PassFacts {
  import opened Heap
  import opened Promotion
  import opened Steps

  /** A value outside the minor heap is stored into p and nothing else
      changes. */
  lemma {:induction false} PassOutsideMinor(y: Range, m: Mem, nf: nat, todo: Value, s: seq<nat>, exc: set<nat>,
                                            v: Value, p: Slot)
    requires PassOK(y, m, nf, v, p) && !IsMinor(y, v)
    ensures var o := Pass(y, m, nf, todo, s, exc, v, p);
      o.fin && o.rv == v && o.m == Stored(m, p, v) && o.nf == nf && o.todo == todo && o.list == s && o.bytes == 0
  {
    StoreShape(y, m, nf, todo, s, exc, v, p);
  }

  /** A pointer into an already forwarded block is replaced by the forward
      pointer plus the pointer's infix offset; nothing else changes. */
  lemma {:induction false} PassForwarded(y: Range, m: Mem, nf: nat, todo: Value, s: seq<nat>, exc: set<nat>,
                                         v: Value, p: Slot)
    requires PassOK(y, m, nf, v, p) && IsMinor(y, v) && m[Base(m, v.addr)].hd == Forwarded
    ensures var o := Pass(y, m, nf, todo, s, exc, v, p);
      o.fin && o.rv == Ptr(Copy(m, Base(m, v.addr)) + Offset(m, v.addr)) && o.rv == Image(y, m, v) &&
      o.m == Stored(m, p, o.rv) && o.nf == nf && o.todo == todo && o.list == s
  {
    StoreShape(y, m, nf, todo, s, exc, v, p);
  }

  /** A pointer-free block a is copied word for word to a fresh block at nf
      with the same header, a is forwarded to the copy, p receives the copy,
      and the to-do list is untouched. */
  lemma {:induction false} PassNoScan(y: Range, m: Mem, nf: nat, todo: Value, s: seq<nat>, exc: set<nat>,
                                      v: Value, p: Slot)
    requires PassOK(y, m, nf, v, p) && IsMinor(y, v)
    requires m[Base(m, v.addr)].hd.Hd? && m[Base(m, v.addr)].hd.tag >= NoScanTag
    ensures var a, o := Base(m, v.addr), Pass(y, m, nf, todo, s, exc, v, p);
      o.fin && !o.pushed && o.rv == Ptr(nf) && o.todo == todo && o.list == s &&
      o.nf == nf + |m[a].fields| + 1 && o.bytes == Bhsize(|m[a].fields|) &&
      nf in o.m && o.m[nf] == m[a] &&
      a in o.m && o.m[a].hd == Forwarded && o.m[a].fields == m[a].fields[0 := Ptr(nf)] &&
      (p.Field? ==> SlotOK(o.m, p) && SlotVal(o.m, p) == Ptr(nf))
  {
    var a := Base(m, v.addr);
    NoScanShape(y, m, nf, todo, s, exc, v, p);
    assert Block(Hd(m[a].hd.wosize, m[a].hd.tag), m[a].fields) == m[a];
  }

  /** A scannable block a of several fields is copied to a fresh block at
      nf with the same header, a is forwarded to the copy, p receives the
      copy plus the infix offset, the copy's field 0 holds a's field 0, its
      field 1 the old head of the to-do list, and a becomes the new head. */
  lemma {:induction false} PassDefer(y: Range, m: Mem, nf: nat, todo: Value, s: seq<nat>, exc: set<nat>,
                                     v: Value, p: Slot)
    requires PassOK(y, m, nf, v, p) && IsMinor(y, v)
    requires m[Base(m, v.addr)].hd.Hd? && m[Base(m, v.addr)].hd.tag < InfixTag && m[Base(m, v.addr)].hd.wosize > 1
    ensures var a, o := Base(m, v.addr), Pass(y, m, nf, todo, s, exc, v, p);
      o.fin && o.pushed && o.rv == Ptr(nf + Offset(m, v.addr)) && o.todo == Ptr(a) && o.list == [a] + s &&
      o.nf == nf + |m[a].fields| + 1 && o.bytes == Bhsize(|m[a].fields|) &&
      nf in o.m && o.m[nf].hd == m[a].hd && |o.m[nf].fields| == |m[a].fields| &&
      o.m[nf].fields[0] == m[a].fields[0] && o.m[nf].fields[1] == todo &&
      a in o.m && o.m[a].hd == Forwarded && o.m[a].fields == m[a].fields[0 := Ptr(nf)] &&
      (p.Field? ==> SlotOK(o.m, p) && SlotVal(o.m, p) == o.rv)
  {
    var a := Base(m, v.addr);
    DeferShape(y, m, nf, todo, s, exc, v, p);
    var m2 := CopyOut(m, nf, Fresh(m[a].hd.wosize, m[a].hd.tag), p, Ptr(nf + Offset(m, v.addr)), a);
    assert m2[nf] == Fresh(m[a].hd.wosize, m[a].hd.tag);
  }

  /** A scannable block a of one field is copied and forwarded like the
      others, but instead of being pushed, the pass continues with a's
      field 0 as the value and field 0 of the copy as the slot. */
  lemma {:induction false} PassChain(y: Range, m: Mem, nf: nat, todo: Value, s: seq<nat>, exc: set<nat>,
                                     v: Value, p: Slot)
    requires PassOK(y, m, nf, v, p) && IsMinor(y, v)
    requires m[Base(m, v.addr)].hd.Hd? && m[Base(m, v.addr)].hd.tag < InfixTag && m[Base(m, v.addr)].hd.wosize <= 1
    ensures var a, o := Base(m, v.addr), Pass(y, m, nf, todo, s, exc, v, p);
      !o.fin && !o.pushed && o.todo == todo && o.list == s &&
      o.rv == Ptr(nf + Offset(m, v.addr)) && o.next == Field(nf, 0) && o.nv == m[a].fields[0] &&
      o.nf == nf + 2 && o.bytes == Bhsize(1) &&
      nf in o.m && |o.m[nf].fields| == 1 && o.m[nf].hd == m[a].hd &&
      a in o.m && o.m[a].hd == Forwarded && o.m[a].fields == m[a].fields[0 := Ptr(nf)] &&
      (p.Field? ==> SlotOK(o.m, p) && SlotVal(o.m, p) == o.rv)
  {
    ChainShape(y, m, nf, todo, s, exc, v, p);
  }

  /** A Forward_tag block a is never short-circuited: it is copied to a
      fresh one-field Forward_tag block at nf, a is forwarded to it, p
      receives it, and the pass continues with the forwarded value as the
      value and the copy's field as the slot. */
  lemma {:induction false} PassForwardTag(y: Range, m: Mem, nf: nat, todo: Value, s: seq<nat>, exc: set<nat>,
                                          v: Value, p: Slot)
    requires PassOK(y, m, nf, v, p) && IsMinor(y, v)
    requires m[Base(m, v.addr)].hd.Hd? && InfixTag < m[Base(m, v.addr)].hd.tag < NoScanTag
    ensures var a, o := Base(m, v.addr), Pass(y, m, nf, todo, s, exc, v, p);
      !o.fin && !o.pushed && o.todo == todo && o.list == s &&
      o.rv == Ptr(nf) && o.next == Field(nf, 0) && o.nv == m[a].fields[0] &&
      o.nf == nf + 2 && o.bytes == Bhsize(1) &&
      nf in o.m && |o.m[nf].fields| == 1 && o.m[nf].hd == Hd(1, ForwardTag) &&
      a in o.m && o.m[a].hd == Forwarded && o.m[a].fields == m[a].fields[0 := Ptr(nf)] &&
      (p.Field? ==> SlotOK(o.m, p) && SlotVal(o.m, p) == Ptr(nf))
  {
    ForwardShape(y, m, nf, todo, s, exc, v, p);
  }
}
