/** The heap updates one pass of oldify_one makes (byterun/minor_gc.c),
    as transitions of the collection invariant: allocating a copy, storing
    into the referring slot, and forwarding the original to its copy. */
module Steps {
  import opened Heap
  import opened Promotion

  /** The heap after writing x into slot p (nothing, for a local slot). */
  ghost function Stored(m: Mem, p: Slot, x: Value): Mem
    requires SlotOK(m, p)
  {
    if p.Field? then Poke(m, p.addr, p.index, x) else m
  }

  /** Outside the minor heap, m differs from mOld only in slot p (and in
      blocks mOld does not have). */
  ghost predicate FrameOutside(y: Range, mOld: Mem, m: Mem, p: Slot) {
    forall a | a in mOld && !y.Contains(a) && !(p.Field? && a == p.addr) :: a in m && m[a] == mOld[a]
  }

  /** From mOld to m, slot p came to hold x, nothing else outside the minor
      heap changed, and blocks of the minor heap were only forwarded. */
  ghost predicate WroteOnly(y: Range, mOld: Mem, m: Mem, p: Slot, x: Value)
    requires SlotOK(mOld, p)
  {
    (p.Field? ==> p.addr in m && m[p.addr] == mOld[p.addr].(fields := mOld[p.addr].fields[p.index := x])) &&
    FrameOutside(y, mOld, m, p) && Evolves(y, mOld, m)
  }

  /** alloc_shared at the free pointer nf keeps the invariant: the new block
      is outside the minor heap, at or above n0, and the copy of nothing. */
  lemma {:induction false} AllocKeeps(y: Range, st: nat, m0: Mem, n0: nat, m: Mem, nf: nat,
                                      todo: Value, s: seq<nat>, exc: set<nat>, b: Block)
    requires GcInv(y, st, m0, n0, m, nf, todo, s, exc)
    ensures nf !in m && !y.Contains(nf) && nf >= n0
    ensures GcInv(y, st, m0, n0, m[nf := b], nf + |b.fields| + 1, todo, s, exc)
    ensures Evolves(y, m, m[nf := b]) && Unforwarded(y, m[nf := b]) == Unforwarded(y, m)
    ensures Unprotected(y, m[nf := b], {}, nf)
    ensures forall E: set<nat>, q: nat :: Unprotected(y, m, E, q) ==> Unprotected(y, m[nf := b], E, q)
  {
    AllocChangesOnlyAt(y, m, nf, b);
    ChangeKeeps(y, st, m0, n0, m, nf, todo, s, exc, m[nf := b], nf, nf + |b.fields| + 1);
    OutsideKeepsUnforwarded(y, m, nf, b);
    forall a | a in m[nf := b] && y.Contains(a) && m[nf := b][a].hd == Forwarded
      ensures Copy(m[nf := b], a) != nf
    {
      AgreesAt(y, m0, m, n0, a);
    }
  }

  /** *p = x keeps the invariant when p is a local or a shared-heap field
      that is the copy of no block outside exc. */
  lemma {:induction false} StoreKeeps(y: Range, st: nat, m0: Mem, n0: nat, m: Mem, nf: nat,
                                      todo: Value, s: seq<nat>, exc: set<nat>, p: Slot, x: Value)
    requires GcInv(y, st, m0, n0, m, nf, todo, s, exc) && SlotOK(m, p)
    requires p.Field? ==> !y.Contains(p.addr) && Unprotected(y, m, exc, p.addr)
    ensures GcInv(y, st, m0, n0, Stored(m, p, x), nf, todo, s, exc)
    ensures WroteOnly(y, m, Stored(m, p, x), p, x)
    ensures Unforwarded(y, Stored(m, p, x)) == Unforwarded(y, m)
    ensures forall E: set<nat>, q: nat :: Unprotected(y, m, E, q) ==> Unprotected(y, Stored(m, p, x), E, q)
  {
    if p.Field? {
      StoreChangesOnlyAt(y, m, p.addr, p.index, x);
      ChangeKeeps(y, st, m0, n0, m, nf, todo, s, exc, Stored(m, p, x), p.addr, nf);
      OutsideKeepsUnforwarded(y, m, p.addr, Stored(m, p, x)[p.addr]);
    }
  }

  /** Allocating the copy b at nf, then storing x into slot p, keeps the
      invariant, and leaves the copy unprotected. */
  lemma {:induction false} AllocStoreKeeps(y: Range, st: nat, m0: Mem, n0: nat, m: Mem, nf: nat,
                                           todo: Value, s: seq<nat>, exc: set<nat>, b: Block, p: Slot, x: Value)
    requires GcInv(y, st, m0, n0, m, nf, todo, s, exc) && SlotOK(m, p)
    requires p.Field? ==> !y.Contains(p.addr) && Unprotected(y, m, exc, p.addr)
    ensures nf !in m && !y.Contains(nf) && nf >= n0 && SlotOK(m[nf := b], p)
    ensures var m2 := Stored(m[nf := b], p, x);
      GcInv(y, st, m0, n0, m2, nf + |b.fields| + 1, todo, s, exc) &&
      nf in m2 && m2[nf] == b && Unprotected(y, m2, {}, nf) &&
      WroteOnly(y, m, m2, p, x) && Unforwarded(y, m2) == Unforwarded(y, m)
  {
    var m1 := m[nf := b];
    AllocKeeps(y, st, m0, n0, m, nf, todo, s, exc, b);
    assert SlotOK(m1, p);
    StoreKeeps(y, st, m0, n0, m1, nf + |b.fields| + 1, todo, s, exc, p, x);
    var m2 := Stored(m1, p, x);
    EvolvesTrans(y, m, m1, m2);
  }

  /** Forwarding a block of the minor heap that is neither forwarded nor an
      infix entry keeps what a store into p has done outside the minor heap. */
  lemma {:induction false} ForwardWroteOnly(y: Range, m: Mem, m2: Mem, p: Slot, x: Value, a: nat, c: nat)
    requires SlotOK(m, p) && WroteOnly(y, m, m2, p, x) && (p.Field? ==> !y.Contains(p.addr))
    requires a in m2 && y.Contains(a) && |m2[a].fields| > 0 && m2[a].hd.Hd? && !IsInfix(m2[a].hd)
    ensures WroteOnly(y, m, ForwardTo(m2, a, c), p, x)
  {
    var m' := ForwardTo(m2, a, c);
    assert Evolves(y, m2, m');
    EvolvesTrans(y, m, m2, m');
  }

  /** The heap after one promotion as oldify_one makes it: the copy b
      allocated at nf, x stored into slot p, and block a forwarded to nf. */
  ghost function CopyOut(m: Mem, nf: nat, b: Block, p: Slot, x: Value, a: nat): Mem
    requires SlotOK(m, p) && nf !in m && a in m && |m[a].fields| > 0
  {
    assert SlotOK(m[nf := b], p);
    ForwardTo(Stored(m[nf := b], p, x), a, nf)
  }

  /** What a promotion does to the heap, apart from the invariant: v's block
      a is forwarded to its copy b at nf, so v is settled with image x; the
      only write outside the minor heap is x into p; a is no longer left to
      promote. */
  lemma {:induction false} CopyOutFacts(y: Range, m: Mem, nf: nat, v: Value, p: Slot, b: Block, x: Value)
    requires SlotOK(m, p) && (p.Field? ==> !y.Contains(p.addr)) && nf !in m && y.hi <= nf
    requires IsMinor(y, v) && v.addr in m && Base(m, v.addr) in m && y.Contains(Base(m, v.addr))
    requires var a := Base(m, v.addr); m[a].hd.Hd? && !IsInfix(m[a].hd) && |m[a].fields| > 0
    requires x == Ptr(nf + Offset(m, v.addr))
    ensures var a := Base(m, v.addr);
      var m' := CopyOut(m, nf, b, p, x, a);
      Settled(y, m', v) && Image(y, m', v) == x && WroteOnly(y, m, m', p, x) &&
      Unforwarded(y, m') == Unforwarded(y, m) - {a} && |Unforwarded(y, m')| < |Unforwarded(y, m)| &&
      a in m' && Copy(m', a) == nf && nf in m' && m'[nf] == b
  {
    var a := Base(m, v.addr);
    var m1 := m[nf := b];
    assert SlotOK(m1, p);
    var m2 := Stored(m1, p, x);
    var m' := ForwardTo(m2, a, nf);
    assert WroteOnly(y, m, m2, p, x);
    ForwardWroteOnly(y, m, m2, p, x, a, nf);
    OutsideKeepsUnforwarded(y, m, nf, b);
    if p.Field? {
      OutsideKeepsUnforwarded(y, m1, p.addr, m2[p.addr]);
    }
    assert m2 == m1 || (p.Field? && m2 == m1[p.addr := m2[p.addr]]);
    ForwardShrinks(y, m2, a, m'[a]);
    assert Base(m', v.addr) == a && Offset(m', v.addr) == Offset(m, v.addr) by {
      if v.addr != a { assert m'[v.addr] == m[v.addr]; }
    }
  }

  /** A promotion keeps the invariant, the promoted block being filled in if
      it is scannable. */
  lemma {:induction false} PromoteKeeps(y: Range, st: nat, m0: Mem, n0: nat, m: Mem, nf: nat,
                                        todo: Value, s: seq<nat>, exc: set<nat>, a: nat, b: Block, p: Slot, x: Value,
                                        exc': set<nat>)
    requires GcInv(y, st, m0, n0, m, nf, todo, s, exc) && SlotOK(m, p)
    requires p.Field? ==> !y.Contains(p.addr) && Unprotected(y, m, exc, p.addr)
    requires a in Unforwarded(y, m) && b.hd == m[a].hd && |b.fields| == |m[a].fields| > 0
    requires m[a].hd.tag >= NoScanTag ==> b.fields == m[a].fields
    ensures nf !in m && a in m0 && m[a] == m0[a] && a !in s && a !in exc
    requires exc' == if m[a].hd.tag < NoScanTag then exc + {a} else exc
    ensures GcInv(y, st, m0, n0, CopyOut(m, nf, b, p, x, a), nf + |b.fields| + 1, todo, s, exc')
  {
    AllocStoreKeeps(y, st, m0, n0, m, nf, todo, s, exc, b, p, x);
    var m2 := Stored(m[nf := b], p, x);
    assert a in Unforwarded(y, m2);
    AgreesAt(y, m0, m, n0, a);
    ForwardKeeps(y, st, m0, n0, m2, nf + |b.fields| + 1, todo, s, exc, a, nf);
  }

  /** Forwarding a block and storing into a slot outside the minor heap
      commute: the two writes touch different blocks. */
  lemma {:induction false} ForwardStoreCommute(y: Range, m: Mem, p: Slot, x: Value, a: nat, c: nat)
    requires SlotOK(m, p) && (p.Field? ==> !y.Contains(p.addr))
    requires a in m && y.Contains(a) && |m[a].fields| > 0
    ensures SlotOK(ForwardTo(m, a, c), p)
    ensures Stored(ForwardTo(m, a, c), p, x) == ForwardTo(Stored(m, p, x), a, c)
  {
  }

  /** What one pass of oldify_one produces: the heap, the shared heap's free
      pointer, the to-do list head and the originals on the list after it,
      the blocks being filled in, whether it finished, and whether it pushed
      the promoted block b on the to-do list; the value rv stored into the
      slot; when it did not finish, the next slot and value of the tail
      call; the bytes it promoted and the header address of the promoted
      block (0 if none). */
  datatype Outcome = Outcome(m: Mem, nf: nat, todo: Value, list: seq<nat>, filling: set<nat>,
                             fin: bool, pushed: bool, rv: Value, next: Slot, nv: Value,
                             b: nat, bytes: nat, hp: nat)

  /** What one pass needs of its inputs to be defined: a readable slot
      outside the minor heap, a dereferenceable value, a free pointer above
      every block, and, for a minor value, an enclosing block that is
      forwarded or a well-formed original. */
  ghost predicate PassOK(y: Range, m: Mem, nf: nat, v: Value, p: Slot) {
    SlotOK(m, p) && (p.Field? ==> !y.Contains(p.addr)) && nf !in m && y.hi <= nf && RefOK(y, m, v) &&
    (IsMinor(y, v) ==>
      var a := Base(m, v.addr);
      a in m && y.Contains(a) && 0 < a && !IsInfix(m[a].hd) &&
      (m[a].hd == Forwarded ==> Settled(y, m, v)) &&
      (m[a].hd.Hd? ==>
        |m[a].fields| == m[a].hd.wosize >= 1 &&
        (Offset(m, v.addr) > 0 ==> m[a].hd.tag < InfixTag) &&
        (m[a].hd.tag == ForwardTag ==> m[a].hd.wosize == 1) &&
        (m[a].hd.tag < NoScanTag ==> forall i | 0 <= i < |m[a].fields| :: RefOK(y, m, m[a].fields[i]))))
  }

  /** One pass of oldify_one from its tail_call label, on values: store the
      image of v into slot p, promoting v's block first if it is an original
      of the minor heap. s is the list of originals on the to-do list and
      exc the blocks being filled in. */
  ghost function Pass(y: Range, m: Mem, nf: nat, todo: Value, s: seq<nat>, exc: set<nat>,
                      v: Value, p: Slot): Outcome
    requires PassOK(y, m, nf, v, p)
  {
    if !IsMinor(y, v) || m[Base(m, v.addr)].hd == Forwarded then StorePass(y, m, nf, todo, s, exc, v, p)
    else if m[Base(m, v.addr)].hd.tag < InfixTag then ScanPass(y, m, nf, todo, s, exc, v, p)
    else if m[Base(m, v.addr)].hd.tag >= NoScanTag then NoScanPass(y, m, nf, todo, s, exc, v, p)
    else ForwardPass(y, m, nf, todo, s, exc, v, p)
  }

  /** v is not in the minor heap, or its block is already forwarded: store
      v, or the forward pointer plus the infix offset. */
  ghost function StorePass(y: Range, m: Mem, nf: nat, todo: Value, s: seq<nat>, exc: set<nat>,
                           v: Value, p: Slot): Outcome
    requires PassOK(y, m, nf, v, p) && (IsMinor(y, v) ==> m[Base(m, v.addr)].hd == Forwarded)
  {
    var rv := if IsMinor(y, v) then Ptr(Copy(m, Base(m, v.addr)) + Offset(m, v.addr)) else v;
    Outcome(Stored(m, p, rv), nf, todo, s, exc, true, false, rv, Local, v, 0, 0, 0)
  }

  /** A block below Infix_tag is copied, the copy's address plus the infix
      offset stored into p, and the block forwarded; then it is pushed on
      the to-do list with its field 0 and the old head in its copy, or,
      with one field, followed by a tail call on that field into the copy's
      field 0, the block being filled in meanwhile. */
  ghost function ScanPass(y: Range, m: Mem, nf: nat, todo: Value, s: seq<nat>, exc: set<nat>,
                          v: Value, p: Slot): Outcome
    requires PassOK(y, m, nf, v, p) && IsMinor(y, v)
    requires m[Base(m, v.addr)].hd.Hd? && m[Base(m, v.addr)].hd.tag < InfixTag
  {
    var a := Base(m, v.addr);
    var sz, tag := m[a].hd.wosize, m[a].hd.tag;
    var rv := Ptr(nf + Offset(m, v.addr));
    var m2 := CopyOut(m, nf, Fresh(sz, tag), p, rv, a);
    if sz > 1 then
      assert m2[nf] == Fresh(sz, tag);
      Outcome(Poke(Poke(m2, nf, 0, m[a].fields[0]), nf, 1, todo), nf + sz + 1, Ptr(a), [a] + s, exc,
              true, true, rv, Local, v, a, Bhsize(sz), a - 1)
    else
      Outcome(m2, nf + sz + 1, todo, s, exc + {a}, false, false, rv, Field(nf, 0), m[a].fields[0],
              a, Bhsize(sz), a - 1)
  }

  /** A block at or above No_scan_tag is copied word for word. */
  ghost function NoScanPass(y: Range, m: Mem, nf: nat, todo: Value, s: seq<nat>, exc: set<nat>,
                            v: Value, p: Slot): Outcome
    requires PassOK(y, m, nf, v, p) && IsMinor(y, v)
    requires m[Base(m, v.addr)].hd.Hd? && m[Base(m, v.addr)].hd.tag >= NoScanTag
  {
    var a := Base(m, v.addr);
    var sz, tag := m[a].hd.wosize, m[a].hd.tag;
    Outcome(CopyOut(m, nf, Block(Hd(sz, tag), m[a].fields), p, Ptr(nf), a), nf + sz + 1, todo, s, exc,
            true, false, Ptr(nf), Local, v, a, Bhsize(sz), a - 1)
  }

  /** A Forward_tag block is copied like a one-field block, without
      short-circuiting. */
  ghost function ForwardPass(y: Range, m: Mem, nf: nat, todo: Value, s: seq<nat>, exc: set<nat>,
                             v: Value, p: Slot): Outcome
    requires PassOK(y, m, nf, v, p) && IsMinor(y, v)
    requires m[Base(m, v.addr)].hd.Hd? && InfixTag < m[Base(m, v.addr)].hd.tag < NoScanTag
  {
    var a := Base(m, v.addr);
    Outcome(CopyOut(m, nf, Fresh(1, ForwardTag), p, Ptr(nf), a), nf + 1 + 1, todo, s, exc + {a},
            false, false, Ptr(nf), Field(nf, 0), m[a].fields[0], a, Bhsize(1), a - 1)
  }

  /** What a pass does to the heap: v is settled and slot p holds its
      image; nothing else outside the minor heap changed; fewer or as many
      blocks are left to promote, strictly fewer if one was copied (its
      bytes counted), pushed or pending. A pass that did not finish leaves the one-field block b
      forwarded, its field to be promoted into field 0 of its copy. */
  ghost predicate Stepped(y: Range, m: Mem, nf: nat, s: seq<nat>, exc: set<nat>, v: Value, p: Slot, o: Outcome)
    requires SlotOK(m, p)
  {
    o.list == (if o.pushed then [o.b] + s else s) &&
    o.filling == (if o.fin then exc else exc + {o.b}) &&
    Settled(y, o.m, v) && Image(y, o.m, v) == o.rv && WroteOnly(y, m, o.m, p, o.rv) && o.nf >= nf &&
    |Unforwarded(y, o.m)| <= |Unforwarded(y, m)| &&
    (o.bytes > 0 ==> |Unforwarded(y, o.m)| < |Unforwarded(y, m)|) &&
    (o.pushed ==> o.fin && |Unforwarded(y, o.m)| < |Unforwarded(y, m)|) &&
    (!o.fin ==>
      !o.pushed && |Unforwarded(y, o.m)| < |Unforwarded(y, m)| &&
      o.b in m && y.Contains(o.b) && m[o.b].hd.Hd? && |m[o.b].fields| == 1 && o.b in o.m && o.m[o.b].hd == Forwarded &&
      o.next == Field(Copy(o.m, o.b), 0) && o.next.addr !in m && !y.Contains(o.next.addr) &&
      SlotOK(o.m, o.next) && o.nv == m[o.b].fields[0] && RefOK(y, o.m, o.nv))
  }

  /** What a pass does to the invariant: it is kept, with the pushed block
      at the head of the to-do list, or with the pending block b being
      filled in. */
  ghost predicate Kept(y: Range, st: nat, m0: Mem, n0: nat, m: Mem, s: seq<nat>, exc: set<nat>, o: Outcome) {
    GcInv(y, st, m0, n0, o.m, o.nf, o.todo, o.list, o.filling) &&
    (!o.fin ==> o.b !in exc && o.b in m && o.b in m0 && m0[o.b] == m[o.b])
  }

  /** The pass of a value outside the minor heap or into a forwarded block. */
  lemma {:induction false} StoreShape(y: Range, m: Mem, nf: nat, todo: Value, s: seq<nat>, exc: set<nat>,
                                      v: Value, p: Slot)
    requires PassOK(y, m, nf, v, p) && (IsMinor(y, v) ==> m[Base(m, v.addr)].hd == Forwarded)
    ensures var rv := if IsMinor(y, v) then Ptr(Copy(m, Base(m, v.addr)) + Offset(m, v.addr)) else v;
      Pass(y, m, nf, todo, s, exc, v, p) == Outcome(Stored(m, p, rv), nf, todo, s, exc, true, false, rv, Local, v, 0, 0, 0)
  {
  }

  /** The pass of a value into a scannable block of several fields. */
  lemma {:induction false} DeferShape(y: Range, m: Mem, nf: nat, todo: Value, s: seq<nat>, exc: set<nat>,
                                      v: Value, p: Slot)
    requires PassOK(y, m, nf, v, p) && IsMinor(y, v)
    requires m[Base(m, v.addr)].hd.Hd? && m[Base(m, v.addr)].hd.tag < InfixTag && m[Base(m, v.addr)].hd.wosize > 1
    ensures var a := Base(m, v.addr);
      var sz, rv := m[a].hd.wosize, Ptr(nf + Offset(m, v.addr));
      var m2 := CopyOut(m, nf, Fresh(sz, m[a].hd.tag), p, rv, a);
      Pass(y, m, nf, todo, s, exc, v, p) ==
        Outcome(Poke(Poke(m2, nf, 0, m[a].fields[0]), nf, 1, todo), nf + sz + 1, Ptr(a), [a] + s, exc,
                true, true, rv, Local, v, a, Bhsize(sz), a - 1)
  {
  }

  /** The pass of a value into a scannable block of one field. */
  lemma {:induction false} ChainShape(y: Range, m: Mem, nf: nat, todo: Value, s: seq<nat>, exc: set<nat>,
                                      v: Value, p: Slot)
    requires PassOK(y, m, nf, v, p) && IsMinor(y, v)
    requires m[Base(m, v.addr)].hd.Hd? && m[Base(m, v.addr)].hd.tag < InfixTag && m[Base(m, v.addr)].hd.wosize <= 1
    ensures var a := Base(m, v.addr);
      var sz, rv := m[a].hd.wosize, Ptr(nf + Offset(m, v.addr));
      Pass(y, m, nf, todo, s, exc, v, p) ==
        Outcome(CopyOut(m, nf, Fresh(sz, m[a].hd.tag), p, rv, a), nf + sz + 1, todo, s, exc + {a},
                false, false, rv, Field(nf, 0), m[a].fields[0], a, Bhsize(sz), a - 1)
  {
  }

  /** The pass of a value into a pointer-free block. */
  lemma {:induction false} NoScanShape(y: Range, m: Mem, nf: nat, todo: Value, s: seq<nat>, exc: set<nat>,
                                       v: Value, p: Slot)
    requires PassOK(y, m, nf, v, p) && IsMinor(y, v)
    requires m[Base(m, v.addr)].hd.Hd? && m[Base(m, v.addr)].hd.tag >= NoScanTag
    ensures var a := Base(m, v.addr);
      var sz, tag := m[a].hd.wosize, m[a].hd.tag;
      Pass(y, m, nf, todo, s, exc, v, p) ==
        Outcome(CopyOut(m, nf, Block(Hd(sz, tag), m[a].fields), p, Ptr(nf), a), nf + sz + 1, todo, s, exc,
                true, false, Ptr(nf), Local, v, a, Bhsize(sz), a - 1)
  {
  }

  /** The pass of a value into a Forward_tag block. */
  lemma {:induction false} ForwardShape(y: Range, m: Mem, nf: nat, todo: Value, s: seq<nat>, exc: set<nat>,
                                        v: Value, p: Slot)
    requires PassOK(y, m, nf, v, p) && IsMinor(y, v)
    requires m[Base(m, v.addr)].hd.Hd? && InfixTag < m[Base(m, v.addr)].hd.tag < NoScanTag
    ensures var a := Base(m, v.addr);
      Pass(y, m, nf, todo, s, exc, v, p) ==
        Outcome(CopyOut(m, nf, Fresh(1, ForwardTag), p, Ptr(nf), a), nf + 1 + 1, todo, s, exc + {a},
                false, false, Ptr(nf), Field(nf, 0), m[a].fields[0], a, Bhsize(1), a - 1)
  {
  }

  /** Writing the first two fields of a fresh copy c keeps what a promotion
      achieved. */
  lemma {:induction false} FillStepped(y: Range, m: Mem, m2: Mem, v: Value, p: Slot, x: Value,
                                       c: nat, x0: Value, x1: Value)
    requires SlotOK(m, p) && WroteOnly(y, m, m2, p, x) && Settled(y, m2, v) && Image(y, m2, v) == x
    requires c !in m && !y.Contains(c) && c in m2 && |m2[c].fields| >= 2
    ensures var m4 := Poke(Poke(m2, c, 0, x0), c, 1, x1);
      WroteOnly(y, m, m4, p, x) && Settled(y, m4, v) && Image(y, m4, v) == x &&
      Unforwarded(y, m4) == Unforwarded(y, m2)
  {
    var m4 := Poke(Poke(m2, c, 0, x0), c, 1, x1);
    assert Evolves(y, m2, m4);
    EvolvesTrans(y, m, m2, m4);
    ImageStable(y, m2, m4, v);
    OutsideKeepsUnforwarded(y, m2, c, m4[c]);
  }

  /** The heap-level effect of a pass that only stores. */
  lemma {:induction false} StoreStepped(y: Range, m: Mem, nf: nat, s: seq<nat>, exc: set<nat>,
                                        v: Value, p: Slot, rv: Value, o: Outcome)
    requires PassOK(y, m, nf, v, p) && (IsMinor(y, v) ==> m[Base(m, v.addr)].hd == Forwarded)
    requires rv == if IsMinor(y, v) then Ptr(Copy(m, Base(m, v.addr)) + Offset(m, v.addr)) else v
    requires o.m == Stored(m, p, rv) && o.rv == rv && o.nf == nf && o.fin && !o.pushed && o.bytes == 0
    requires o.list == s && o.filling == exc
    ensures Stepped(y, m, nf, s, exc, v, p, o)
  {
    assert Settled(y, m, v) && Image(y, m, v) == rv;
    assert WroteOnly(y, m, o.m, p, rv);
    ImageStable(y, m, o.m, v);
    if p.Field? {
      OutsideKeepsUnforwarded(y, m, p.addr, o.m[p.addr]);
    }
  }

  /** The heap-level effect of a pass that promotes a block: allocate the
      copy b, store rv, forward, and possibly fill in the copy's first two
      fields (pushed) or continue with field 0 into the copy (unfinished). */
  lemma {:induction false} PromoteStepped(y: Range, m: Mem, nf: nat, todo: Value, s: seq<nat>, exc: set<nat>,
                                          v: Value, p: Slot, b: Block, rv: Value, o: Outcome)
    requires PassOK(y, m, nf, v, p) && IsMinor(y, v)
    requires var a := Base(m, v.addr); m[a].hd.Hd? && |b.fields| == |m[a].fields|
    requires rv == Ptr(nf + Offset(m, v.addr)) && o.rv == rv && o.nf >= nf
    requires o.list == (if o.pushed then [o.b] + s else s) && o.filling == (if o.fin then exc else exc + {o.b})
    requires var a := Base(m, v.addr); var m2 := CopyOut(m, nf, b, p, rv, a);
      if o.pushed then
        o.fin && |b.fields| >= 2 && o.m == Poke(Poke(m2, nf, 0, m[a].fields[0]), nf, 1, todo)
      else
        o.m == m2 &&
        (!o.fin ==> o.b == a && |b.fields| == 1 && m[a].hd.tag < NoScanTag &&
                    o.next == Field(nf, 0) && o.nv == m[a].fields[0])
    ensures Stepped(y, m, nf, s, exc, v, p, o)
  {
    var a := Base(m, v.addr);
    CopyOutFacts(y, m, nf, v, p, b, rv);
    var m2 := CopyOut(m, nf, b, p, rv, a);
    if o.pushed {
      FillStepped(y, m, m2, v, p, rv, nf, m[a].fields[0], todo);
    } else if !o.fin {
      assert RefOK(y, m, m[a].fields[0]);
    }
  }

  /** The heap-level effect of every pass. */
  lemma {:induction false} PassStepped(y: Range, m: Mem, nf: nat, todo: Value, s: seq<nat>, exc: set<nat>,
                                       v: Value, p: Slot)
    requires PassOK(y, m, nf, v, p)
    ensures Stepped(y, m, nf, s, exc, v, p, Pass(y, m, nf, todo, s, exc, v, p))
  {
    var o := Pass(y, m, nf, todo, s, exc, v, p);
    if !IsMinor(y, v) || m[Base(m, v.addr)].hd == Forwarded {
      StoreShape(y, m, nf, todo, s, exc, v, p);
      StoreStepped(y, m, nf, s, exc, v, p, o.rv, o);
    } else {
      var a := Base(m, v.addr);
      var sz, tag := m[a].hd.wosize, m[a].hd.tag;
      if tag < InfixTag && sz > 1 {
        DeferShape(y, m, nf, todo, s, exc, v, p);
        PromoteStepped(y, m, nf, todo, s, exc, v, p, Fresh(sz, tag), o.rv, o);
      } else if tag < InfixTag {
        ChainShape(y, m, nf, todo, s, exc, v, p);
        PromoteStepped(y, m, nf, todo, s, exc, v, p, Fresh(sz, tag), o.rv, o);
      } else if tag >= NoScanTag {
        NoScanShape(y, m, nf, todo, s, exc, v, p);
        PromoteStepped(y, m, nf, todo, s, exc, v, p, Block(Hd(sz, tag), m[a].fields), o.rv, o);
      } else {
        ForwardShape(y, m, nf, todo, s, exc, v, p);
        PromoteStepped(y, m, nf, todo, s, exc, v, p, Fresh(1, ForwardTag), o.rv, o);
      }
    }
  }

  /** A pass that promotes a scannable block of at least two fields and
      pushes it on the to-do list keeps the invariant. */
  lemma {:induction false} DeferKept(y: Range, st: nat, m0: Mem, n0: nat, m: Mem, nf: nat,
                                     todo: Value, s: seq<nat>, exc: set<nat>, v: Value, p: Slot, o: Outcome)
    requires GcInv(y, st, m0, n0, m, nf, todo, s, exc) && PassOK(y, m, nf, v, p)
    requires p.Field? ==> Unprotected(y, m, exc, p.addr)
    requires IsMinor(y, v) && m[Base(m, v.addr)].hd.Hd? && m[Base(m, v.addr)].hd.tag < InfixTag
    requires m[Base(m, v.addr)].hd.wosize > 1
    requires var a := Base(m, v.addr);
      var sz, rv := m[a].hd.wosize, Ptr(nf + Offset(m, v.addr));
      var m2 := CopyOut(m, nf, Fresh(sz, m[a].hd.tag), p, rv, a);
      o == Outcome(Poke(Poke(m2, nf, 0, m[a].fields[0]), nf, 1, todo), nf + sz + 1, Ptr(a), [a] + s, exc,
                   true, true, rv, Local, v, a, Bhsize(sz), a - 1)
    ensures GcInv(y, st, m0, n0, o.m, o.nf, o.todo, o.list, o.filling)
  {
    var a := Base(m, v.addr);
    var sz, tag := m[a].hd.wosize, m[a].hd.tag;
    var rv := Ptr(nf + Offset(m, v.addr));
    var b := Fresh(sz, tag);
    PromoteKeeps(y, st, m0, n0, m, nf, todo, s, exc, a, b, p, rv, exc + {a});
    CopyOutFacts(y, m, nf, v, p, b, rv);
    var m2 := CopyOut(m, nf, b, p, rv, a);
    DeferKeeps(y, st, m0, n0, m2, nf + sz + 1, todo, s, exc, a);
  }

  /** A pass that promotes a block without pushing it keeps the invariant. */
  lemma {:induction false} CopyKept(y: Range, st: nat, m0: Mem, n0: nat, m: Mem, nf: nat,
                                    todo: Value, s: seq<nat>, exc: set<nat>, v: Value, p: Slot,
                                    b: Block, rv: Value, o: Outcome)
    requires GcInv(y, st, m0, n0, m, nf, todo, s, exc) && PassOK(y, m, nf, v, p)
    requires p.Field? ==> Unprotected(y, m, exc, p.addr)
    requires IsMinor(y, v) && m[Base(m, v.addr)].hd.Hd?
    requires var a := Base(m, v.addr);
      b.hd == m[a].hd && |b.fields| == |m[a].fields| && (m[a].hd.tag >= NoScanTag ==> b.fields == m[a].fields)
    requires var a := Base(m, v.addr);
      o.m == CopyOut(m, nf, b, p, rv, a) && o.nf == nf + |b.fields| + 1 && o.todo == todo && o.list == s &&
      !o.pushed && o.b == a && o.fin == (m[a].hd.tag >= NoScanTag) &&
      o.filling == (if m[a].hd.tag < NoScanTag then exc + {a} else exc)
    ensures GcInv(y, st, m0, n0, o.m, o.nf, o.todo, o.list, o.filling)
    ensures o.b !in exc && o.b in m && o.b in m0 && m0[o.b] == m[o.b]
  {
    var a := Base(m, v.addr);
    PromoteKeeps(y, st, m0, n0, m, nf, todo, s, exc, a, b, p, rv, o.filling);
  }

  /** The invariant-level effect of every pass. */
  lemma {:induction false} PassKept(y: Range, st: nat, m0: Mem, n0: nat, m: Mem, nf: nat,
                                    todo: Value, s: seq<nat>, exc: set<nat>, v: Value, p: Slot)
    requires GcInv(y, st, m0, n0, m, nf, todo, s, exc) && PassOK(y, m, nf, v, p)
    requires p.Field? ==> Unprotected(y, m, exc, p.addr)
    ensures Kept(y, st, m0, n0, m, s, exc, Pass(y, m, nf, todo, s, exc, v, p))
  {
    var o := Pass(y, m, nf, todo, s, exc, v, p);
    if !IsMinor(y, v) || m[Base(m, v.addr)].hd == Forwarded {
      StoreShape(y, m, nf, todo, s, exc, v, p);
      StoreKeeps(y, st, m0, n0, m, nf, todo, s, exc, p, o.rv);
    } else {
      var a := Base(m, v.addr);
      var sz, tag := m[a].hd.wosize, m[a].hd.tag;
      if tag < InfixTag && sz > 1 {
        DeferShape(y, m, nf, todo, s, exc, v, p);
        DeferKept(y, st, m0, n0, m, nf, todo, s, exc, v, p, o);
      } else if tag < InfixTag {
        ChainShape(y, m, nf, todo, s, exc, v, p);
        CopyKept(y, st, m0, n0, m, nf, todo, s, exc, v, p, Fresh(sz, tag), o.rv, o);
      } else if tag >= NoScanTag {
        NoScanShape(y, m, nf, todo, s, exc, v, p);
        CopyKept(y, st, m0, n0, m, nf, todo, s, exc, v, p, Block(Hd(sz, tag), m[a].fields), Ptr(nf), o);
      } else {
        ForwardShape(y, m, nf, todo, s, exc, v, p);
        CopyKept(y, st, m0, n0, m, nf, todo, s, exc, v, p, Fresh(1, ForwardTag), Ptr(nf), o);
      }
    }
  }

  /** Every pass of oldify_one makes progress under the invariant. */
  lemma {:induction false} PassKeeps(y: Range, st: nat, m0: Mem, n0: nat, m: Mem, nf: nat,
                                     todo: Value, s: seq<nat>, exc: set<nat>, v: Value, p: Slot)
    requires GcInv(y, st, m0, n0, m, nf, todo, s, exc) && SlotOK(m, p) && RefOK(y, m, v)
    requires p.Field? ==> !y.Contains(p.addr) && Unprotected(y, m, exc, p.addr)
    ensures PassOK(y, m, nf, v, p)
    ensures Stepped(y, m, nf, s, exc, v, p, Pass(y, m, nf, todo, s, exc, v, p))
    ensures Kept(y, st, m0, n0, m, s, exc, Pass(y, m, nf, todo, s, exc, v, p))
  {
    if IsMinor(y, v) {
      Resolve(y, st, m0, n0, m, nf, todo, s, exc, v.addr);
    }
    PassStepped(y, m, nf, todo, s, exc, v, p);
    PassKept(y, st, m0, n0, m, nf, todo, s, exc, v, p);
  }
}
