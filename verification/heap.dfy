/** Words, headers and blocks of the runtime's heap, as seen by the minor
    collector in byterun/minor_gc.c.

    Addresses are measured in words. A value is an immediate or a pointer
    to the first field of a block; the block's header is kept with the
    block. A header word of 0 means "forwarded": the block's field 0 then
    holds the address of its copy in the shared heap. An interior entry
    point of a closure (an Infix header) is a pseudo-block at the interior
    address whose header has the Infix tag and whose size is the distance
    back to the enclosing block; it owns no fields of its own. */
module Heap {

  const InfixTag: nat := 249
  const ForwardTag: nat := 250
  const NoScanTag: nat := 251

  /** Bytes per word on a 64-bit target. */
  const WordSize: nat := 8

  /** Bhsize_hd: the bytes a block of sz fields occupies with its header. */
  function Bhsize(sz: nat): nat
  {
    (sz + 1) * WordSize
  }

  datatype Value = Imm(n: int) | Ptr(addr: nat)

  /** The value 0, used to terminate the to-do list. */
  const Null: Value := Ptr(0)

  datatype Header = Forwarded | Hd(wosize: nat, tag: nat)

  datatype Block = Block(hd: Header, fields: seq<Value>)

  type Mem = map<nat, Block>

  /** A block freshly allocated with header (sz, tag), its fields not yet
      written. */
  function Fresh(sz: nat, tag: nat): Block
  {
    Block(Hd(sz, tag), seq(sz, _ => Imm(0)))
  }

  /** A location holding a value: a field of a block, or a local variable
      of the collector whose content is returned to the caller. */
  datatype Slot = Field(addr: nat, index: nat) | Local

  /** An address range [lo, hi): the minor heap. */
  datatype Range = Range(lo: nat, hi: nat) {
    predicate Contains(a: nat) { lo <= a < hi }
  }

  /** Is_block(v) && Is_minor(v). */
  predicate IsMinor(y: Range, x: Value) {
    x.Ptr? && y.Contains(x.addr)
  }

  predicate IsInfix(h: Header) {
    h.Hd? && h.tag == InfixTag
  }

  /** A value that can be dereferenced without reading outside the heap:
      an immediate, a pointer outside the minor heap, or a pointer to a
      block of the minor heap. */
  predicate RefOK(y: Range, m: Mem, x: Value) {
    !IsMinor(y, x) || x.addr in m
  }

  predicate SlotOK(m: Mem, s: Slot) {
    s.Field? ==> s.addr in m && s.index < |m[s.addr].fields|
  }

  function SlotVal(m: Mem, s: Slot): Value
    requires s.Field? && SlotOK(m, s)
  {
    m[s.addr].fields[s.index]
  }

  /** The start of the block that address a belongs to. */
  function Base(m: Mem, a: nat): (b: nat)
    requires a in m
    ensures b <= a
    ensures b < a <==> IsInfix(m[a].hd) && 0 < m[a].hd.wosize <= a
  {
    if IsInfix(m[a].hd) && m[a].hd.wosize <= a then a - m[a].hd.wosize else a
  }

  /** The infix offset of address a: a - Base(m, a). */
  function Offset(m: Mem, a: nat): (off: nat)
    requires a in m
    ensures off + Base(m, a) == a
  {
    if IsInfix(m[a].hd) && m[a].hd.wosize <= a then m[a].hd.wosize else 0
  }

  /** Field 0 of a forwarded block: the address of its copy. */
  function Copy(m: Mem, a: nat): nat
    requires a in m
  {
    if |m[a].fields| > 0 && m[a].fields[0].Ptr? then m[a].fields[0].addr else 0
  }

  /** x no longer needs promotion: it is not in the minor heap, or the block
      it points into has been forwarded to a copy outside the minor heap. */
  ghost predicate Settled(y: Range, m: Mem, x: Value) {
    !IsMinor(y, x) ||
    (x.addr in m && Base(m, x.addr) in m && y.Contains(Base(m, x.addr)) &&
     var b := Base(m, x.addr);
     m[b].hd == Forwarded && |m[b].fields| > 0 && m[b].fields[0].Ptr? &&
     !y.Contains(m[b].fields[0].addr + Offset(m, x.addr)))
  }

  /** What a reference to x becomes once x's block has been promoted: the
      copy's address plus the same infix offset. */
  ghost function Image(y: Range, m: Mem, x: Value): (r: Value)
    requires Settled(y, m, x)
    ensures !IsMinor(y, r)
    ensures !IsMinor(y, x) ==> r == x
    ensures IsMinor(y, x) ==> r.Ptr? && r.addr == Copy(m, Base(m, x.addr)) + Offset(m, x.addr)
  {
    if !IsMinor(y, x) then x
    else Ptr(m[Base(m, x.addr)].fields[0].addr + Offset(m, x.addr))
  }

  /** A block of the minor heap as the mutator leaves it between two minor
      collections. stackTag is the (otherwise unmodelled) tag of execution
      stacks, which this model takes to be absent from the minor heap. */
  ghost predicate BlockWf(y: Range, m: Mem, stackTag: nat, a: nat)
    requires a in m
  {
    match m[a].hd
    case Forwarded => false
    case Hd(sz, tag) =>
      if tag == InfixTag then
        0 < sz <= a && a - sz in m && y.Contains(a - sz) && m[a].fields == [] &&
        m[a - sz].hd.Hd? && m[a - sz].hd.tag < InfixTag
      else
        sz >= 1 && |m[a].fields| == sz && tag != stackTag &&
        (tag == ForwardTag ==> sz == 1) &&
        (tag < NoScanTag ==> forall i | 0 <= i < sz :: RefOK(y, m, m[a].fields[i]))
  }

  ghost predicate NurseryWf(y: Range, m: Mem, stackTag: nat) {
    forall a | a in m && y.Contains(a) :: BlockWf(y, m, stackTag, a)
  }

  /** Block a of the minor heap, originally b0, has been promoted: its header
      is 0, its field 0 points to a copy outside the minor heap at or above
      n0 with the same header (size and tag), its fields 1.. still hold the
      original values, and the copy of a pointer-free block is word for word
      the original. */
  ghost predicate Promoted(y: Range, b0: Block, m: Mem, a: nat, n0: nat)
    requires a in m
  {
    b0.hd.Hd? && b0.hd.tag != InfixTag &&
    m[a].hd == Forwarded && |m[a].fields| == |b0.fields| && |b0.fields| > 0 &&
    m[a].fields[1..] == b0.fields[1..] && m[a].fields[0].Ptr? &&
    var c := m[a].fields[0].addr;
    c in m && !y.Contains(c) && c >= n0 &&
    m[c].hd == b0.hd && |m[c].fields| == |b0.fields| &&
    (b0.hd.tag >= NoScanTag ==> m[c].fields == b0.fields)
  }

  /** m is reachable from the snapshot m0 by promotions only, as far as the
      minor heap is concerned. */
  ghost predicate Agrees(y: Range, m0: Mem, m: Mem, n0: nat) {
    (forall a | y.Contains(a) :: a in m0 <==> a in m) &&
    (forall a | a in m0 && y.Contains(a) :: a in m && ((m[a] == m0[a] && m0[a].hd.Hd?) || Promoted(y, m0[a], m, a, n0)))
  }

  /** Distinct promoted blocks have distinct copies. */
  ghost predicate CopiesDistinct(y: Range, m: Mem) {
    forall a, b | a in m && b in m && y.Contains(a) && y.Contains(b) &&
                  m[a].hd == Forwarded && m[b].hd == Forwarded && a != b ::
      Copy(m, a) != Copy(m, b)
  }

  /** From m to m', blocks of the minor heap only get forwarded: a forwarded
      block and an infix entry stay as they are. */
  ghost predicate Evolves(y: Range, m: Mem, m': Mem) {
    (forall a | y.Contains(a) :: a in m <==> a in m') &&
    (forall a | a in m && y.Contains(a) && (m[a].hd == Forwarded || IsInfix(m[a].hd)) :: a in m' && m'[a] == m[a])
  }

  /** The blocks of the minor heap that have not been promoted yet. */
  ghost function Unforwarded(y: Range, m: Mem): set<nat> {
    set a | a in m && y.Contains(a) && m[a].hd.Hd? && m[a].hd.tag != InfixTag
  }

  lemma EvolvesTrans(y: Range, m1: Mem, m2: Mem, m3: Mem)
    requires Evolves(y, m1, m2) && Evolves(y, m2, m3)
    ensures Evolves(y, m1, m3)
  {
  }

  /** Once forwarded, always forwarded to the same place. */
  lemma {:induction false} ImageStable(y: Range, m: Mem, m': Mem, x: Value)
    requires Evolves(y, m, m') && Settled(y, m, x)
    ensures Settled(y, m', x) && Image(y, m', x) == Image(y, m, x)
  {
    if IsMinor(y, x) {
      var a := x.addr;
      assert m'[a].hd == m[a].hd by {
        if !IsInfix(m[a].hd) { assert Base(m, a) == a; }
      }
      assert Base(m', a) == Base(m, a) && Offset(m', a) == Offset(m, a);
      var b := Base(m, a);
      assert y.Contains(b) by { if b != a { assert y.Contains(a); } }
    }
  }

  /** Forwarding one unforwarded block removes exactly that block from the
      set of blocks still to promote. */
  lemma {:induction false} ForwardShrinks(y: Range, m: Mem, a: nat, b: Block)
    requires a in Unforwarded(y, m) && b.hd == Forwarded
    ensures Unforwarded(y, m[a := b]) == Unforwarded(y, m) - {a}
    ensures |Unforwarded(y, m[a := b])| < |Unforwarded(y, m)|
  {
    assert Unforwarded(y, m[a := b]) == Unforwarded(y, m) - {a};
  }

  /** Adding or changing a block outside the minor heap does not change what
      remains to be promoted. */
  lemma {:induction false} OutsideKeepsUnforwarded(y: Range, m: Mem, c: nat, b: Block)
    requires !y.Contains(c)
    ensures Unforwarded(y, m[c := b]) == Unforwarded(y, m)
  {
    assert forall a :: a in Unforwarded(y, m[c := b]) <==> a in Unforwarded(y, m);
  }
}
