/** The rewrite of the remembered set at the end of a minor collection
    (byterun/minor_gc.c:417-436): each remembered slot of the shared heap
    that still holds a pointer into the minor heap is updated to point at
    the copy, keeping the pointer's infix offset. The update is a
    compare-and-swap, because another domain may have written the slot in
    the meantime; run by one domain alone it succeeds exactly when the
    expected value is what the slot holds. */
module Rewrites {
  import opened Heap

  /** The slot content after a compare-and-swap of a slot holding cur: the
      slot either keeps cur or receives vnew, and it ends holding vnew
      exactly when it held what was expected or already held vnew. */
  function Cas(cur: Value, expected: Value, vnew: Value): (r: Value)
    ensures r == cur || r == vnew
    ensures r == vnew <==> cur == expected || cur == vnew
  {
    if cur == expected then vnew else cur
  }

  /** The rewrite of a slot holding the settled value v as the loop is
      written: v's infix offset is subtracted from v before the
      compare-and-swap, so the value expected in the slot is the start of
      the enclosing block rather than v itself. The slot either keeps v or
      receives its image; a value outside the minor heap is kept, and a
      pointer to the start of its block gets its image. */
  function RewriteAsWritten(y: Range, m: Mem, v: Value): (r: Value)
    requires Settled(y, m, v)
    ensures r == v || r == Image(y, m, v)
    ensures !IsMinor(y, v) ==> r == v
    ensures IsMinor(y, v) && Offset(m, v.addr) == 0 ==> r == Image(y, m, v)
  {
    if !IsMinor(y, v) then v
    else
      var b := Base(m, v.addr);
      Cas(v, Ptr(b), Ptr(Copy(m, b) + Offset(m, v.addr)))
  }

  /** The rewrite as intended: the compare-and-swap expects the value that
      was read from the slot. The slot then holds the image of v: the copy
      of v's block plus v's infix offset, outside the minor heap. */
  function Rewrite(y: Range, m: Mem, v: Value): (r: Value)
    requires Settled(y, m, v)
    ensures r == Image(y, m, v) && !IsMinor(y, r)
  {
    if !IsMinor(y, v) then v
    else
      var b := Base(m, v.addr);
      Cas(v, v, Ptr(Copy(m, b) + Offset(m, v.addr)))
  }

  /** The rewrite as written agrees with the intended one exactly on the
      pointers with no infix offset; a pointer to an interior closure entry
      is left in place, still pointing into the minor heap. */
  lemma {:induction false} AsWrittenMissesInfix(y: Range, m: Mem, v: Value)
    requires Settled(y, m, v) && IsMinor(y, v)
    ensures RewriteAsWritten(y, m, v) == Rewrite(y, m, v) <==> Offset(m, v.addr) == 0
    ensures Offset(m, v.addr) > 0 ==> RewriteAsWritten(y, m, v) == v && IsMinor(y, RewriteAsWritten(y, m, v))
  {
    var b := Base(m, v.addr);
    if Offset(m, v.addr) == 0 {
      assert v == Ptr(b);
    } else {
      assert v != Ptr(b);
      assert RewriteAsWritten(y, m, v) == v;
    }
  }

  /** A concrete heap on which the rewrite as written leaves a remembered
      slot dangling: a closure at address 2 of the minor heap [1, 10) has
      been copied to 20, and the slot holds its interior entry point 4. */
  lemma InfixSlotLeftBehind()
    ensures var y := Range(1, 10);
            var m := map[2 := Block(Forwarded, [Ptr(20), Imm(0), Imm(0)]), 4 := Block(Hd(2, InfixTag), [])];
            Settled(y, m, Ptr(4)) && Rewrite(y, m, Ptr(4)) == Ptr(22) &&
            RewriteAsWritten(y, m, Ptr(4)) == Ptr(4) && IsMinor(y, RewriteAsWritten(y, m, Ptr(4)))
  {
    var y := Range(1, 10);
    var m := map[2 := Block(Forwarded, [Ptr(20), Imm(0), Imm(0)]), 4 := Block(Hd(2, InfixTag), [])];
    assert Base(m, 4) == 2 && Offset(m, 4) == 2;
  }
}
