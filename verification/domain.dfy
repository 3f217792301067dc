/** The parts of a domain's state (caml_domain_state) that the minor
    collector reads and writes: its heap as seen through the minor heap
    range, its remembered set, and its collection statistics. */
module Domains {
  import opened Heap
  import opened RefTables

  class Domain {
    /** The heap: every block, in the minor heap and in the shared heap. */
    var mem: Mem
    /** young_start and young_end: the bounds of the minor heap. */
    const youngStart: nat
    const youngEnd: nat
    /** young_ptr: the allocation frontier of the minor heap. */
    var youngPtr: nat
    /** The shared heap's next free address; the shared heap lies above the
        minor heap. */
    var nextFree: nat
    var allocatedWords: nat
    /** The remembered set: major_ref, minor_ref and fiber_ref. */
    const majorRef: RefTable
    const minorRef: RefTable
    const fiberRef: RefTable
    var statMinorWords: nat
    var statMinorCollections: nat
    var statPromotedWords: nat
    var promotedInCurrentCycle: bool
    /** The tag of execution stacks (defined in mlvalues.h, which is not part
        of this model); stacks are taken to be absent from the minor heap. */
    const stackTag: nat

    function Young(): Range
      reads this
    {
      Range(youngStart, youngEnd)
    }

    /** The minor heap is a non-empty-address range below the shared heap's
        free pointer, the frontier lies inside it, every block lies below the
        free pointer, and the three tables are distinct. */
    ghost predicate Valid()
      reads this
    {
      0 < youngStart <= youngPtr <= youngEnd <= nextFree &&
      (forall a | a in mem :: a < nextFree) &&
      stackTag < InfixTag &&
      majorRef != minorRef && majorRef != fiberRef && minorRef != fiberRef
    }

    constructor (start: nat, end: nat, stack: nat)
      requires 0 < start <= end && stack < InfixTag
      ensures Valid() && mem == map[] && youngStart == start && youngEnd == end && youngPtr == end
      ensures stackTag == stack && nextFree == end
      ensures fresh(majorRef) && fresh(minorRef) && fresh(fiberRef)
      ensures majorRef.Valid() && minorRef.Valid() && fiberRef.Valid()
      ensures majorRef.Entries() == [] && minorRef.Entries() == [] && fiberRef.Entries() == []
    {
      mem := map[];
      youngStart := start;
      youngEnd := end;
      youngPtr := end;
      nextFree := end;
      allocatedWords := 0;
      majorRef := new RefTable();
      minorRef := new RefTable();
      fiberRef := new RefTable();
      statMinorWords, statMinorCollections, statPromotedWords := 0, 0, 0;
      promotedInCurrentCycle := false;
      stackTag := stack;
    }

    /** alloc_shared: a fresh block of sz words with the given tag in the
        shared heap, its fields not yet written. Running out of shared heap
        is fatal in the source and not modelled. */
    method AllocShared(sz: nat, tag: nat) returns (c: nat)
      requires Valid()
      modifies this`mem, this`nextFree, this`allocatedWords
      ensures Valid()
      ensures c == old(nextFree) && c !in old(mem) && !Young().Contains(c)
      ensures mem == old(mem)[c := Fresh(sz, tag)]
      ensures nextFree == old(nextFree) + sz + 1
      ensures allocatedWords == old(allocatedWords) + sz + 1
    {
      c := nextFree;
      mem := mem[c := Fresh(sz, tag)];
      nextFree := nextFree + sz + 1;
      allocatedWords := allocatedWords + sz + 1;
    }

    /** *p = x, for a slot that is a field of a block (a local slot is
        returned to the caller instead). */
    method Store(p: Slot, x: Value)
      requires SlotOK(mem, p)
      modifies this`mem
      ensures p.Local? ==> mem == old(mem)
      ensures p.Field? ==> mem == old(mem)[p.addr := old(mem)[p.addr].(fields := old(mem)[p.addr].fields[p.index := x])]
    {
      if p.Field? {
        mem := mem[p.addr := mem[p.addr].(fields := mem[p.addr].fields[p.index := x])];
      }
    }

    /** Op_val(v)[0] = result followed by setting the header word to 0: the
        block at a is forwarded to c. */
    method ForwardBlock(a: nat, c: nat)
      requires a in mem && |mem[a].fields| > 0
      modifies this`mem
      ensures mem == old(mem)[a := Block(Forwarded, old(mem)[a].fields[0 := Ptr(c)])]
    {
      mem := mem[a := Block(Forwarded, mem[a].fields[0 := Ptr(c)])];
    }
  }
}
