# Minor collection of one domain (byterun/minor_gc.c)

This project is a Dafny model of the per-domain minor collector of the multicore OCaml runtime. Each domain allocates into its own minor heap. A minor collection copies every live block of that heap into the shared heap. A block is live when it is reachable from the domain's local roots or from the slots of the shared heap listed in its remembered set. After the copy, the collector makes every such reference point at the copy and empties the minor heap.

The model has five parts:

- **Ref tables** (`ref_table.dfy`, class `RefTable`). The growable table of slot addresses behind the remembered set, with its `base`/`ptr`/`threshold`/`limit`/`end` cursors. It covers `alloc_table`, `reset_table`, `clear_table`, the zero-filled table of `caml_alloc_remembered_set` and `caml_realloc_ref_table`.
- **Heap and domain** (`heap.dfy`, `domain.dfy`). The heap is a map from word addresses to blocks. A block has a header and fields. A header of 0 (`Forwarded`) means the block has been copied, and its field 0 holds the copy's address. An interior closure entry point is a pseudo-block with an `Infix_tag` header that records its distance back to the enclosing block. The class `Domain` holds:
  - the heap;
  - the minor heap bounds and the allocation frontier;
  - the remembered set;
  - the shared allocator, whose free pointer lies above the minor heap;
  - the statistics that the collection updates.
- **Promotion** (`promotion.dfy`, `step.dfy`, `pass_facts.dfy`, `chain.dfy`, `mopup.dfy`, `oldify.dfy`). `oldify_one` and `oldify_one`'s deferred work in `oldify_mopup` form a Cheney-style copier with an intrusive to-do list. The to-do list is threaded through field 1 of the copies, and its head is an original block.
  - `OldifyState` is a class whose methods update the heap, the to-do list and the `live_bytes` and `oldest_promoted` counters.
  - Each method is proved against the ghost function `Steps.Pass`, which describes one pass of `oldify_one` on values.
  - The collector invariant `Promotion.GcInv` says, among other things, that:
    - every forwarded block has a distinct copy outside the minor heap, with the original header;
    - scannable copies are either on the to-do list or already filled with the images of the original fields;
    - the to-do list links exactly the pending originals.
- **The collection** (`rewrite.dfy`, `drain.dfy`). This is the sequential skeleton of `caml_empty_minor_heap_domain`. It runs four steps:
  1. promote the roots;
  2. promote the value of each `major_ref` slot into a local;
  3. run `oldify_mopup`;
  4. rewrite every `major_ref` slot that still points into the minor heap with a compare-and-swap.

  Then it clears the tables, resets `young_ptr` and updates the statistics. The end state is stated in `Drains.Collected`:
  - the invariant holds with an empty to-do list;
  - every root slot holds the image of its original value;
  - every remembered slot holds the image of its original value;
  - every other field of a block that lay outside the minor heap at entry is unchanged, and every such block keeps its header and size.

  Step 4 is modelled with the compare-and-swap as evidently intended (see "## Findings"). As written, a remembered slot holding an interior closure pointer keeps pointing into the minor heap.
- **The minor heap walk** (`minor_walk.dfy`). `next_minor_block` is a pure function. A lemma shows that promotion does not change the walk.

Addresses are counted in words, so `Wsize_bsize` is the identity. Byte counts (`live_bytes`, `Bhsize_hd`) use a word size of 8.

## Model

| member | source | states |
|---|---|---|
| RefTables.RefTable.constructor | byterun/minor_gc.c:62-68 | the zero-filled table: no buffer, every size and cursor 0, no entries, and the table invariant holds |
| RefTables.RefTable.AllocTable | byterun/minor_gc.c:35-46 | a fresh buffer of sz + rsv entries; ptr at base, threshold and limit at base + sz, end at base + sz + rsv; no entries |
| RefTables.RefTable.ResetTable | byterun/minor_gc.c:48-54 | the buffer is released; sizes and cursors are all 0; no entries |
| RefTables.RefTable.ClearTable | byterun/minor_gc.c:56-60 | only ptr and limit change: ptr returns to base and limit to threshold, so the table is empty and keeps its buffer and invariant |
| RefTables.RefTable.Realloc | byterun/minor_gc.c:522-551 | on a full table (ptr == limit) the recorded entries are kept. Three cases: a first allocation sized from the minor heap with reserve 256; crossing the threshold moves only limit to end; otherwise size doubles, ptr keeps its offset and limit goes to end. There is free space afterwards exactly when the first size, the reserve or the old size, respectively, is positive |
| RefTables.Resize | byterun/minor_gc.c:542 | the resized buffer is fresh, of the requested length, and starts with the whole old buffer |
| Domains.Domain.AllocShared | byterun/minor_gc.c:104-113 | a fresh block with the requested header at the free pointer, outside the minor heap; allocated_words grows by the block's size with its header |
| Domains.Domain.Store | byterun/minor_gc.c:139 | writing a slot changes exactly that field, and a local slot changes no block |
| Domains.Domain.ForwardBlock | byterun/minor_gc.c:205-206 | the block's header becomes 0 and its field 0 the copy's address; the other fields stay |
| Heap.Base | byterun/minor_gc.c:155-161 | an address is the start of its block unless it carries an Infix header, in which case the start is that header's offset back |
| Heap.Offset | byterun/minor_gc.c:155-161 | the infix offset plus the block start gives back the address |
| Heap.Image | byterun/minor_gc.c:143-150 | what a reference becomes after promotion: outside the minor heap; the reference itself when it was outside; otherwise the copy of its block plus its infix offset |
| Heap.ImageStable | byterun/minor_gc.c:143-150 | once a reference is settled, further promotion keeps it settled with the same image |
| Heap.ForwardShrinks | byterun/minor_gc.c:205-206 | forwarding an unforwarded block removes exactly that block from the set of blocks still to promote, so the set shrinks |
| Steps.Pass | byterun/minor_gc.c:136-265 | the reference definition of one pass from the tail_call label, on values. It selects the branch of oldify_one by the value and its block's header: a value outside the minor heap or into a forwarded block; a block below Infix_tag; a block at or above No_scan_tag; a Forward_tag block. Its outcome is the new heap, free pointer, to-do list, whether the pass finished, the slot and value of a tail call, and the promoted bytes. Steps.PassStepped and Steps.PassKeeps state its properties |
| Steps.StorePass | byterun/minor_gc.c:137-150 | the store branch: the slot receives the value itself, or the forward pointer plus the infix offset; the pass finishes with no block promoted. PassFacts.PassOutsideMinor and PassFacts.PassForwarded state its effect |
| Steps.ScanPass | byterun/minor_gc.c:183-218 | the branch below Infix_tag: copy, store the copy plus the infix offset, forward, then push a block of several fields or tail-call on a one-field block's field. PassFacts.PassDefer and PassFacts.PassChain state its effect |
| Steps.NoScanPass | byterun/minor_gc.c:220-235 | the No_scan_tag branch: a word-for-word copy, forwarded, with the copy stored. PassFacts.PassNoScan states its effect |
| Steps.ForwardPass | byterun/minor_gc.c:236-260 | the Forward_tag branch: a one-field Forward_tag copy, stored and forwarded, with a tail call on the forwarded value and no short-circuit. PassFacts.PassForwardTag states its effect |
| Steps.PassStepped | byterun/minor_gc.c:136-265 | every pass settles its value with the slot holding the value's image and writes nothing else outside the minor heap. It leaves fewer blocks to promote whenever it copied one. A pushed block goes to the head of the to-do list, and an unfinished pass leaves a forwarded one-field block whose field is still to promote into its copy |
| Steps.CopyOutFacts | byterun/minor_gc.c:185-206 | after a copy is allocated, the slot written and the original forwarded: the original is forwarded to the copy, the reference is settled, and its image is what the slot received |
| Steps.PassKeeps | byterun/minor_gc.c:136-266 | one pass of oldify_one: the value is settled and the slot holds its image; nothing else outside the minor heap changes; the collector invariant is kept, with the pushed block at the head of the to-do list or the pending one-field block being filled in; fewer blocks remain to promote whenever one was copied (its bytes counted), and strictly fewer on every push or pending tail call |
| PassFacts.PassOutsideMinor | byterun/minor_gc.c:137-141 | a value outside the minor heap is stored unchanged into the slot, and nothing else changes |
| PassFacts.PassForwarded | byterun/minor_gc.c:143-150 | a reference into a forwarded block becomes the forward pointer plus the infix offset, which is its image; nothing else changes |
| PassFacts.PassDefer | byterun/minor_gc.c:183-211 | a scannable block of several fields is copied with its header. The slot gets the copy plus the infix offset. The original is forwarded. The copy's field 0 holds the original's field 0 and its field 1 the old to-do head. The block becomes the new head |
| PassFacts.PassChain | byterun/minor_gc.c:212-216 | a scannable one-field block is copied and forwarded, and the pass continues with its field into field 0 of the copy; the to-do list is untouched |
| PassFacts.PassNoScan | byterun/minor_gc.c:220-235 | a pointer-free block is copied word for word with its header, forwarded, and the slot gets the copy; the to-do list is untouched |
| PassFacts.PassForwardTag | byterun/minor_gc.c:236-260 | a Forward_tag block is never short-circuited: it is copied to a one-field Forward_tag block and forwarded, the slot gets the copy, and the pass continues with the forwarded value into the copy's field |
| Promotion.ForwardKeeps | byterun/minor_gc.c:203-206 | forwarding an unpromoted block to a fresh copy that has its header and size (and, for a pointer-free block, its fields) keeps the collector invariant, with the block being filled in when it is scannable |
| Promotion.DeferKeeps | byterun/minor_gc.c:208-211 | pushing a freshly copied block, with its field 0 and the old head in its copy, restores the collector invariant with the block at the head of the to-do list |
| Promotion.PopKeeps | byterun/minor_gc.c:281-293 | popping the head: field 1 of its copy is the next head, and the invariant holds with the popped block being filled in |
| Chains.FirstPass | byterun/minor_gc.c:118-266 | the first pass of oldify_one either returns, with the slot holding the image of the value, or stops at tail_call with a pending one-field block |
| Chains.NextPass | byterun/minor_gc.c:212-216 | a pass after a tail call stores into field 0 of the pending block's copy, which leaves the caller's slot and the older blocks as they were |
| Chains.NextOutcome | byterun/minor_gc.c:212-260 | each further pass of the tail-call chain either completes oldify_one or reaches tail_call again |
| Oldify.OldifyState.constructor | byterun/minor_gc.c:388 | the state {0}: an empty to-do list, live_bytes and oldest_promoted at 0, and the collector invariant holds on a well-formed minor heap |
| Oldify.OldifyState.Write | byterun/minor_gc.c:306 | the heap is the old one with the slot written; only that slot changes; the invariant and the blocks still to promote are kept |
| Oldify.OldifyState.CopyFields | byterun/minor_gc.c:224-230 | the copy's fields become the original's fields; nothing else changes |
| Oldify.OldifyState.Promote | byterun/minor_gc.c:136-168 | one pass: the new heap, free pointer, to-do list, result, next slot and value are exactly Pass's outcome. live_bytes grows by the copied bytes. oldest_promoted becomes the maximum of itself and the promoted header. allocated_words grows with the free pointer |
| Oldify.OldifyState.PromoteBlock | byterun/minor_gc.c:172-265 | the dispatch on the tag of an unpromoted block is Pass's outcome, with oldest_promoted raised to the block's header address |
| Oldify.OldifyState.PromoteScannable | byterun/minor_gc.c:176-217 | a block below Infix_tag is copied, forwarded and pushed, or followed by a tail call, exactly as Pass says |
| Oldify.OldifyState.PromoteNoScan | byterun/minor_gc.c:220-235 | a pointer-free block is copied word for word exactly as Pass says |
| Oldify.OldifyState.PromoteForward | byterun/minor_gc.c:236-260 | a Forward_tag block is copied without short-circuiting and followed, exactly as Pass says |
| Oldify.OldifyState.CopyOutFresh | byterun/minor_gc.c:183-206 | allocate a copy at the free pointer, store the copy plus the offset into the slot, and forward the original; field 0 of the original is returned |
| Oldify.OldifyState.CopyOutNoScan | byterun/minor_gc.c:223-235 | allocate a copy holding the original's fields, forward the original, and store the copy into the slot |
| Oldify.OldifyState.OldifyOne | byterun/minor_gc.c:118-266 | the whole tail-call loop: the value is settled and the caller's slot holds its image r; nothing else that existed outside the minor heap changed; the invariant is kept; a block was promoted or the to-do list is unchanged; allocated_words grows with the free pointer |
| Oldify.OldifyState.Mopup | byterun/minor_gc.c:272-313 | the to-do list ends empty with the invariant kept, so every promoted scannable copy holds the images of its original's fields; blocks that existed before the collection outside the minor heap are untouched |
| Oldify.OldifyState.ScanCopy | byterun/minor_gc.c:293-309 | scanning a popped block's copy leaves the block done: every field of its copy holds the image of the original's field. The invariant is restored with nothing being filled in, and blocks that existed outside the minor heap before the collection are untouched |
| Oldify.OldifyState.ScanField | byterun/minor_gc.c:300-308 | field i of the copy comes to hold the image of the original's field i, keeping the fields before it filled |
| Mopups.PopFacts | byterun/minor_gc.c:281-293 | a non-empty to-do list starts at a forwarded block. Its copy's field 1 is the next head and its field 0 the original's field 0. The invariant holds after the pop |
| Mopups.FillSlot | byterun/minor_gc.c:296-308 | the block being scanned is forwarded to a copy outside the minor heap, with its header and size; its field i is a dereferenceable value, unchanged for i > 0 |
| Mopups.FilledStep | byterun/minor_gc.c:300-308 | writing the image of field i into the copy extends the filled prefix by one and keeps the fields already filled |
| Mopups.ScanDone | byterun/minor_gc.c:296-309 | once every field is filled, the invariant holds with no block being filled in |
| Rewrites.Cas | byterun/minor_gc.c:433 | a compare-and-swap run by one domain alone: the slot keeps its value or receives the new one, and it receives the new one exactly when it held the expected value or already held the new one |
| Rewrites.RewriteAsWritten | byterun/minor_gc.c:424-433 | the rewrite of one remembered slot as written, with the expected value moved back by the infix offset: the slot keeps its value or receives its image. A value outside the minor heap is kept, and a pointer with no infix offset receives its image |
| Rewrites.Rewrite | byterun/minor_gc.c:417-434 | the intended compare-and-swap leaves each settled slot value as its image, outside the minor heap |
| Rewrites.AsWrittenMissesInfix | byterun/minor_gc.c:424-433 | the compare-and-swap as written agrees with the intended one exactly when the pointer has no infix offset; otherwise it leaves the slot pointing into the minor heap |
| Rewrites.InfixSlotLeftBehind | byterun/minor_gc.c:424-433 | a concrete heap on which the rewrite as written leaves a remembered infix pointer behind, and the intended one gives the image |
| Drains.PromoteRoots | byterun/minor_gc.c:405 | each root slot comes to hold the image of its original value. The other given slots keep their values, and every other field of the blocks outside the minor heap is unchanged. The invariant holds |
| Drains.PromoteMajorRef | byterun/minor_gc.c:411-413 | each remembered slot's value is promoted into a local. Every remembered value becomes settled, while the slots themselves and every other pre-existing field outside the minor heap are unchanged |
| Drains.RewriteSlot | byterun/minor_gc.c:418-434 | with the intended compare-and-swap (Rewrites.Rewrite), one remembered slot comes to hold the image of what it held; nothing else changes; the invariant is kept |
| Drains.RewriteMajorRef | byterun/minor_gc.c:417-436 | with the intended compare-and-swap, every remembered slot comes to hold the image of its original value. The roots keep theirs, and no other pre-existing field outside the minor heap changes |
| Drains.CopyComplete | byterun/minor_gc.c:415 | after the to-do list is drained, every promoted block's copy lies outside the minor heap with the original header. A scannable copy holds the images of the original fields; a pointer-free copy holds the original fields |
| Drains.Collect | byterun/minor_gc.c:405-436 | the promotion work ends in Collected: the invariant with an empty to-do list; every root and remembered slot holding the image of its original value (the remembered ones through the intended compare-and-swap); every other pre-existing field outside the minor heap unchanged |
| Drains.UntouchedBlock | byterun/minor_gc.c:405-436 | a block that lay outside the minor heap and holds no root or remembered slot is, after the collection, exactly as it was |
| Drains.Finish | byterun/minor_gc.c:438-470 | all three tables are empty, each with its limit back at its threshold, and only their ptr and limit change; young_ptr is at young_end; stat_minor_words grows by the words allocated; stat_minor_collections grows by one; stat_promoted_words grows by the words promoted; promoted_in_current_cycle is cleared |
| Drains.EmptyMinorHeapDomain | byterun/minor_gc.c:379-481 | the whole collection. It ends in Collected against the heap at entry: roots and remembered slots hold their images (the remembered ones through the intended compare-and-swap), and every other pre-existing field outside the minor heap is unchanged. The tables are emptied with each limit back at its threshold, and only their ptr and limit change. The minor heap is emptied and the statistics are updated as in Finish |
| MinorWalk.NextMinorBlock | byterun/minor_gc.c:343-360 | the next header lies beyond the current one, and for an unpromoted block it is the current header plus the header word plus the block's size |
| MinorWalk.NextMinorBlockStable | byterun/minor_gc.c:350-359 | promotion does not change the walk: reading the size through the forward pointer gives the original size |

## Left out

- Concurrency is left out. The model leaves out the header lock (`SPIN_WAIT` and the header value 1), atomic loads and stores, promotion on behalf of another domain (`promote_domain`) and `caml_global_barrier`. The collection is modelled as run by the domain alone, and the compare-and-swap of the rewrite loop is modelled sequentially by `Rewrites.Cas`.
- Execution stacks are left out. That covers `Stack_tag` promotion and the `should_promote_stacks` flag (lines 179-201), the stack branch of `oldify_mopup` (lines 285-290), `caml_scan_stack` and the `fiber_ref` scanning loops with `caml_scan_dirty_stack_domain` and `caml_clean_stack_domain`. The stack tag is a parameter of the domain, and the minor heap is required to hold no stack. Of the `fiber_ref` handling, only its `clear_table` is modelled.
- `Ref_table_add` is defined in `caml/minor_gc.h`, which is not part of this model, so the stack branch's addition to `major_ref` is not modelled.
- `caml_do_local_roots`: the roots are an input sequence of slots in shared-heap blocks. They are required to be distinct from the remembered slots, since a local root lives on the stack or in a register and never in a remembered field.
- `caml_darken`, `caml_urge_major_slice`, logging, event tracing, the `rewritten` counter and the debug fill of the minor heap do not affect the collector's state and are left out.
- `caml_fatal_error` on allocation failure or ref-table overflow is left out. The shared allocator is a bump pointer that never fails.
- `caml_save_stack_gc` and `caml_restore_stack_gc` are left out.
- The wrappers `caml_promote`, `caml_empty_minor_heap`, `caml_minor_collection`, `caml_check_urgent_gc`, `caml_set_minor_heap_size` and `caml_free_remembered_set` only call into the modelled core or into code outside it, so they are left out.
- `forward_pointer` is never called from this file and is left out. The short-circuit branch for `Forward_tag` (lines 262-263) is dead, because the condition at line 248 starts with `1 ||`, so the model always copies `Forward_tag` blocks.
- Interior `Infix` headers are not materialised inside a copied closure. An infix header is a pseudo-block only in the minor heap, so the assertion at line 432 that the rewritten value points at an Infix header is not modelled.
- Oldify.OldifyState.OldifyOne: states `live_bytes` only as non-decreasing and does not state `oldest_promoted`, because the tail-call chain visits any number of blocks. Oldify.OldifyState.Promote states both exactly for each pass.
- Oldify.OldifyState.Mopup: states `live_bytes` only as non-decreasing and does not state `oldest_promoted`, for the same reason.
- Drains.RewriteSlot: models the compare-and-swap as evidently intended, expecting the value read from the slot. The source as written expects the enclosing block's start (lines 426 and 433), so `Drains.Collected`'s clause on remembered slots holds for the corrected program only. The code as written is `Rewrites.RewriteAsWritten` (see "## Findings").
- Drains.EmptyMinorHeapDomain: does not state `live_bytes`, which lives in the collection's local state and is only logged.
- Byte-sized addresses: the model counts addresses in words, so `Wsize_bsize(young_end - young_ptr)` is `youngEnd - youngPtr`.

## Findings

| source | as written | input that shows it | evidently intended | confidence | as-written member | corrected member |
|---|---|---|---|---|---|---|
| byterun/minor_gc.c:426 | when the remembered slot holds an infix pointer, the loop subtracts the infix offset from `v` before the compare-and-swap at line 433, so the swap expects the start of the enclosing closure rather than the value read from the slot; the swap then fails and the slot keeps pointing into the emptied minor heap | a closure at word 2 of the minor heap [1, 10), copied to 20, and a remembered slot holding its interior entry point 4 (Infix offset 2): as written the slot keeps 4, intended is 22 | the compare-and-swap expects the value read from the slot, so the slot receives the copy plus the offset | high; not executed | Rewrites.AsWrittenMissesInfix | Rewrites.Rewrite |
