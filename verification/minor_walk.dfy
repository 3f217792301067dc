/** Walking the minor heap block by block (next_minor_block,
    byterun/minor_gc.c:343-360). A block whose header is at hp has its value
    at hp + 1; the walk steps over the header and the fields. */
module MinorWalk {
  import opened Heap

  /** The block whose size is read: the block itself, or its copy when it
      has been forwarded. */
  function Current(m: Mem, hp: nat): nat
    requires hp + 1 in m
  {
    if m[hp + 1].hd == Forwarded then Copy(m, hp + 1) else hp + 1
  }

  /** The header address of the block after the one whose header is at hp,
      in the minor heap y. The size is read through the forwarding pointer
      once the block has been promoted. */
  function NextMinorBlock(y: Range, m: Mem, hp: nat): (next: nat)
    requires y.Contains(hp) && hp + 1 in m
    requires Current(m, hp) in m && m[Current(m, hp)].hd.Hd? && m[Current(m, hp)].hd.tag != InfixTag
    ensures next > hp
    ensures m[hp + 1].hd.Hd? ==> next == hp + 1 + m[hp + 1].hd.wosize
  {
    hp + 1 + m[Current(m, hp)].hd.wosize
  }

  /** Promotion does not disturb the walk: where the minor heap is
      reachable from m0 by promotions only, the block after hp is the same
      in m as in m0, because a copy has the header of its original. */
  lemma {:induction false} NextMinorBlockStable(y: Range, m0: Mem, m: Mem, n0: nat, hp: nat)
    requires Agrees(y, m0, m, n0) && y.Contains(hp) && y.Contains(hp + 1)
    requires hp + 1 in m0 && m0[hp + 1].hd.Hd? && m0[hp + 1].hd.tag != InfixTag
    ensures hp + 1 in m && Current(m, hp) in m && m[Current(m, hp)].hd == m0[hp + 1].hd
    ensures NextMinorBlock(y, m, hp) == NextMinorBlock(y, m0, hp)
  {
    var a := hp + 1;
    assert a in m && ((m[a] == m0[a] && m0[a].hd.Hd?) || Promoted(y, m0[a], m, a, n0));
  }
}
