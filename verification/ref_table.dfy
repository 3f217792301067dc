/** The growable table of slot addresses (struct caml_ref_table) behind each
    of a domain's remembered sets. The buffer is an array; the cursors
    base, ptr, threshold, limit and end are kept as offsets from base, so
    base itself is the array (hasBase is false where the source's base is NULL). */
module RefTables {
  import opened Heap

  /** sizeof (value) on a 64-bit target. */
  const ValueSize: nat := 8

  /** The reserve given to a table on its first allocation. */
  const FirstReserve: nat := 256

  /** The size a table gets on its first allocation, for a minor heap of
      minorHeapSize bytes. */
  function FirstSize(minorHeapSize: nat): nat {
    minorHeapSize / ValueSize / 8
  }

  /** caml_stat_resize: a buffer of n entries that starts with the whole of
      the old one. */
  method Resize(buf: array<Slot>, n: nat) returns (grown: array<Slot>)
    requires buf.Length <= n
    ensures fresh(grown) && grown.Length == n
    ensures grown[..buf.Length] == buf[..]
  {
    grown := new Slot[n](_ => Local);
    var i := 0;
    while i < buf.Length
      invariant 0 <= i <= buf.Length
      invariant grown[..i] == buf[..i]
    {
      grown[i] := buf[i];
      i := i + 1;
    }
  }

  class RefTable {
    var data: array<Slot>
    var hasBase: bool
    var size: nat
    var reserve: nat
    var ptr: nat
    var threshold: nat
    var limit: nat
    var end: nat

    /** base <= ptr <= limit <= end, limit is threshold or end, and the
        buffer spans size + reserve entries with threshold at base + size. */
    ghost predicate Valid()
      reads this
    {
      data.Length == end &&
      ptr <= limit <= end &&
      (limit == threshold || limit == end) &&
      (hasBase ==> threshold == size && end == size + reserve) &&
      (!hasBase ==> size == 0 && reserve == 0 && ptr == 0 && threshold == 0 && limit == 0 && end == 0)
    }

    /** The entries recorded so far: base[0 .. ptr - base). */
    ghost function Entries(): seq<Slot>
      reads this, data
      requires Valid()
    {
      data[..ptr]
    }

    /** A zero-filled table, as caml_alloc_remembered_set leaves it. */
    constructor ()
      ensures Valid() && !hasBase && Entries() == []
      ensures size == 0 && reserve == 0 && ptr == 0 && threshold == 0 && limit == 0 && end == 0
    {
      data := new Slot[0];
      hasBase := false;
      size, reserve := 0, 0;
      ptr, threshold, limit, end := 0, 0, 0, 0;
    }

    /** alloc_table: a fresh buffer of sz + rsv entries, empty, with the soft
        limit at the threshold. */
    method AllocTable(sz: nat, rsv: nat)
      modifies this
      ensures Valid() && hasBase && fresh(data)
      ensures size == sz && reserve == rsv
      ensures ptr == 0 && threshold == sz && limit == threshold && end == sz + rsv
      ensures Entries() == []
    {
      size := sz;
      reserve := rsv;
      data := new Slot[size + reserve](_ => Local);
      hasBase := true;
      ptr := 0;
      threshold := size;
      limit := threshold;
      end := size + reserve;
    }

    /** reset_table: free the buffer and zero every cursor. */
    method ResetTable()
      modifies this
      ensures Valid() && !hasBase && Entries() == []
      ensures size == 0 && reserve == 0 && ptr == 0 && threshold == 0 && limit == 0 && end == 0
    {
      size := 0;
      reserve := 0;
      data := new Slot[0];
      hasBase := false;
      ptr, threshold, limit, end := 0, 0, 0, 0;
    }

    /** clear_table: forget the entries without freeing, and take the soft
        limit back to the threshold. */
    method ClearTable()
      requires Valid()
      modifies this`ptr, this`limit
      ensures Valid() && Entries() == []
      ensures ptr == 0 && limit == threshold
    {
      ptr := 0;
      limit := threshold;
    }

    /** caml_realloc_ref_table, called when the table is full (ptr == limit):
        the first allocation sizes the table from the minor heap, a first
        overflow moves the soft limit into the reserve, a second one doubles
        the size. The recorded entries are kept in every case. */
    method Realloc(minorHeapSize: nat)
      requires Valid() && ptr == limit
      modifies this
      ensures Valid() && hasBase
      ensures Entries() == old(Entries())
      ensures !old(hasBase) ==>
        size == FirstSize(minorHeapSize) && reserve == FirstReserve &&
        ptr == 0 && threshold == size && limit == threshold && end == size + reserve &&
        (ptr < limit <==> FirstSize(minorHeapSize) > 0)
      ensures old(hasBase) && old(limit) == old(threshold) ==>
        data == old(data) && size == old(size) && reserve == old(reserve) &&
        ptr == old(ptr) && threshold == old(threshold) && limit == old(end) && end == old(end) &&
        (ptr < limit <==> reserve > 0)
      ensures old(hasBase) && old(limit) != old(threshold) ==>
        size == 2 * old(size) && reserve == old(reserve) && ptr == old(ptr) &&
        threshold == size && end == size + reserve && limit == end &&
        data[..old(end)] == old(data[..]) &&
        (ptr < limit <==> old(size) > 0)
    {
      if !hasBase {
        AllocTable(FirstSize(minorHeapSize), FirstReserve);
      } else if limit == threshold {
        limit := end;
      } else {
        var curPtr := ptr;
        size := size * 2;
        var grown := Resize(data, size + reserve);
        assert grown[..curPtr] == old(data[..])[..curPtr];
        data := grown;
        end := size + reserve;
        threshold := size;
        ptr := curPtr;
        limit := end;
      }
    }
  }
}
