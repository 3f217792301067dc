/** The invariant of a minor collection in progress, and how each kind of
    heap update made by oldify_one and oldify_mopup (byterun/minor_gc.c)
    preserves it.

    m0 is the heap when the collection started and n0 the shared heap's free
    pointer then, so every copy lies at or above n0. The to-do list of
    promoted blocks whose fields still have to be promoted is threaded
    through field 1 of the copies; s is the list of originals it holds.
    exc is the set of promoted blocks whose copies are being filled in
    right now: the one popped by oldify_mopup, and the one-field block whose
    sole field oldify_one is about to promote. */
module Promotion {
  import opened Heap

  /** The to-do entry for original a, followed in the list by next: a was
      promoted from a scannable block of at least two fields, its copy holds
      the original field 0 and, in field 1, the link to next. */
  ghost predicate TodoEntry(y: Range, m0: Mem, m: Mem, a: nat, next: Value) {
    a in m0 && y.Contains(a) && a in m && m[a].hd == Forwarded &&
    m0[a].hd.Hd? && m0[a].hd.tag < InfixTag && |m0[a].fields| >= 2 &&
    Copy(m, a) in m && |m[Copy(m, a)].fields| >= 2 &&
    m[Copy(m, a)].fields[0] == m0[a].fields[0] && m[Copy(m, a)].fields[1] == next
  }

  ghost function Link(s: seq<nat>, k: nat): Value {
    if k + 1 < |s| then Ptr(s[k + 1]) else Null
  }

  /** todo is the head of the intrusive list whose originals are s. */
  ghost predicate TodoWf(y: Range, m0: Mem, m: Mem, todo: Value, s: seq<nat>) {
    (s == [] <==> todo == Null) && (s != [] ==> todo == Ptr(s[0])) &&
    (forall j, k | 0 <= j < k < |s| :: s[j] != s[k]) &&
    (forall k | 0 <= k < |s| :: TodoEntry(y, m0, m, s[k], Link(s, k)))
  }

  ghost predicate ExcOK(y: Range, m0: Mem, m: Mem, s: seq<nat>, exc: set<nat>) {
    forall e | e in exc ::
      e in m0 && y.Contains(e) && e in m && m[e].hd == Forwarded &&
      m0[e].hd.Hd? && m0[e].hd.tag < NoScanTag && e !in s
  }

  /** The copy of a holds, in every field, the image of the original's field:
      a promoted block whose fields are all promoted. */
  ghost predicate Done(y: Range, m0: Mem, m: Mem, a: nat)
    requires a in m0 && a in m
  {
    Copy(m, a) in m && |m[Copy(m, a)].fields| == |m0[a].fields| &&
    forall i | 0 <= i < |m0[a].fields| ::
      Settled(y, m, m0[a].fields[i]) && m[Copy(m, a)].fields[i] == Image(y, m, m0[a].fields[i])
  }

  /** Every promoted scannable block that is neither on the to-do list nor
      being filled in is done. */
  ghost predicate AllDone(y: Range, m0: Mem, m: Mem, s: seq<nat>, exc: set<nat>) {
    forall a | a in m0 && y.Contains(a) && a in m && m[a].hd == Forwarded &&
               m0[a].hd.Hd? && m0[a].hd.tag < NoScanTag && a !in s && a !in exc ::
      Done(y, m0, m, a)
  }

  /** q is not the copy of any promoted block outside exc, so writing into q
      disturbs no finished copy and no to-do link. */
  ghost predicate Unprotected(y: Range, m: Mem, exc: set<nat>, q: nat) {
    forall b | b in m && y.Contains(b) && m[b].hd == Forwarded && b !in exc :: Copy(m, b) != q
  }

  ghost predicate GcInv(y: Range, stackTag: nat, m0: Mem, n0: nat, m: Mem, nf: nat,
                        todo: Value, s: seq<nat>, exc: set<nat>)
  {
    0 < y.lo && y.hi <= n0 <= nf &&
    NurseryWf(y, m0, stackTag) &&
    (forall a | a in m0 :: a < n0) && (forall a | a in m :: a < nf) &&
    Agrees(y, m0, m, n0) && CopiesDistinct(y, m) &&
    TodoWf(y, m0, m, todo, s) && ExcOK(y, m0, m, s, exc) && AllDone(y, m0, m, s, exc)
  }

  /** Under the invariant, a block of the minor heap is either still the
      original or promoted. */
  lemma AgreesAt(y: Range, m0: Mem, m: Mem, n0: nat, a: nat)
    requires Agrees(y, m0, m, n0) && a in m && y.Contains(a)
    ensures a in m0 && ((m[a] == m0[a] && m0[a].hd.Hd?) || Promoted(y, m0[a], m, a, n0))
  {
  }

  /** m' differs from m at most at the shared-heap address q. */
  ghost predicate ChangedOnlyAt(y: Range, m: Mem, m': Mem, q: nat) {
    !y.Contains(q) &&
    (forall a | a in m && a != q :: a in m' && m'[a] == m[a]) &&
    (forall a | a in m' && a != q :: a in m) &&
    (q in m ==> q in m' && m'[q].hd == m[q].hd && |m'[q].fields| == |m[q].fields|)
  }

  lemma ChangedOnlyAtEvolves(y: Range, m: Mem, m': Mem, q: nat)
    requires ChangedOnlyAt(y, m, m', q)
    ensures Evolves(y, m, m')
    ensures forall a | a in m && y.Contains(a) :: a in m' && m'[a] == m[a]
  {
  }

  lemma {:induction false} AgreesAfterChange(y: Range, m0: Mem, n0: nat, m: Mem, m': Mem,
                                             s: seq<nat>, exc: set<nat>, q: nat)
    requires Agrees(y, m0, m, n0) && ExcOK(y, m0, m, s, exc)
    requires ChangedOnlyAt(y, m, m', q) && Unprotected(y, m, exc, q)
    ensures Agrees(y, m0, m', n0)
  {
    forall a | a in m0 && y.Contains(a)
      ensures a in m' && ((m'[a] == m0[a] && m0[a].hd.Hd?) || Promoted(y, m0[a], m', a, n0))
    {
      assert m'[a] == m[a];
      if m[a] != m0[a] {
        assert Promoted(y, m0[a], m, a, n0);
        var c := m[a].fields[0].addr;
        assert c == Copy(m, a);
        if c == q {
          assert a in exc;
        }
      }
    }
  }

  lemma {:induction false} TodoAfterChange(y: Range, m0: Mem, m: Mem, m': Mem, todo: Value,
                                           s: seq<nat>, exc: set<nat>, q: nat)
    requires TodoWf(y, m0, m, todo, s) && ExcOK(y, m0, m, s, exc)
    requires ChangedOnlyAt(y, m, m', q) && Unprotected(y, m, exc, q)
    ensures TodoWf(y, m0, m', todo, s)
  {
    forall k | 0 <= k < |s| ensures TodoEntry(y, m0, m', s[k], Link(s, k)) {
      var a := s[k];
      assert TodoEntry(y, m0, m, a, Link(s, k));
      assert a !in exc;
      assert Copy(m, a) != q;
    }
  }

  lemma {:induction false} DoneAfterChange(y: Range, m0: Mem, m: Mem, m': Mem,
                                           s: seq<nat>, exc: set<nat>, q: nat)
    requires AllDone(y, m0, m, s, exc)
    requires ChangedOnlyAt(y, m, m', q) && Unprotected(y, m, exc, q)
    ensures AllDone(y, m0, m', s, exc)
  {
    ChangedOnlyAtEvolves(y, m, m', q);
    forall a | a in m0 && y.Contains(a) && a in m' && m'[a].hd == Forwarded &&
               m0[a].hd.Hd? && m0[a].hd.tag < NoScanTag && a !in s && a !in exc
      ensures Done(y, m0, m', a)
    {
      assert m[a] == m'[a];
      assert Done(y, m0, m, a);
      assert Copy(m, a) != q;
      forall i | 0 <= i < |m0[a].fields|
        ensures Settled(y, m', m0[a].fields[i]) && m'[Copy(m', a)].fields[i] == Image(y, m', m0[a].fields[i])
      {
        ImageStable(y, m, m', m0[a].fields[i]);
      }
    }
  }

  /** Changing the shared heap at one address q that is the copy of no
      promoted block outside exc, without changing q's header or size (a
      fresh block, or a field write), keeps the invariant. */
  lemma {:induction false} ChangeKeeps(y: Range, st: nat, m0: Mem, n0: nat, m: Mem, nf: nat,
                                       todo: Value, s: seq<nat>, exc: set<nat>, m': Mem, q: nat, nf': nat)
    requires GcInv(y, st, m0, n0, m, nf, todo, s, exc)
    requires ChangedOnlyAt(y, m, m', q) && Unprotected(y, m, exc, q)
    requires nf <= nf' && q < nf'
    ensures GcInv(y, st, m0, n0, m', nf', todo, s, exc)
    ensures Evolves(y, m, m')
    ensures forall E: set<nat>, r: nat :: Unprotected(y, m, E, r) ==> Unprotected(y, m', E, r)
  {
    ChangedOnlyAtEvolves(y, m, m', q);
    AgreesAfterChange(y, m0, n0, m, m', s, exc, q);
    TodoAfterChange(y, m0, m, m', todo, s, exc, q);
    DoneAfterChange(y, m0, m, m', s, exc, q);
    assert CopiesDistinct(y, m');
    assert ExcOK(y, m0, m', s, exc);
  }

  /** The heap after promoting block a to copy c: a's header becomes 0 and
      its field 0 the copy's address. */
  ghost function ForwardTo(m: Mem, a: nat, c: nat): Mem
    requires a in m && |m[a].fields| > 0
  {
    m[a := Block(Forwarded, m[a].fields[0 := Ptr(c)])]
  }

  lemma {:induction false} AgreesAfterForward(y: Range, m0: Mem, n0: nat, m: Mem, a: nat, c: nat)
    requires Agrees(y, m0, m, n0) && a in Unforwarded(y, m)
    requires c in m && !y.Contains(c) && c >= n0
    requires m[c].hd == m0[a].hd && |m[c].fields| == |m0[a].fields| > 0
    requires m0[a].hd.tag >= NoScanTag ==> m[c].fields == m0[a].fields
    ensures Agrees(y, m0, ForwardTo(m, a, c), n0)
  {
    var m' := ForwardTo(m, a, c);
    assert m[a] == m0[a];
    assert m'[a].fields[1..] == m0[a].fields[1..];
    assert Promoted(y, m0[a], m', a, n0);
  }

  lemma {:induction false} TodoAfterForward(y: Range, m0: Mem, n0: nat, m: Mem, todo: Value, s: seq<nat>, a: nat, c: nat)
    requires TodoWf(y, m0, m, todo, s) && Agrees(y, m0, m, n0)
    requires a in Unforwarded(y, m) && |m[a].fields| > 0 && !y.Contains(c)
    ensures TodoWf(y, m0, ForwardTo(m, a, c), todo, s)
    ensures a !in s
  {
    var m' := ForwardTo(m, a, c);
    forall k | 0 <= k < |s| ensures TodoEntry(y, m0, m', s[k], Link(s, k)) && s[k] != a {
      assert TodoEntry(y, m0, m, s[k], Link(s, k));
      AgreesAt(y, m0, m, n0, s[k]);
    }
  }

  lemma {:induction false} DoneAfterForward(y: Range, m0: Mem, n0: nat, m: Mem, s: seq<nat>, exc: set<nat>, a: nat, c: nat)
    requires AllDone(y, m0, m, s, exc) && Agrees(y, m0, m, n0)
    requires a in Unforwarded(y, m) && |m[a].fields| > 0 && !y.Contains(c)
    ensures AllDone(y, m0, ForwardTo(m, a, c), s, exc + {a})
  {
    var m' := ForwardTo(m, a, c);
    assert Evolves(y, m, m');
    forall b | b in m0 && y.Contains(b) && b in m' && m'[b].hd == Forwarded &&
               m0[b].hd.Hd? && m0[b].hd.tag < NoScanTag && b !in s && b !in exc + {a}
      ensures Done(y, m0, m', b)
    {
      assert Done(y, m0, m, b);
      AgreesAt(y, m0, m, n0, b);
      forall i | 0 <= i < |m0[b].fields|
        ensures Settled(y, m', m0[b].fields[i]) && m'[Copy(m', b)].fields[i] == Image(y, m', m0[b].fields[i])
      {
        ImageStable(y, m, m', m0[b].fields[i]);
      }
    }
  }

  lemma {:induction false} CopiesAfterForward(y: Range, m: Mem, a: nat, c: nat)
    requires CopiesDistinct(y, m) && a in Unforwarded(y, m) && |m[a].fields| > 0 && Unprotected(y, m, {}, c)
    ensures CopiesDistinct(y, ForwardTo(m, a, c))
  {
    var m' := ForwardTo(m, a, c);
    forall b | b in m' && y.Contains(b) && m'[b].hd == Forwarded && b != a ensures Copy(m', b) == Copy(m, b) != c {
      assert m'[b] == m[b];
    }
  }

  /** Promoting an unforwarded block a to a fresh copy c with a's header (and,
      for a pointer-free block, a's words) keeps the invariant, with a being
      filled in if it is scannable; a is no longer left to promote. */
  lemma {:induction false} ForwardKeeps(y: Range, st: nat, m0: Mem, n0: nat, m: Mem, nf: nat,
                                        todo: Value, s: seq<nat>, exc: set<nat>, a: nat, c: nat)
    requires GcInv(y, st, m0, n0, m, nf, todo, s, exc)
    requires a in Unforwarded(y, m)
    requires c in m && !y.Contains(c) && c >= n0 && Unprotected(y, m, {}, c)
    requires m[c].hd == m0[a].hd && |m[c].fields| == |m0[a].fields|
    requires m0[a].hd.tag >= NoScanTag ==> m[c].fields == m0[a].fields
    ensures a in m0 && m[a] == m0[a] && |m0[a].fields| > 0 && a !in s && a !in exc
    ensures GcInv(y, st, m0, n0, ForwardTo(m, a, c), nf, todo, s,
                  if m0[a].hd.tag < NoScanTag then exc + {a} else exc)
    ensures Evolves(y, m, ForwardTo(m, a, c))
    ensures Unforwarded(y, ForwardTo(m, a, c)) == Unforwarded(y, m) - {a}
    ensures Copy(ForwardTo(m, a, c), a) == c
    ensures forall E: set<nat>, q: nat :: Unprotected(y, m, E, q) ==> Unprotected(y, ForwardTo(m, a, c), E + {a}, q)
  {
    var m' := ForwardTo(m, a, c);
    AgreesAt(y, m0, m, n0, a);
    assert m[a] == m0[a];
    assert BlockWf(y, m0, st, a);
    AgreesAfterForward(y, m0, n0, m, a, c);
    TodoAfterForward(y, m0, n0, m, todo, s, a, c);
    DoneAfterForward(y, m0, n0, m, s, exc, a, c);
    ForwardShrinks(y, m, a, m'[a]);
    CopiesAfterForward(y, m, a, c);
    var exc' := if m0[a].hd.tag < NoScanTag then exc + {a} else exc;
    assert forall b | b in m' :: b < nf by {
      assert forall b :: b in m' <==> b in m;
    }
    assert ExcOK(y, m0, m', s, exc');
    assert AllDone(y, m0, m', s, exc') by {
      if m0[a].hd.tag >= NoScanTag {
        forall b | b in m0 && y.Contains(b) && b in m' && m'[b].hd == Forwarded &&
                   m0[b].hd.Hd? && m0[b].hd.tag < NoScanTag && b !in s && b !in exc'
          ensures Done(y, m0, m', b)
        {
          assert b !in exc + {a};
        }
      }
    }
  }

  /** A block being filled in whose copy is done leaves the exception set. */
  lemma {:induction false} FinishKeeps(y: Range, st: nat, m0: Mem, n0: nat, m: Mem, nf: nat,
                                       todo: Value, s: seq<nat>, exc: set<nat>, e: nat)
    requires GcInv(y, st, m0, n0, m, nf, todo, s, exc)
    requires e in exc && e in m0 && e in m && Done(y, m0, m, e)
    ensures GcInv(y, st, m0, n0, m, nf, todo, s, exc - {e})
  {
  }

  /** Pushing a block being filled in, whose copy holds the original field 0
      and the old head, makes it the new head of the to-do list. */
  lemma {:induction false} PushKeeps(y: Range, st: nat, m0: Mem, n0: nat, m: Mem, nf: nat,
                                     todo: Value, s: seq<nat>, exc: set<nat>, a: nat)
    requires GcInv(y, st, m0, n0, m, nf, todo, s, exc)
    requires a in exc && TodoEntry(y, m0, m, a, todo)
    ensures GcInv(y, st, m0, n0, m, nf, Ptr(a), [a] + s, exc - {a})
  {
    var s' := [a] + s;
    forall k | 0 <= k < |s'| ensures TodoEntry(y, m0, m, s'[k], Link(s', k)) {
      if k > 0 {
        assert s'[k] == s[k - 1] && Link(s', k) == Link(s, k - 1);
      }
    }
    assert TodoWf(y, m0, m, Ptr(a), s');
  }

  /** The heap after writing x into field i of block q. */
  ghost function Poke(m: Mem, q: nat, i: nat, x: Value): Mem
    requires q in m && i < |m[q].fields|
  {
    m[q := m[q].(fields := m[q].fields[i := x])]
  }

  /** Writing into the first two fields of the copy of a block being
      filled in keeps the invariant. */
  lemma {:induction false} FillKeeps(y: Range, st: nat, m0: Mem, n0: nat, m: Mem, nf: nat,
                                     todo: Value, s: seq<nat>, exc: set<nat>, a: nat, x0: Value, x1: Value)
    requires GcInv(y, st, m0, n0, m, nf, todo, s, exc) && a in exc
    requires Copy(m, a) in m && |m[Copy(m, a)].fields| >= 2 && !y.Contains(Copy(m, a))
    ensures var c := Copy(m, a);
      var m' := Poke(Poke(m, c, 0, x0), c, 1, x1);
      GcInv(y, st, m0, n0, m', nf, todo, s, exc) &&
      Evolves(y, m, m') && Unforwarded(y, m') == Unforwarded(y, m)
  {
    var c := Copy(m, a);
    var m1 := Poke(m, c, 0, x0);
    var m2 := Poke(m1, c, 1, x1);
    OwnCopyUnprotected(y, m, exc, a);
    StoreChangesOnlyAt(y, m, c, 0, x0);
    ChangeKeeps(y, st, m0, n0, m, nf, todo, s, exc, m1, c, nf);
    OutsideKeepsUnforwarded(y, m, c, m1[c]);
    StoreChangesOnlyAt(y, m1, c, 1, x1);
    ChangeKeeps(y, st, m0, n0, m1, nf, todo, s, exc, m2, c, nf);
    OutsideKeepsUnforwarded(y, m1, c, m2[c]);
    EvolvesTrans(y, m, m1, m2);
  }

  /** oldify_one's deferral of a promoted block a of at least two fields:
      writing the original field 0 and the old head of the to-do list into
      the first two fields of a's copy makes a the new head of the list. */
  lemma {:induction false} DeferKeeps(y: Range, st: nat, m0: Mem, n0: nat, m: Mem, nf: nat,
                                      todo: Value, s: seq<nat>, exc: set<nat>, a: nat)
    requires GcInv(y, st, m0, n0, m, nf, todo, s, exc + {a}) && a !in exc
    requires a in m0 && a in m && y.Contains(a) && m[a].hd == Forwarded
    requires m0[a].hd.Hd? && m0[a].hd.tag < InfixTag && |m0[a].fields| >= 2
    requires Copy(m, a) in m && |m[Copy(m, a)].fields| == |m0[a].fields| && !y.Contains(Copy(m, a))
    ensures var c := Copy(m, a);
      var m' := Poke(Poke(m, c, 0, m0[a].fields[0]), c, 1, todo);
      GcInv(y, st, m0, n0, m', nf, Ptr(a), [a] + s, exc) &&
      Evolves(y, m, m') && Unforwarded(y, m') == Unforwarded(y, m)
  {
    var c := Copy(m, a);
    var m' := Poke(Poke(m, c, 0, m0[a].fields[0]), c, 1, todo);
    FillKeeps(y, st, m0, n0, m, nf, todo, s, exc + {a}, a, m0[a].fields[0], todo);
    assert Copy(m', a) == c;
    assert TodoEntry(y, m0, m', a, todo);
    PushKeeps(y, st, m0, n0, m', nf, todo, s, exc + {a}, a);
    assert exc + {a} - {a} == exc;
  }

  lemma {:induction false} TodoPop(y: Range, m0: Mem, m: Mem, todo: Value, s: seq<nat>)
    requires TodoWf(y, m0, m, todo, s) && s != [] && 0 < y.lo
    ensures TodoEntry(y, m0, m, s[0], Link(s, 0)) && s[0] !in s[1..]
    ensures TodoWf(y, m0, m, Link(s, 0), s[1..])
  {
    assert TodoEntry(y, m0, m, s[0], Link(s, 0));
    forall k | 0 <= k < |s[1..]| ensures TodoEntry(y, m0, m, s[1..][k], Link(s[1..], k)) {
      assert TodoEntry(y, m0, m, s[k + 1], Link(s, k + 1));
    }
    forall k | 0 <= k < |s[1..]| ensures s[1..][k] != s[0] { assert s[k + 1] != s[0]; }
    forall j, k | 0 <= j < k < |s[1..]| ensures s[1..][j] != s[1..][k] { assert s[j + 1] != s[k + 1]; }
    if |s| > 1 { assert TodoEntry(y, m0, m, s[1], Link(s, 1)); }
  }

  lemma {:induction false} ExcPop(y: Range, m0: Mem, m: Mem, s: seq<nat>, exc: set<nat>)
    requires ExcOK(y, m0, m, s, exc) && s != [] && s[0] !in s[1..]
    requires s[0] in m0 && y.Contains(s[0]) && s[0] in m && m[s[0]].hd == Forwarded
    requires m0[s[0]].hd.Hd? && m0[s[0]].hd.tag < NoScanTag
    ensures s[0] !in exc && ExcOK(y, m0, m, s[1..], exc + {s[0]})
  {
  }

  /** Popping the head of the to-do list (oldify_mopup): its copy's field 1
      is the new head, and the popped block is being filled in. */
  lemma {:induction false} PopKeeps(y: Range, st: nat, m0: Mem, n0: nat, m: Mem, nf: nat,
                                    todo: Value, s: seq<nat>, exc: set<nat>)
    requires GcInv(y, st, m0, n0, m, nf, todo, s, exc) && s != []
    ensures TodoEntry(y, m0, m, s[0], Link(s, 0)) && s[0] !in exc
    ensures GcInv(y, st, m0, n0, m, nf, Link(s, 0), s[1..], exc + {s[0]})
  {
    TodoPop(y, m0, m, todo, s);
    ExcPop(y, m0, m, s, exc);
    assert AllDone(y, m0, m, s[1..], exc + {s[0]});
  }

  /** A pointer into a promoted block of the minor heap is settled. */
  lemma {:induction false} SettledIfForwarded(y: Range, m0: Mem, n0: nat, m: Mem, v: Value)
    requires Agrees(y, m0, m, n0) && y.hi <= n0
    requires IsMinor(y, v) && v.addr in m && Base(m, v.addr) in m && y.Contains(Base(m, v.addr))
    requires m[Base(m, v.addr)].hd == Forwarded
    ensures Settled(y, m, v)
  {
    AgreesAt(y, m0, m, n0, Base(m, v.addr));
  }

  /** Shared-heap addresses below n0 are the copy of no promoted block. */
  lemma {:induction false} BelowN0Unprotected(y: Range, m0: Mem, n0: nat, m: Mem, q: nat, E: set<nat>)
    requires Agrees(y, m0, m, n0) && q < n0
    ensures Unprotected(y, m, E, q)
  {
    forall b | b in m && y.Contains(b) && m[b].hd == Forwarded && b !in E ensures Copy(m, b) != q {
      AgreesAt(y, m0, m, n0, b);
    }
  }

  /** The copy of a block being filled in is the copy of no other block. */
  lemma {:induction false} OwnCopyUnprotected(y: Range, m: Mem, E: set<nat>, e: nat)
    requires CopiesDistinct(y, m) && e in E && e in m && y.Contains(e) && m[e].hd == Forwarded
    ensures Unprotected(y, m, E, Copy(m, e))
  {
  }

  /** Writing one field of a shared-heap block changes the heap only there. */
  lemma StoreChangesOnlyAt(y: Range, m: Mem, q: nat, i: nat, x: Value)
    requires q in m && i < |m[q].fields| && !y.Contains(q)
    ensures ChangedOnlyAt(y, m, m[q := m[q].(fields := m[q].fields[i := x])], q)
  {
  }

  /** Adding a block at a fresh shared-heap address changes the heap only there. */
  lemma AllocChangesOnlyAt(y: Range, m: Mem, c: nat, b: Block)
    requires c !in m && !y.Contains(c)
    ensures ChangedOnlyAt(y, m, m[c := b], c)
  {
  }

  /** What oldify_one finds at an address x of the minor heap under the
      invariant: an infix entry lies inside its enclosing block, whose header
      is either 0 (promoted, so x is settled) or the original header of a
      well-formed block not yet promoted. */
  lemma {:induction false} Resolve(y: Range, st: nat, m0: Mem, n0: nat, m: Mem, nf: nat,
                                   todo: Value, s: seq<nat>, exc: set<nat>, x: nat)
    requires GcInv(y, st, m0, n0, m, nf, todo, s, exc) && x in m && y.Contains(x)
    ensures IsInfix(m[x].hd) ==> 0 < m[x].hd.wosize <= x
    ensures Base(m, x) in m && y.Contains(Base(m, x)) && Base(m, x) in m0 && !IsInfix(m[Base(m, x)].hd)
    ensures m[Base(m, x)].hd == Forwarded ==> Settled(y, m, Ptr(x))
    ensures m[Base(m, x)].hd.Hd? ==>
      var b := Base(m, x);
      b in Unforwarded(y, m) && m[b] == m0[b] && |m[b].fields| == m[b].hd.wosize >= 1 &&
      (Offset(m, x) > 0 ==> m[b].hd.tag < InfixTag) &&
      (m[b].hd.tag == ForwardTag ==> m[b].hd.wosize == 1) &&
      (m[b].hd.tag < NoScanTag ==> forall i | 0 <= i < |m[b].fields| :: RefOK(y, m, m[b].fields[i]))
  {
    AgreesAt(y, m0, m, n0, x);
    if IsInfix(m[x].hd) {
      assert BlockWf(y, m0, st, x);
    }
    var b := Base(m, x);
    AgreesAt(y, m0, m, n0, b);
    if m[b].hd == Forwarded {
      SettledIfForwarded(y, m0, n0, m, Ptr(x));
    } else {
      assert BlockWf(y, m0, st, b);
      if m[b].hd.tag < NoScanTag {
        forall i | 0 <= i < |m[b].fields| ensures RefOK(y, m, m[b].fields[i]) {
          assert RefOK(y, m0, m0[b].fields[i]);
        }
      }
    }
  }
}
