/** Counting the owners of buffers. */
module CacheCount {
  import opened CacheInvariant
  import opened CacheSpec
  import opened Options
  import opened RingList

  ghost function Elems(s: seq<nat>): set<nat> { set i | i in s }

  lemma {:induction false} ElemsSize(s: seq<nat>)
    requires NoDup(s)
    ensures |Elems(s)| == |s|
  {
    if s == [] {
      assert Elems(s) == {};
    } else {
      var front, x := s[..|s| - 1], s[|s| - 1];
      ElemsSize(front);
      assert x !in front;
      assert Elems(s) == Elems(front) + {x};
    }
  }

  lemma SubsetSize(a: set<nat>, b: set<nat>)
    requires a <= b
    ensures |a| <= |b| && (|a| == |b| ==> a == b)
  {
    assert b == a + (b - a);
  }

  /** The unused entries that own a buffer. */
  ghost function SpareOwners(st: State): set<nat> {
    set i | i in st.unused && i < |st.ce| && st.ce[i].data.Some?
  }

  lemma OwnersByList(st: State, i: nat)
    requires Structured(st) && Owned(st)
    ensures i in BufferOwners(st) <==> i in st.prec || i in st.probe || i in st.flight || i in SpareOwners(st)
  {
    Apart(st, i);
    if i < |st.ce| { assert Placed(st, i) && Buffered(st, i) && (st.Live(i) || i in st.unused); }
  }

  lemma SizeOfFour(a: seq<nat>, b: seq<nat>, c: seq<nat>, d: set<nat>)
    requires NoDup(a) && NoDup(b) && NoDup(c)
    requires forall i :: i in a ==> i !in b && i !in c && i !in d
    requires forall i :: i in b ==> i !in c && i !in d
    requires forall i :: i in c ==> i !in d
    ensures |Elems(a) + Elems(b) + Elems(c) + d| == |a| + |b| + |c| + |d|
  {
    ElemsSize(a);
    ElemsSize(b);
    ElemsSize(c);
    assert Elems(a) !! Elems(b);
    assert Elems(a) + Elems(b) !! Elems(c);
    assert Elems(a) + Elems(b) + Elems(c) !! d;
  }

  /** The owners are the cached and the in-flight entries, and some unused ones. */
  lemma OwnerCount(st: State)
    requires Structured(st) && Owned(st)
    ensures |BufferOwners(st)| == st.Total() + |SpareOwners(st)|
  {
    forall i: nat
      ensures i in BufferOwners(st) <==> i in Elems(st.prec) + Elems(st.probe) + Elems(st.flight) + SpareOwners(st)
    {
      OwnersByList(st, i);
    }
    assert BufferOwners(st) == Elems(st.prec) + Elems(st.probe) + Elems(st.flight) + SpareOwners(st);
    forall i: nat
      ensures i in st.prec ==> i !in st.probe && i !in st.flight && i !in SpareOwners(st)
      ensures i in st.probe ==> i !in st.flight && i !in SpareOwners(st)
      ensures i in st.flight ==> i !in SpareOwners(st)
    {
      Apart(st, i);
    }
    SizeOfFour(st.prec, st.probe, st.flight, SpareOwners(st));
  }

  /** In a sound state as many unused entries own a buffer as buffers are spare. */
  lemma SoundSpares(st: State)
    requires Sound(st)
    ensures |SpareOwners(st)| == st.Spare()
    ensures forall i :: i in st.unused && st.Spare() == 0 ==> !OwnsBuffer(st, i)
    ensures forall i :: i in st.unused && !OwnsBuffer(st, i) ==> |st.unused| > st.Spare()
  {
    OwnerCount(st);
    ElemsSize(st.unused);
    SubsetSize(SpareOwners(st), Elems(st.unused));
    forall i | i in st.unused
      ensures st.Spare() == 0 ==> !OwnsBuffer(st, i)
      ensures !OwnsBuffer(st, i) ==> |st.unused| > st.Spare()
    {
      assert i in Elems(st.unused);
      if OwnsBuffer(st, i) { assert i in SpareOwners(st); }
    }
  }

  /** So a valid state is sound. */
  lemma ValidIsSound(st: State)
    requires Valid(st)
    ensures Sound(st)
  {
    var from := |st.unused| - st.Spare();
    var spare := st.unused[from..];
    assert NoDup(spare) by {
      assert forall k :: 0 <= k < |spare| ==> spare[k] == st.unused[k + from];
    }
    forall i | i in SpareOwners(st) ensures i in spare {
      var k :| 0 <= k < |st.unused| && st.unused[k] == i;
      assert OwnsBuffer(st, st.unused[k]) <==> k >= from;
      assert spare[k - from] == i;
    }
    forall i | i in spare ensures i in SpareOwners(st) {
      var k :| 0 <= k < |spare| && spare[k] == i;
      assert OwnsBuffer(st, st.unused[k + from]) <==> k + from >= from;
    }
    ElemsSize(spare);
    assert SpareOwners(st) == Elems(spare);
    OwnerCount(st);
  }
}
