/** The invariant of the entry cache and its preservation by every operation. */
module CacheInvariant {
  import opened CacheSpec
  import opened Options
  import opened RingList

  /** No entry is on two lists, or twice on one; with `Covered`, each is on one. */
  ghost predicate Partition(st: State) {
    && NoDup(st.prec) && NoDup(st.gprec) && NoDup(st.unused)
    && NoDup(st.gprobe) && NoDup(st.probe) && NoDup(st.flight)
    && (forall i, p, q :: i in st.At(p) && i in st.At(q) ==> p == q)
  }

  ghost predicate Covered(st: State) {
    forall i :: 0 <= i < |st.ce| ==> st.Live(i) || i in st.unused
  }

  ghost predicate OwnsBuffer(st: State, i: nat)
    requires i < |st.ce|
  {
    st.ce[i].data.Some?
  }

  /** What an entry looks like depends on where it is. */
  ghost predicate Placed(st: State, i: nat)
    requires i < |st.ce|
  {
    && (st.Cached(i) ==> st.ce[i].state == CsValid)
    && (i in st.flight ==> st.ce[i].state != CsValid)
    && (st.Ghost(i) ==> !OwnsBuffer(st, i) && st.ce[i].refcnt == 0)
    && (i in st.unused ==> st.ce[i].refcnt == 0)
  }

  /** Cached and in-flight entries own a buffer. */
  ghost predicate Buffered(st: State, i: nat)
    requires i < |st.ce|
  {
    st.Cached(i) || i in st.flight ==> OwnsBuffer(st, i)
  }

  /** The buffers that no cached or in-flight entry owns belong to the unused entries
      next to the ghosts. */
  ghost predicate Spares(st: State)
    requires Shape(st)
  {
    forall k :: 0 <= k < |st.unused| ==> (OwnsBuffer(st, st.unused[k]) <==> k >= |st.unused| - st.Spare())
  }

  /** No two entries own the same buffer, and only buffers of the data area are used. */
  ghost predicate Exclusive(ce: seq<Entry>, cap: nat) {
    && (forall i :: 0 <= i < |ce| && ce[i].data.Some? ==> ce[i].data.value < cap)
    && (forall i, j :: 0 <= i < j < |ce| && ce[i].data.Some? && ce[j].data.Some? ==> ce[i].data != ce[j].data)
  }

  /** Cached, ghost and in-flight keys are pairwise distinct. */
  ghost predicate Keys(st: State) {
    forall i, j :: 0 <= i < j < |st.ce| && i !in st.unused && j !in st.unused ==> st.ce[i].key != st.ce[j].key
  }

  ghost predicate Lists(st: State) {
    Sized(st) && Partition(st) && Covered(st)
  }

  ghost function BufferOwners(st: State): set<nat> {
    set i: nat | 0 <= i < |st.ce| && st.ce[i].data.Some?
  }

  /** Everything but the buffers. */
  ghost predicate Structured(st: State) {
    && Lists(st) && Shape(st) && st.dprobe <= st.cap
    && (forall i :: 0 <= i < |st.ce| ==> Placed(st, i)) && Keys(st)
  }

  ghost predicate Owned(st: State) {
    (forall i :: 0 <= i < |st.ce| ==> Buffered(st, i)) && Exclusive(st.ce, st.cap)
  }

  /** The invariant that matters to the callers: no buffer is lost, shared or missing. */
  ghost predicate Sound(st: State) {
    Structured(st) && Owned(st) && |BufferOwners(st)| == st.cap
  }

  /** The invariant that `reclaim_data` counts on.  It implies the other one
      (`CacheCount.ValidIsSound`). */
  ghost predicate Valid(st: State) {
    Structured(st) && Owned(st) && Spares(st)
  }

  // ---------------------------------------------------------------------------
  // Lists

  lemma {:induction false} DelFacts(s: seq<nat>, x: nat)
    requires NoDup(s)
    ensures NoDup(Del(s, x))
    ensures forall i :: i in Del(s, x) <==> i in s && i != x
    ensures |Del(s, x)| == if x in s then |s| - 1 else |s|
    ensures x !in s ==> Del(s, x) == s
  {
    if s != [] && s[0] != x {
      assert forall i, j :: 0 <= i < j < |s[1..]| ==> s[1..][i] == s[i + 1] && s[1..][j] == s[j + 1];
      DelFacts(s[1..], x);
      assert s == [s[0]] + s[1..];
      var d := Del(s[1..], x);
      assert s[0] !in d;
    } else if s != [] {
      assert s == [s[0]] + s[1..];
      assert forall i :: i in s[1..] ==> exists j :: 0 < j < |s| && s[j] == i;
    }
  }

  lemma {:induction false} DelBelow(s: seq<nat>, x: nat, bound: nat)
    requires Below(s, bound)
    ensures Below(Del(s, x), bound)
  {
    if s != [] && s[0] != x {
      DelBelow(s[1..], x, bound);
    }
  }

  /** An entry is on at most one list. */
  lemma Apart(st: State, i: nat)
    requires Partition(st)
    ensures i in st.prec ==> i !in st.gprec && i !in st.unused && i !in st.gprobe && i !in st.probe && i !in st.flight
    ensures i in st.probe ==> i !in st.gprec && i !in st.unused && i !in st.gprobe && i !in st.flight
    ensures i in st.flight ==> i !in st.gprec && i !in st.unused && i !in st.gprobe
    ensures i in st.unused ==> i !in st.gprec && i !in st.gprobe
    ensures i in st.gprec ==> i !in st.gprobe
  {
    assert i in st.prec <==> i in st.At(Prec);
    assert i in st.gprec <==> i in st.At(GhostPrec);
    assert i in st.unused <==> i in st.At(Unused);
    assert i in st.gprobe <==> i in st.At(GhostProbe);
    assert i in st.probe <==> i in st.At(Probe);
    assert i in st.flight <==> i in st.At(Flight);
  }

  lemma {:induction false} DelSplit(a: seq<nat>, x: nat, b: seq<nat>)
    requires x !in a
    ensures Del(a + [x] + b, x) == a + b
  {
    if a == [] {
      assert a + [x] + b == [x] + b;
      assert ([x] + b)[1..] == b == a + b;
    } else {
      DelSplit(a[1..], x, b);
      var s := a + [x] + b;
      assert s[1..] == a[1..] + [x] + b;
      assert a + b == [a[0]] + (a[1..] + b);
    }
  }

  /** Who is where after a move. */
  lemma MoveFacts(st: State, x: nat, p: Place)
    requires Partition(st)
    ensures Partition(Move(st, x, p))
    ensures forall i, q :: i in Move(st, x, p).At(q) <==> if i == x then q == p else i in st.At(q)
  {
    DelFacts(st.prec, x);
    DelFacts(st.gprec, x);
    DelFacts(st.unused, x);
    DelFacts(st.gprobe, x);
    DelFacts(st.probe, x);
    DelFacts(st.flight, x);
    var m := Move(st, x, p);
    forall i, q
      ensures i in m.At(q) <==> if i == x then q == p else i in st.At(q)
    {
      match q case Prec => case GhostPrec => case Unused => case GhostProbe => case Probe => case Flight =>
    }
  }

  function One(b: bool): nat { if b then 1 else 0 }

  lemma MoveSizes(st: State, x: nat, from: Place, to: Place)
    requires Partition(st) && x in st.At(from)
    ensures var m := Move(st, x, to);
            && |m.prec| == |st.prec| - One(from == Prec) + One(to == Prec)
            && |m.gprec| == |st.gprec| - One(from == GhostPrec) + One(to == GhostPrec)
            && |m.unused| == |st.unused| - One(from == Unused) + One(to == Unused)
            && |m.gprobe| == |st.gprobe| - One(from == GhostProbe) + One(to == GhostProbe)
            && |m.probe| == |st.probe| - One(from == Probe) + One(to == Probe)
            && |m.flight| == |st.flight| - One(from == Flight) + One(to == Flight)
  {
    DelFacts(st.prec, x);
    DelFacts(st.gprec, x);
    DelFacts(st.unused, x);
    DelFacts(st.gprobe, x);
    DelFacts(st.probe, x);
    DelFacts(st.flight, x);
    assert x in st.prec <==> from == Prec by { if x in st.prec { assert x in st.At(Prec); } }
    assert x in st.gprec <==> from == GhostPrec by { if x in st.gprec { assert x in st.At(GhostPrec); } }
    assert x in st.unused <==> from == Unused by { if x in st.unused { assert x in st.At(Unused); } }
    assert x in st.gprobe <==> from == GhostProbe by { if x in st.gprobe { assert x in st.At(GhostProbe); } }
    assert x in st.probe <==> from == Probe by { if x in st.probe { assert x in st.At(Probe); } }
    assert x in st.flight <==> from == Flight by { if x in st.flight { assert x in st.At(Flight); } }
  }

  /** Membership after a move, list by list. */
  lemma MoveMembers(st: State, x: nat, p: Place)
    requires Partition(st) && x < |st.ce|
    ensures var m := Move(st, x, p);
            && Partition(m) && (Covered(st) ==> Covered(m))
            && (forall i :: m.Cached(i) <==> if i == x then p == Prec || p == Probe else st.Cached(i))
            && (forall i :: m.Ghost(i) <==> if i == x then p == GhostPrec || p == GhostProbe else st.Ghost(i))
            && (forall i :: i in m.flight <==> if i == x then p == Flight else i in st.flight)
            && (forall i :: i in m.unused <==> if i == x then p == Unused else i in st.unused)
            && (x !in st.unused ==> m.unused == if p == Unused then st.unused + [x] else st.unused)
  {
    MoveFacts(st, x, p);
    DelFacts(st.unused, x);
    var m := Move(st, x, p);
    forall i
      ensures i in m.prec <==> if i == x then p == Prec else i in st.prec
      ensures i in m.gprec <==> if i == x then p == GhostPrec else i in st.gprec
      ensures i in m.unused <==> if i == x then p == Unused else i in st.unused
      ensures i in m.gprobe <==> if i == x then p == GhostProbe else i in st.gprobe
      ensures i in m.probe <==> if i == x then p == Probe else i in st.probe
      ensures i in m.flight <==> if i == x then p == Flight else i in st.flight
    {
      assert i in m.At(Prec) <==> if i == x then Prec == p else i in st.At(Prec);
      assert i in m.At(GhostPrec) <==> if i == x then GhostPrec == p else i in st.At(GhostPrec);
      assert i in m.At(Unused) <==> if i == x then Unused == p else i in st.At(Unused);
      assert i in m.At(GhostProbe) <==> if i == x then GhostProbe == p else i in st.At(GhostProbe);
      assert i in m.At(Probe) <==> if i == x then Probe == p else i in st.At(Probe);
      assert i in m.At(Flight) <==> if i == x then Flight == p else i in st.At(Flight);
    }
  }

  /** `m` is `st` with `x` moved between the lists, as far as the invariant can tell. */
  ghost predicate Moved(st: State, m: State, x: nat, from: Place, to: Place) {
    && m.cap == st.cap && m.dprobe == st.dprobe && m.ce == st.ce
    && Lists(m) && x < |m.ce|
    && (forall i :: m.Cached(i) <==> if i == x then to == Prec || to == Probe else st.Cached(i))
    && (forall i :: m.Ghost(i) <==> if i == x then to == GhostPrec || to == GhostProbe else st.Ghost(i))
    && (forall i :: i in m.flight <==> if i == x then to == Flight else i in st.flight)
    && (forall i :: i in m.unused <==> if i == x then to == Unused else i in st.unused)
    && m.Total() == st.Total() - One(Busy(from)) + One(Busy(to))
    && |m.unused| == |st.unused| - One(from == Unused) + One(to == Unused)
    && (from != Unused ==> m.unused == if to == Unused then st.unused + [x] else st.unused)
  }

  predicate Busy(p: Place) { p == Prec || p == Probe || p == Flight }

  lemma MoveBelow(st: State, x: nat, p: Place)
    requires Sized(st) && x < |st.ce|
    ensures var m := Move(st, x, p);
            && Below(m.prec, |m.ce|) && Below(m.gprec, |m.ce|) && Below(m.unused, |m.ce|)
            && Below(m.gprobe, |m.ce|) && Below(m.probe, |m.ce|) && Below(m.flight, |m.ce|)
  {
    DelBelow(st.prec, x, |st.ce|);
    DelBelow(st.gprec, x, |st.ce|);
    DelBelow(st.unused, x, |st.ce|);
    DelBelow(st.gprobe, x, |st.ce|);
    DelBelow(st.probe, x, |st.ce|);
    DelBelow(st.flight, x, |st.ce|);
  }

  lemma MoveSized(st: State, x: nat, from: Place, to: Place)
    requires Sized(st) && Partition(st) && x < |st.ce| && x in st.At(from)
    ensures var m := Move(st, x, to);
            && Sized(m) && m.Total() == st.Total() - One(Busy(from)) + One(Busy(to))
            && |m.unused| == |st.unused| - One(from == Unused) + One(to == Unused)
  {
    MoveSizes(st, x, from, to);
    MoveBelow(st, x, to);
  }

  lemma Moving(st: State, x: nat, from: Place, to: Place)
    requires Lists(st) && x < |st.ce| && x in st.At(from)
    ensures Moved(st, Move(st, x, to), x, from, to)
  {
    MoveMembers(st, x, to);
    MoveSized(st, x, from, to);
    Apart(st, x);
  }

  /** The lists of `r` are those of `m`; only entry contents and `dprobe` differ. */
  ghost predicate SameLists(m: State, r: State) {
    && r.cap == m.cap && |r.ce| == |m.ce|
    && r.prec == m.prec && r.gprec == m.gprec && r.unused == m.unused
    && r.gprobe == m.gprobe && r.probe == m.probe && r.flight == m.flight
  }

  lemma SameListsKeep(m: State, r: State)
    requires SameLists(m, r) && Lists(m)
    ensures Lists(r)
    ensures forall i :: m.Cached(i) == r.Cached(i) && m.Ghost(i) == r.Ghost(i)
  {
    assert forall p :: r.At(p) == m.At(p);
  }

  // ---------------------------------------------------------------------------
  // Changes of one or two entries

  ghost predicate Alike(st: State, r: State, i: nat)
    requires i < |st.ce| == |r.ce|
  {
    && r.ce[i] == st.ce[i] && r.Cached(i) == st.Cached(i) && r.Ghost(i) == st.Ghost(i)
    && (i in r.flight <==> i in st.flight) && (i in r.unused <==> i in st.unused)
  }

  /** The key of entry `x` is nobody else's. */
  ghost predicate FreshKey(st: State, x: nat, key: Key) {
    forall i :: 0 <= i < |st.ce| && i != x && i !in st.unused ==> st.ce[i].key != key
  }

  /** `r` is as good as `st`. */
  ghost predicate Kept(st: State, r: State) {
    && Structured(r) && r.cap == st.cap
    && (Owned(st) ==> Owned(r)) && |BufferOwners(r)| == |BufferOwners(st)|
  }

  /** Entry `x` alone changed, but for its buffer. */
  ghost predicate OneChanged(st: State, r: State, x: nat) {
    && x < |st.ce| == |r.ce| && Lists(r) && Shape(r) && r.cap == st.cap && r.dprobe <= r.cap
    && r.ce[x].data == st.ce[x].data && Placed(r, x)
    && (x in r.unused || FreshKey(st, x, r.ce[x].key))
    && forall i :: 0 <= i < |st.ce| && i != x ==> Alike(st, r, i)
  }

  lemma OneChangedKeeps(st: State, r: State, x: nat)
    requires Structured(st) && OneChanged(st, r, x)
    ensures Structured(r) && |BufferOwners(r)| == |BufferOwners(st)|
    ensures Owned(st) && Buffered(r, x) ==> Owned(r)
  {
    forall i | 0 <= i < |r.ce| ensures Placed(r, i) {
      if i != x { assert Placed(st, i) && Alike(st, r, i); }
    }
    forall i | 0 <= i < |r.ce| ensures r.ce[i].data == st.ce[i].data {
      if i != x { assert Alike(st, r, i); }
    }
    assert BufferOwners(r) == BufferOwners(st);
    OneChangedKeys(st, r, x);
    if Owned(st) && Buffered(r, x) {
      forall i | 0 <= i < |r.ce| ensures Buffered(r, i) {
        if i != x { assert Buffered(st, i) && Alike(st, r, i); }
      }
    }
  }

  lemma OneChangedKeys(st: State, r: State, x: nat)
    requires Structured(st) && OneChanged(st, r, x)
    ensures Keys(r)
  {
    forall i, j | 0 <= i < j < |r.ce| && i !in r.unused && j !in r.unused ensures r.ce[i].key != r.ce[j].key {
      assert i != x ==> Alike(st, r, i);
      assert j != x ==> Alike(st, r, j);
    }
  }

  /** Entry `x`, which had no buffer, got what entry `d` had for one; nothing else changed. */
  ghost predicate TwoChanged(st: State, r: State, x: nat, d: nat) {
    && x < |st.ce| == |r.ce| && d < |st.ce| && x != d
    && Lists(r) && Shape(r) && r.cap == st.cap && r.dprobe <= r.cap
    && st.ce[x].data.None? && r.ce[x].data == st.ce[d].data && r.ce[d].data.None?
    && Placed(r, x) && Placed(r, d) && FreshKey(st, x, r.ce[x].key)
    && r.ce[d].key == st.ce[d].key && (d in st.unused ==> d in r.unused)
    && forall i :: 0 <= i < |st.ce| && i != x && i != d ==> Alike(st, r, i)
  }

  lemma TwoChangedKeeps(st: State, r: State, x: nat, d: nat)
    requires Structured(st) && TwoChanged(st, r, x, d)
    ensures Structured(r) && |BufferOwners(r)| == |BufferOwners(st)|
    ensures Owned(st) && Buffered(r, x) && Buffered(r, d) ==> Owned(r)
  {
    forall i | 0 <= i < |r.ce| ensures Placed(r, i) {
      if i != x && i != d { assert Placed(st, i) && Alike(st, r, i); }
    }
    TwoChangedKeys(st, r, x, d);
    TwoChangedOwners(st, r, x, d);
    if Owned(st) && Buffered(r, x) && Buffered(r, d) {
      forall i | 0 <= i < |r.ce| ensures Buffered(r, i) {
        if i != x && i != d { assert Buffered(st, i) && Alike(st, r, i); }
      }
      TwoChangedData(st, r, x, d);
      HandOn(st.ce, r.ce, st.cap, x, d);
    }
  }

  lemma TwoChangedKeys(st: State, r: State, x: nat, d: nat)
    requires Structured(st) && TwoChanged(st, r, x, d)
    ensures Keys(r)
  {
    forall i, j | 0 <= i < j < |r.ce| && i !in r.unused && j !in r.unused ensures r.ce[i].key != r.ce[j].key {
      assert i != x && i != d ==> Alike(st, r, i);
      assert j != x && j != d ==> Alike(st, r, j);
    }
  }

  lemma TwoChangedData(st: State, r: State, x: nat, d: nat)
    requires TwoChanged(st, r, x, d)
    ensures forall i :: 0 <= i < |st.ce| ==>
              r.ce[i].data == if i == d then None else if i == x then st.ce[d].data else st.ce[i].data
  {
    forall i | 0 <= i < |st.ce| && i != x && i != d ensures r.ce[i].data == st.ce[i].data {
      assert Alike(st, r, i);
    }
  }

  lemma TwoChangedOwners(st: State, r: State, x: nat, d: nat)
    requires TwoChanged(st, r, x, d)
    ensures |BufferOwners(r)| == |BufferOwners(st)|
  {
    TwoChangedData(st, r, x, d);
    if st.ce[d].data.Some? {
      assert BufferOwners(r) == BufferOwners(st) - {d} + {x};
    } else {
      assert BufferOwners(r) == BufferOwners(st);
    }
  }

  /** Handing on a buffer keeps ownership exclusive. */
  lemma HandOn(ce: seq<Entry>, ce': seq<Entry>, cap: nat, x: nat, d: nat)
    requires Exclusive(ce, cap) && x < |ce| && d < |ce| && |ce'| == |ce|
    requires forall i :: 0 <= i < |ce| ==>
             ce'[i].data == if i == d then None else if i == x then ce[d].data else ce[i].data
    requires ce[x].data == None
    ensures Exclusive(ce', cap)
  {
  }

  lemma OwnKey(st: State, x: nat)
    requires Structured(st) && x < |st.ce| && x !in st.unused
    ensures FreshKey(st, x, st.ce[x].key)
  {
  }

  lemma SameSpares(st: State, r: State)
    requires Shape(st) && Shape(r) && Spares(st) && r.unused == st.unused && r.Spare() == st.Spare()
    requires |r.ce| == |st.ce| && forall i :: i in st.unused ==> r.ce[i].data == st.ce[i].data
    ensures Spares(r)
  {
    forall k | 0 <= k < |r.unused| ensures OwnsBuffer(r, r.unused[k]) <==> k >= |r.unused| - r.Spare() {
      assert st.unused[k] in st.unused;
      assert OwnsBuffer(st, st.unused[k]) <==> k >= |st.unused| - st.Spare();
    }
  }

  // ---------------------------------------------------------------------------
  // Operations on cached and in-flight entries

  /** Entry `x` moved from one partition to another, with its new contents `e`. */
  ghost predicate Relocated(st: State, r: State, x: nat, from: Place, to: Place, e: Entry) {
    && x < |st.ce| && x in st.At(from) && from != Unused
    && e.data == st.ce[x].data && e.key == st.ce[x].key
    && Moved(st, r.(ce := st.ce), x, from, to) && r.ce == st.ce[x := e]
  }

  /** What becomes of cached and in-flight entries that move, and of the invariants. */
  lemma RelocateKeeps(st: State, r: State, x: nat, from: Place, to: Place, e: Entry)
    requires Structured(st) && Relocated(st, r, x, from, to, e)
    requires from == Prec || from == Probe || from == Flight
    requires to == Prec || to == Probe ==> e.state == CsValid
    requires to == Flight ==> from == Flight && e.state != CsValid
    requires to == Unused ==> e.refcnt == 0
    requires to != GhostPrec && to != GhostProbe
    ensures Kept(st, r) && (Valid(st) ==> Valid(r))
  {
    var m := r.(ce := st.ce);
    SameListsKeep(m, r);
    Apart(st, x);
    OwnKey(st, x);
    forall i | 0 <= i < |st.ce| && i != x ensures Alike(st, r, i) { }
    assert OneChanged(st, r, x);
    OneChangedKeeps(st, r, x);
    if Owned(st) { assert Buffered(st, x) && Buffered(r, x); }
    if Valid(st) { RelocateSpares(st, r, x, from, to, e); }
  }

  lemma RelocateSpares(st: State, r: State, x: nat, from: Place, to: Place, e: Entry)
    requires Valid(st) && Structured(r) && Relocated(st, r, x, from, to, e)
    requires from == Prec || from == Probe || from == Flight
    requires to == Prec || to == Probe || to == Flight || to == Unused
    ensures Spares(r)
  {
    Apart(st, x);
    assert Buffered(st, x);
    if to == Unused {
      forall k | 0 <= k < |r.unused| ensures OwnsBuffer(r, r.unused[k]) <==> k >= |r.unused| - r.Spare() {
        if k < |st.unused| {
          assert st.unused[k] in st.unused;
          assert OwnsBuffer(st, st.unused[k]) <==> k >= |st.unused| - st.Spare();
        }
      }
    } else {
      SameSpares(st, r);
    }
  }

  /** A reference more or less, or another state of an in-flight entry. */
  lemma RewriteKeeps(st: State, x: nat, from: Place, e: Entry)
    requires Structured(st) && x < |st.ce| && x in st.At(from)
    requires from == Prec || from == Probe || from == Flight
    requires e.data == st.ce[x].data && e.key == st.ce[x].key
    requires (e.state == CsValid) == (st.ce[x].state == CsValid)
    ensures Kept(st, SetEntry(st, x, e)) && (Valid(st) ==> Valid(SetEntry(st, x, e)))
  {
    var r := SetEntry(st, x, e);
    SameListsKeep(st, r);
    Apart(st, x);
    OwnKey(st, x);
    assert Placed(st, x);
    assert OneChanged(st, r, x);
    OneChangedKeeps(st, r, x);
    if Owned(st) { assert Buffered(st, x) && Buffered(r, x); }
    if Valid(st) { SameSpares(st, r); }
  }

  // ---------------------------------------------------------------------------
  // Operations that put an entry in flight

  /** `r` is `m`, with entry `x`, which owns `data`, in flight under `key`. */
  ghost predicate Launched(m: State, r: State, x: nat, key: Key, state: EntryState)
    requires x < |m.ce|
  {
    && r == SetEntry(m, x, Entry(key, state, m.ce[x].refcnt + 1, m.ce[x].data))
    && state != CsValid
  }

  /** Miss, using the buffer that the recycled unused entry owns already. */
  lemma MissUnusedKeeps(st: State, m: State, r: State, x: nat, key: Key, state: EntryState)
    requires Structured(st) && st.unused != [] && x == st.unused[|st.unused| - 1]
    requires Moved(st, m, x, Unused, Flight) && m.unused == st.unused[..|st.unused| - 1] && Shape(m)
    requires OwnsBuffer(st, x) && FreshKey(st, x, key) && Launched(m, r, x, key, state)
    ensures Kept(st, r) && (Valid(st) ==> Valid(r))
  {
    SameListsKeep(m, r);
    Apart(st, x);
    assert Placed(st, x);
    assert OneChanged(st, r, x);
    OneChangedKeeps(st, r, x);
    if Valid(st) {
      forall k | 0 <= k < |r.unused| ensures OwnsBuffer(r, r.unused[k]) <==> k >= |r.unused| - r.Spare() {
        assert r.unused[k] == st.unused[k] && r.unused[k] in r.unused;
        assert OwnsBuffer(st, st.unused[k]) <==> k >= |st.unused| - st.Spare();
      }
    }
  }

  /** What `filled` looks like after victim `v` gave its buffer to `x`. */
  ghost predicate Evicted(st: State, filled: State, x: nat, v: nat, from: Place)
    requires x < |st.ce| && v < |st.ce|
  {
    && (from == Prec || from == Probe) && v in st.At(from)
    && Moved(st, filled.(ce := st.ce), v, from, if from == Prec then GhostPrec else GhostProbe)
    && filled.ce == st.ce[x := st.ce[x].(data := st.ce[v].data)][v := st.ce[v].(data := None)]
    && st.ce[v].refcnt == 0
  }

  /** `x` went in flight with the buffer of `v`, which became a ghost. */
  ghost predicate Exchanged(st: State, r: State, x: nat, v: nat, key: Key, state: EntryState) {
    && x < |st.ce| && v < |st.ce| && x != v && Lists(r) && r.cap == st.cap && r.dprobe == st.dprobe
    && (forall i :: r.Cached(i) <==> st.Cached(i) && i != v)
    && (forall i :: r.Ghost(i) <==> i == v || (st.Ghost(i) && i != x))
    && (forall i :: i in r.flight <==> i == x || i in st.flight)
    && (forall i :: i in r.unused <==> i in st.unused && i != x)
    && r.ce == st.ce[x := Entry(key, state, st.ce[x].refcnt + 1, st.ce[v].data)][v := st.ce[v].(data := None)]
    && r.Total() == st.Total()
    && r.unused == if x in st.unused then st.unused[..|st.unused| - 1] else st.unused
  }

  lemma EvictExchanges(st: State, filled: State, m: State, r: State, x: nat, v: nat, vfrom: Place, from: Place,
                       key: Key, state: EntryState)
    requires Lists(st) && x < |st.ce| && v < |st.ce|
    requires x in st.At(from) && (from == Unused || from == GhostPrec || from == GhostProbe)
    requires Evicted(st, filled, x, v, vfrom)
    requires Moved(filled, m, x, from, Flight)
    requires from == Unused ==> m.unused == st.unused[..|st.unused| - 1]
    requires Launched(m, r, x, key, state)
    ensures Exchanged(st, r, x, v, key, state)
  {
    Apart(st, x);
    Apart(st, v);
    SameListsKeep(m, r);
    hide Lists;
  }

  /** Any entry without a buffer, put in flight with the buffer of a victim. */
  lemma ExchangeKeeps(st: State, r: State, x: nat, v: nat, key: Key, state: EntryState)
    requires Structured(st) && Exchanged(st, r, x, v, key, state) && Shape(r)
    requires st.ce[x].data.None? && !st.Cached(x) && x !in st.flight
    requires st.Cached(v) && st.ce[v].refcnt == 0 && state != CsValid && FreshKey(st, x, key)
    ensures Kept(st, r)
    ensures Valid(st) && st.Spare() == 0 ==> Valid(r)
  {
    Apart(st, v);
    assert Placed(st, x);
    forall i | 0 <= i < |st.ce| && i != x && i != v ensures Alike(st, r, i) { }
    assert TwoChanged(st, r, x, v);
    TwoChangedKeeps(st, r, x, v);
    if Owned(st) { assert Buffered(st, v) && Buffered(r, x) && Buffered(r, v); }
    if Valid(st) && st.Spare() == 0 { ExchangeSpares(st, r, x, v, key, state); }
  }

  lemma ExchangeSpares(st: State, r: State, x: nat, v: nat, key: Key, state: EntryState)
    requires Valid(st) && Exchanged(st, r, x, v, key, state) && Shape(r) && st.Spare() == 0
    requires st.Cached(v)
    ensures Spares(r)
  {
    Apart(st, v);
    forall k | 0 <= k < |r.unused| ensures !OwnsBuffer(r, r.unused[k]) {
      assert r.unused[k] == st.unused[k] && r.unused[k] in r.unused;
      assert OwnsBuffer(st, st.unused[k]) <==> k >= |st.unused| - st.Spare();
    }
  }

  /** A ghost hit that takes what the last unused entry has for a buffer. */
  lemma ReclaimKeeps(st: State, m: State, r: State, x: nat, e: nat, from: Place, key: Key, state: EntryState)
    requires Structured(st) && x < |st.ce| && x in st.At(from) && (from == GhostPrec || from == GhostProbe)
    requires st.Spare() > 0 && e == st.unused[|st.unused| - 1]
    requires Moved(st.(ce := st.ce[x := st.ce[x].(data := st.ce[e].data)][e := st.ce[e].(data := None)]), m,
                   x, from, Flight)
    requires FreshKey(st, x, key) && Launched(m, r, x, key, state)
    ensures Structured(r) && r.cap == st.cap && |BufferOwners(r)| == |BufferOwners(st)|
    ensures OwnsBuffer(st, e) ==> Kept(st, r)
    ensures !OwnsBuffer(st, e) ==> !Owned(r)
    ensures Valid(st) && st.Spare() == 1 ==> Valid(r)
  {
    SameListsKeep(m, r);
    Apart(st, x);
    assert e in st.unused;
    Apart(st, e);
    assert Placed(st, x) && Placed(st, e);
    assert x in r.flight && e in r.unused;
    forall i | 0 <= i < |st.ce| && i != x && i != e ensures Alike(st, r, i) { }
    assert TwoChanged(st, r, x, e) by { Apart(r, e); Apart(r, x); }
    TwoChangedKeeps(st, r, x, e);
    assert Buffered(r, e) by { Apart(r, e); }
    assert Buffered(r, x) <==> OwnsBuffer(st, e);
    if Valid(st) && st.Spare() == 1 { ReclaimSpares(st, r, x, e); }
  }

  lemma ReclaimSpares(st: State, r: State, x: nat, e: nat)
    requires Valid(st) && Shape(r) && st.Spare() == 1 && r.Spare() == 0 && e == st.unused[|st.unused| - 1]
    requires r.unused == st.unused && x !in st.unused && TwoChanged(st, r, x, e)
    ensures OwnsBuffer(st, e) && Spares(r)
  {
    TwoChangedData(st, r, x, e);
    assert OwnsBuffer(st, st.unused[|st.unused| - 1]);
    forall k | 0 <= k < |r.unused| ensures !OwnsBuffer(r, r.unused[k]) {
      assert st.unused[k] in st.unused;
      assert OwnsBuffer(st, st.unused[k]) <==> k >= |st.unused| - st.Spare();
    }
  }
}
