/** Which operations keep the invariants, and what that means over whole runs. */
module CacheRuns {
  import opened CacheCount
  import opened CacheInvariant
  import opened CacheSpec
  import opened Options
  import opened RingList

  // ---------------------------------------------------------------------------
  // Victims

  /** When all buffers are with cached and in-flight entries and some are not in use, there
      is an entry to evict. */
  lemma VictimExists(st: State, bias: nat)
    requires Shape(st) && !Full(st) && st.Spare() == 0
    ensures Victim(st, bias).Some?
  {
  }

  lemma VictimFacts(st: State, bias: nat)
    requires Shape(st)
    ensures Victim(st, bias).None? <==> forall i: nat :: st.Cached(i) ==> st.ce[i].refcnt > 0
    ensures Victim(st, bias).Some? ==>
      var v := Victim(st, bias).value; v < |st.ce| && st.Cached(v) && st.ce[v].refcnt == 0
  {
    if Victim(st, bias).Some? { assert st.Cached(Victim(st, bias).value); }
  }

  /** A ghost hit finds a buffer to take, if there is one. */
  lemma CanReclaim(st: State, x: nat)
    requires Shape(st) && !Full(st) && x < |st.ce| && st.Ghost(x)
    ensures Shape(Adapt(st, x)) && (st.Total() < st.cap || Victim(Adapt(st, x), 0).Some?)
  {
    if st.Total() == st.cap { VictimExists(Adapt(st, x), 0); }
  }

  /** The two effects of `EvictFor`: a move of the victim and a transfer of its buffer. */
  lemma EvictForShape(st: State, x: nat, bias: nat, v: nat, to: Place)
    requires Shape(st) && x < |st.ce| && v < |st.ce| && Victim(st, bias) == Some(v)
    requires to == if v in st.probe then GhostProbe else GhostPrec
    ensures EvictFor(st, x, bias).ce == st.ce[x := st.ce[x].(data := st.ce[v].data)][v := st.ce[v].(data := None)]
    ensures EvictFor(st, x, bias).(ce := st.ce) == Move(st, v, to)
  {
  }

  lemma EvictForFacts(st: State, x: nat, bias: nat) returns (v: nat, vfrom: Place)
    requires Lists(st) && Shape(st) && Victim(st, bias).Some? && x < |st.ce| && !st.Cached(x)
    ensures v < |st.ce| && v != x && st.Cached(v) && Evicted(st, EvictFor(st, x, bias), x, v, vfrom)
    ensures forall q :: x in st.At(q) ==> x in EvictFor(st, x, bias).At(q)
  {
    VictimFacts(st, bias);
    v := Victim(st, bias).value;
    vfrom := if v in st.probe then Probe else Prec;
    var to := if v in st.probe then GhostProbe else GhostPrec;
    Moving(st, v, vfrom, to);
    EvictForShape(st, x, bias, v, to);
    EvictKeepsPlace(st, x, bias, v, to);
  }

  lemma EvictKeepsPlace(st: State, x: nat, bias: nat, v: nat, to: Place)
    requires Shape(st) && Partition(st) && x < |st.ce| && v < |st.ce| && Victim(st, bias) == Some(v)
    requires to == if v in st.probe then GhostProbe else GhostPrec
    requires x != v
    ensures forall q :: x in st.At(q) ==> x in EvictFor(st, x, bias).At(q)
  {
    EvictForShape(st, x, bias, v, to);
    MoveFacts(st, v, to);
    forall q | x in st.At(q) ensures x in EvictFor(st, x, bias).At(q) {
      assert x in Move(st, v, to).At(q);
    }
  }

  /** An entry that is not cached stays where it is while it gets a buffer. */
  lemma EvictForStays(st: State, x: nat, bias: nat, from: Place)
    requires Shape(st) && Partition(st) && x < |st.ce| && !st.Cached(x) && x in st.At(from)
    requires Victim(st, bias).Some?
    ensures x in EvictFor(st, x, bias).At(from)
    ensures EvictFor(st, x, bias).flight == st.flight && EvictFor(st, x, bias).cap == st.cap
  {
    var v := Victim(st, bias).value;
    EvictKeepsPlace(st, x, bias, v, if v in st.probe then GhostProbe else GhostPrec);
    Apart(st, v);
    DelFacts(st.flight, v);
  }

  lemma ReclaimStays(st: State, x: nat, from: Place)
    requires Shape(st) && Partition(st) && x < |st.ce| && x in st.At(from) && (from == GhostPrec || from == GhostProbe)
    requires st.Total() < st.cap || Victim(st, 0).Some?
    ensures x in ReclaimFor(st, x).At(from)
    ensures ReclaimFor(st, x).flight == st.flight && ReclaimFor(st, x).cap == st.cap
  {
    if st.Total() == st.cap {
      Apart(st, x);
      EvictForStays(st, x, 0, from);
    }
  }

  lemma LastUnused(st: State, x: nat)
    requires Partition(st) && st.unused != [] && x == st.unused[|st.unused| - 1]
    ensures Del(st.unused, x) == st.unused[..|st.unused| - 1]
  {
    var front := st.unused[..|st.unused| - 1];
    assert st.unused == front + [x] + [];
    DelSplit(front, x, []);
    assert front + [] == front;
  }

  // ---------------------------------------------------------------------------
  // Misses

  lemma RefSetEntry(m: State, x: nat, e: Entry)
    requires x < |m.ce|
    ensures Ref(SetEntry(m, x, e), x) == SetEntry(m, x, e.(refcnt := e.refcnt + 1))
  {
  }

  /** One more entry is in flight, with a spare buffer or with that of a victim. */
  ghost predicate Grown(st: State, r: State) {
    && r.cap == st.cap && r.Total() == st.Total() + One(st.Spare() > 0)
    && (st.Spare() > 0 && NoGhosts(st) ==> NoGhosts(r))
  }

  ghost predicate NoGhosts(st: State) { st.gprec == [] && st.gprobe == [] }

  ghost predicate Missed(st: State, key: Key) {
    forall i :: 0 <= i < |st.ce| && i !in st.unused ==> st.ce[i].key != key
  }

  lemma RecycledPlace(st: State) returns (from: Place)
    requires Structured(st) && !Full(st)
    ensures from == if st.unused != [] then Unused else if st.gprobe != [] then GhostProbe else GhostPrec
    ensures Recycled(st) in st.At(from) && !st.Cached(Recycled(st)) && Recycled(st) !in st.flight
    ensures st.ce[Recycled(st)].data.Some? ==> from == Unused
  {
    from := if st.unused != [] then Unused else if st.gprobe != [] then GhostProbe else GhostPrec;
    var x := Recycled(st);
    assert x in st.At(from);
    Apart(st, x);
    assert Placed(st, x);
  }

  lemma SpareAtEnd(st: State)
    requires Shape(st)
    ensures Valid(st) && st.Spare() > 0 ==> OwnsBuffer(st, st.unused[|st.unused| - 1])
  {
  }

  /** A miss keeps a sound state as good as it is, unless it has to evict and cannot. */
  lemma MissKeeps(st: State, key: Key)
    requires Sound(st) && !Full(st) && Missed(st, key)
    requires st.ce[Recycled(st)].data.Some? || Victim(st, 1).Some?
    ensures var r := Ref(Miss(st, key), Recycled(st));
      Kept(st, r) && (Valid(st) ==> Valid(r) && Grown(st, r))
  {
    var x := Recycled(st);
    var from := RecycledPlace(st);
    SoundSpares(st);
    if st.ce[x].data.Some? {
      MissWithBuffer(st, x, key);
    } else {
      SpareAtEnd(st);
      EvictAndLaunch(st, x, 1, from, key, CsProbe);
    }
  }

  lemma LaunchesLast(st: State, x: nat, key: Key)
    requires Structured(st) && st.unused != [] && x == st.unused[|st.unused| - 1] && OwnsBuffer(st, x)
    ensures Miss(st, key) == SetEntry(Move(st, x, Flight), x, st.ce[x].(key := key, state := CsProbe))
    ensures Move(st, x, Flight).unused == st.unused[..|st.unused| - 1]
  {
    LastUnused(st, x);
    hide Del;
  }

  lemma MissWithBuffer(st: State, x: nat, key: Key)
    requires Structured(st) && st.unused != [] && x == st.unused[|st.unused| - 1] && OwnsBuffer(st, x)
    requires FreshKey(st, x, key) && st.Spare() > 0
    ensures var r := Ref(Miss(st, key), x); Kept(st, r) && (Valid(st) ==> Valid(r)) && Grown(st, r)
  {
    var m := Move(st, x, Flight);
    var e := st.ce[x].(key := key, state := CsProbe);
    assert x in st.At(Unused);
    LaunchesLast(st, x, key);
    hide Move, Miss, Del;
    Moving(st, x, Unused, Flight);
    RefSetEntry(m, x, e);
    MissUnusedKeeps(st, m, Ref(Miss(st, key), x), x, key, CsProbe);
  }

  /** `x` takes over the buffer of a victim and goes in flight. */
  lemma EvictAndLaunch(st: State, x: nat, bias: nat, from: Place, key: Key, state: EntryState)
    requires Structured(st) && x < |st.ce| && x in st.At(from) && !st.Cached(x) && st.ce[x].data.None?
    requires from == Unused || from == GhostPrec || from == GhostProbe
    requires from == Unused ==> x == st.unused[|st.unused| - 1] && |st.unused| > st.Spare()
    requires Victim(st, bias).Some? && FreshKey(st, x, key) && state != CsValid
    ensures var filled := EvictFor(st, x, bias);
            var r := Ref(SetEntry(Move(filled, x, Flight), x, filled.ce[x].(key := key, state := state)), x);
            Kept(st, r) && (st.Spare() == 0 ==> Grown(st, r)) && (st.Spare() == 0 && Valid(st) ==> Valid(r))
  {
    hide Victim, EvictFor, Kept, Grown, Valid, Move;
    var v, vfrom := EvictForFacts(st, x, bias);
    var filled := EvictFor(st, x, bias);
    var e := Entry(key, state, st.ce[x].refcnt, st.ce[v].data);
    assert filled.ce[x] == st.ce[x].(data := st.ce[v].data);
    FinishExchange(st, filled, x, v, vfrom, from, e);
  }

  /** Moving `x` to the in-flight list completes an eviction. */
  lemma FinishExchange(st: State, filled: State, x: nat, v: nat, vfrom: Place, from: Place, e: Entry)
    requires Structured(st) && x < |st.ce| && v < |st.ce| && x in st.At(from)
    requires from == Unused || from == GhostPrec || from == GhostProbe
    requires from == Unused ==> x == st.unused[|st.unused| - 1] && |st.unused| > st.Spare()
    requires st.ce[x].data.None? && st.Cached(v) && v != x
    requires x in filled.At(from)
    requires Evicted(st, filled, x, v, vfrom)
    requires e.state != CsValid && FreshKey(st, x, e.key)
    requires e.refcnt == st.ce[x].refcnt && e.data == st.ce[v].data
    ensures var r := Ref(SetEntry(Move(filled, x, Flight), x, e), x);
      Kept(st, r) && (st.Spare() == 0 ==> Grown(st, r)) && (st.Spare() == 0 && Valid(st) ==> Valid(r))
  {
    assert |Move(filled, x, Flight).ce| == |st.ce|;
    hide Move;
    FinishExchanged(st, filled, x, v, vfrom, from, e);
    Apart(st, x);
    hide Evicted, Partition, SetEntry, Ref;
    ExchangeKeeps(st, Ref(SetEntry(Move(filled, x, Flight), x, e), x), x, v, e.key, e.state);
  }

  lemma FinishExchanged(st: State, filled: State, x: nat, v: nat, vfrom: Place, from: Place, e: Entry)
    requires Lists(st) && x < |st.ce| && v < |st.ce| && x in st.At(from)
    requires from == Unused || from == GhostPrec || from == GhostProbe
    requires from == Unused ==> st.unused != [] && x == st.unused[|st.unused| - 1]
    requires v != x && x in filled.At(from) && Evicted(st, filled, x, v, vfrom)
    requires e.state != CsValid && e.refcnt == st.ce[x].refcnt && e.data == st.ce[v].data
    ensures Exchanged(st, Ref(SetEntry(Move(filled, x, Flight), x, e), x), x, v, e.key, e.state)
  {
    hide Move, Moved, Exchanged, Lists;
    var m := Move(filled, x, Flight);
    FinishMove(st, filled, x, v, vfrom, from);
    MoveKeepsEntries(filled, x, Flight);
    var r := Ref(SetEntry(m, x, e), x);
    RefSetEntry(m, x, e);
    assert Launched(m, r, x, e.key, e.state) by { assert m.ce[x].data == e.data; }
    hide Evicted, Launched;
    EvictExchanges(st, filled, m, r, x, v, vfrom, from, e.key, e.state);
  }

  lemma MoveKeepsEntries(st: State, x: nat, p: Place)
    ensures Move(st, x, p).ce == st.ce
  {
  }

  lemma FinishMove(st: State, filled: State, x: nat, v: nat, vfrom: Place, from: Place)
    requires Lists(st) && x < |st.ce| && v < |st.ce|
    requires from == Unused || from == GhostPrec || from == GhostProbe
    requires from == Unused ==> st.unused != [] && x == st.unused[|st.unused| - 1]
    requires x in filled.At(from) && Evicted(st, filled, x, v, vfrom)
    ensures Moved(filled, Move(filled, x, Flight), x, from, Flight)
    ensures from == Unused ==> Move(filled, x, Flight).unused == st.unused[..|st.unused| - 1]
  {
    hide Evicted, Moved, Move, Lists;
    EvictedLists(st, filled, x, v, vfrom);
    Moving(filled, x, from, Flight);
    if from == Unused { LastMoved(filled, x); }
  }

  lemma EvictedLists(st: State, filled: State, x: nat, v: nat, vfrom: Place)
    requires x < |st.ce| && v < |st.ce| && Evicted(st, filled, x, v, vfrom)
    ensures Lists(filled) && |filled.ce| == |st.ce| && filled.unused == st.unused
  {
    SameListsKeep(filled.(ce := st.ce), filled);
    hide Lists;
  }

  lemma LastMoved(st: State, x: nat)
    requires Lists(st) && st.unused != [] && x == st.unused[|st.unused| - 1]
    ensures Move(st, x, Flight).unused == st.unused[..|st.unused| - 1]
  {
    LastUnused(st, x);
  }

  // ---------------------------------------------------------------------------
  // Ghost hits

  lemma AdaptKeeps(st: State, x: nat)
    requires Structured(st) && st.Ghost(x)
    ensures SameLists(st, Adapt(st, x)) && Adapt(st, x).ce == st.ce
    ensures Kept(st, Adapt(st, x)) && (Valid(st) ==> Valid(Adapt(st, x)))
  {
    var a := Adapt(st, x);
    SameListsKeep(st, a);
    forall i | 0 <= i < |a.ce| ensures Placed(a, i) { assert Placed(st, i); }
    assert BufferOwners(a) == BufferOwners(st);
    if Owned(st) {
      forall i | 0 <= i < |a.ce| ensures Buffered(a, i) { assert Buffered(st, i); }
    }
    if Valid(st) { SameSpares(st, a); }
  }

  lemma GhostFresh(st: State, x: nat)
    requires Structured(st) && x < |st.ce| && st.Ghost(x)
    ensures FreshKey(st, x, st.ce[x].key)
  {
    Apart(st, x);
    OwnKey(st, x);
  }

  /** The state in which a ghost hit is about to take a buffer from an unused entry. */
  ghost function Reclaimed(st: State, x: nat): State
    requires Shape(st) && x < |st.ce| && st.Spare() > 0
  {
    var e := st.unused[|st.unused| - 1];
    st.(ce := st.ce[x := st.ce[x].(data := st.ce[e].data)][e := st.ce[e].(data := None)])
  }

  lemma GhostMove(st: State, x: nat)
    requires Structured(st) && x < |st.ce| && st.Ghost(x) && st.Spare() > 0
    ensures var from := if x in st.gprec then GhostPrec else GhostProbe;
            Moved(Reclaimed(st, x), Move(Reclaimed(st, x), x, Flight), x, from, Flight)
  {
    var f := Reclaimed(st, x);
    SameListsKeep(st, f);
    Moving(f, x, if x in st.gprec then GhostPrec else GhostProbe, Flight);
  }

  /** A ghost hit keeps the state sound if there is no buffer to reclaim, or if the unused
      entry next to the ghosts owns the one to reclaim; otherwise the requested entry goes in
      flight without a buffer. */
  lemma GhostHitKeeps(st: State, x: nat)
    requires Sound(st) && x < |st.ce| && st.Ghost(x) && !Full(st)
    ensures var r := Ref(GhostHit(st, x), x);
      && Structured(r) && r.cap == st.cap
      && if st.Spare() > 0 && !OwnsBuffer(st, st.unused[|st.unused| - 1]) then !Owned(r) else Kept(st, r)
    ensures Valid(st) && st.Spare() <= 1 ==>
      Valid(Ref(GhostHit(st, x), x)) && Grown(Adapt(st, x), Ref(GhostHit(st, x), x))
  {
    var a := Adapt(st, x);
    AdaptKeeps(st, x);
    hide Adapt, GhostHit, Kept, Owned, Grown, Reclaimed, Move, Lists;
    if a.Spare() == 0 {
      GhostHitEvicts(st, a, x);
    } else {
      GhostReclaims(st, a, x);
    }
  }

  /** Without spare buffers, the ghost takes over that of a victim. */
  lemma GhostHitEvicts(st: State, a: State, x: nat)
    requires Structured(st) && Structured(a) && x < |st.ce| && st.Ghost(x) && a.Ghost(x) && a == Adapt(st, x)
    requires a.Spare() == 0 && !Full(a)
    ensures var r := Ref(GhostHit(st, x), x); Kept(a, r) && Grown(a, r) && (Valid(a) ==> Valid(r))
  {
    var from := if x in a.gprec then GhostPrec else GhostProbe;
    assert Placed(a, x);
    Apart(a, x);
    GhostFresh(a, x);
    VictimExists(a, 0);
    GhostHitIs(st, a, x);
    hide Adapt, GhostHit, EvictFor, Kept, Grown, Valid, Move;
    EvictAndLaunch(a, x, 0, from, a.ce[x].key, CsPrecious);
  }

  lemma GhostHitIs(st: State, a: State, x: nat)
    requires Shape(st) && x < |st.ce| && st.Ghost(x) && a == Adapt(st, x) && a.Spare() == 0
    requires x < |a.ce| && Shape(a)
    ensures var filled := EvictFor(a, x, 0);
            GhostHit(st, x)
            == SetEntry(Move(filled, x, Flight), x, filled.ce[x].(key := a.ce[x].key, state := CsPrecious))
  {
    assert EvictFor(a, x, 0).ce[x].key == a.ce[x].key by { hide Move, Victim; }
    hide EvictFor, Move, Adapt;
  }

  lemma GhostHitReclaims(st: State, x: nat)
    requires Shape(st) && x < |st.ce| && st.Ghost(x) && st.Spare() > 0
    ensures var f := Reclaimed(Adapt(st, x), x);
            GhostHit(st, x) == SetEntry(Move(f, x, Flight), x, f.ce[x].(state := CsPrecious))
  {
    assert ReclaimFor(Adapt(st, x), x) == Reclaimed(Adapt(st, x), x);
  }

  lemma GhostReclaims(st: State, a: State, x: nat)
    requires Structured(st) && Structured(a) && x < |st.ce| && st.Ghost(x) && a.Ghost(x) && a == Adapt(st, x)
    requires a.Spare() > 0
    ensures Reclaims(a, Ref(GhostHit(st, x), x), a.unused[|a.unused| - 1])
  {
    var from := if x in a.gprec then GhostPrec else GhostProbe;
    var f := Reclaimed(a, x);
    var m := Move(f, x, Flight);
    GhostHitReclaims(st, x);
    GhostMove(a, x);
    GhostFresh(a, x);
    Apart(a, x);
    var last := a.unused[|a.unused| - 1];
    assert last in a.unused;
    FinishReclaim(a, m, x, last, from);
  }

  /** What comes of taking what unused entry `last` has for a buffer. */
  ghost predicate Reclaims(a: State, r: State, last: nat)
    requires Shape(a)
  {
    && last < |a.ce| && Structured(r) && r.cap == a.cap
    && (if OwnsBuffer(a, last) then Kept(a, r) else !Owned(r))
    && (Valid(a) && a.Spare() == 1 ==> Valid(r) && Grown(a, r))
  }

  lemma FinishReclaim(a: State, m: State, x: nat, last: nat, from: Place)
    requires Structured(a) && x < |a.ce| && a.Spare() > 0 && last == a.unused[|a.unused| - 1]
    requires (from == GhostPrec || from == GhostProbe) && x in a.At(from) && last != x
    requires FreshKey(a, x, a.ce[x].key)
    requires Moved(Reclaimed(a, x), m, x, from, Flight)
    ensures Reclaims(a, Ref(SetEntry(m, x, m.ce[x].(state := CsPrecious)), x), last)
  {
    assert !NoGhosts(a);
    var e := m.ce[x].(state := CsPrecious);
    RefSetEntry(m, x, e);
    ReclaimKeeps(a, m, Ref(SetEntry(m, x, e), x), x, last, from, a.ce[x].key, CsPrecious);
  }

  /** With two spare buffers it does not: the unused entry next to the ghosts stays
      there without a buffer, while one further away still owns one. */
  lemma GhostHitBreaks(st: State, x: nat)
    requires Valid(st) && x < |st.ce| && st.Ghost(x) && st.Spare() >= 2
    ensures !Valid(Ref(GhostHit(st, x), x))
  {
    AdaptKeeps(st, x);
    var a := Adapt(st, x);
    GhostHitReclaims(st, x);
    Apart(a, x);
    GhostMove(a, x);
    var last := a.unused[|a.unused| - 1];
    assert last in a.unused;
    BrokenSpares(a, Move(Reclaimed(a, x), x, Flight), x, last, if x in a.gprec then GhostPrec else GhostProbe);
  }

  lemma BrokenSpares(a: State, m: State, x: nat, last: nat, from: Place)
    requires Valid(a) && x < |a.ce| && a.Spare() >= 2 && last == a.unused[|a.unused| - 1]
    requires (from == GhostPrec || from == GhostProbe) && last != x
    requires Moved(Reclaimed(a, x), m, x, from, Flight)
    ensures !Valid(Ref(SetEntry(m, x, m.ce[x].(state := CsPrecious)), x))
  {
    hide Partition, Covered, NoDup, Keys, Exclusive, BufferOwners;
    var r := Ref(SetEntry(m, x, m.ce[x].(state := CsPrecious)), x);
    var k := |a.unused| - 1;
    assert r.unused == a.unused && r.Spare() == a.Spare() - 1;
    assert r.ce[last] == a.ce[last].(data := None);
    assert r.unused[k] == last;
    if Shape(r) {
      assert !OwnsBuffer(r, r.unused[k]) && k >= |r.unused| - r.Spare();
    }
  }

  // ---------------------------------------------------------------------------
  // The operations keep the invariant

  /** The request that makes `reclaim_data` go wrong: a ghost is asked for while two or
      more buffers are unused. */
  ghost predicate Overtakes(st: State, key: Key)
    requires Shape(st)
  {
    && st.Spare() >= 2
    && Absent(st, key) && GhostOf(st, key).Some?
  }

  lemma NotFull(st: State)
    requires Shape(st) && st.Spare() > 0
    ensures !Full(st)
  {
  }

  /** The request that loses track of the buffers: some are spare, but the unused entry next to
      the ghosts has none of them, and the request wants that one's, for a ghost, or would have
      to evict an entry where every cached one is in use. */
  ghost predicate Starves(st: State, key: Key)
    requires Shape(st)
  {
    && Absent(st, key) && !Full(st) && st.Spare() > 0
    && !OwnsBuffer(st, st.unused[|st.unused| - 1])
    && (GhostOf(st, key).Some? || forall i: nat :: st.Cached(i) ==> st.ce[i].refcnt > 0)
  }

  /** In a sound state the only requests that would evict where there is nothing to evict are
      those that starve a new key. */
  lemma DefinedIff(st: State, key: Key)
    requires Sound(st)
    ensures Defined(st, key) <==> !(Starves(st, key) && GhostOf(st, key).None?)
  {
    hide Lookup, Absent, Full, Victim, Sound, BufferOwners, GhostOf, Adapt;
    SoundShape(st);
    SoundSpares(st);
    VictimFacts(st, 1);
    if Absent(st, key) && !Full(st) {
      if GhostOf(st, key).Some? {
        CanReclaim(st, GhostOf(st, key).value);
      } else if st.Spare() == 0 {
        VictimExists(st, 1);
      } else {
        assert st.unused[|st.unused| - 1] in st.unused;
      }
    }
  }

  lemma SoundShape(st: State)
    requires Sound(st)
    ensures Shape(st)
  {
  }

  /** What a request makes of a sound state. */
  ghost predicate Outcome(st: State, key: Key, r: State)
    requires Shape(st)
  {
    && Structured(r) && (if Starves(st, key) then !Owned(r) else Kept(st, r))
    && (Valid(st) && !Overtakes(st, key) ==> Valid(r) && Bounded(st, r))
  }

  lemma KeptSound(st: State, r: State)
    requires Sound(st) && Kept(st, r)
    ensures Sound(r)
  {
  }

  /** `cache_get_entry` keeps a sound state sound, with a victim wherever it evicts, if and only
      if the request does not starve. */
  lemma GetSound(st: State, key: Key)
    requires Sound(st)
    ensures Sound(Get(st, key).0) && Defined(st, key) <==> !Starves(st, key)
    ensures Defined(st, key) ==> Structured(Get(st, key).0)
  {
    DefinedIff(st, key);
    var r := Get(st, key).0;
    hide Get, Defined, Starves;
    if Defined(st, key) {
      GetKeeps(st, key);
      if !Starves(st, key) { KeptSound(st, r); }
    }
  }

  lemma GetKeeps(st: State, key: Key)
    requires Sound(st) && Defined(st, key)
    ensures Outcome(st, key, Get(st, key).0)
  {
    if Lookup(st, key, Prec).Some? {
      CachedHitKeeps(st, Lookup(st, key, Prec).value, Prec);
    } else if Lookup(st, key, Probe).Some? {
      CachedHitKeeps(st, Lookup(st, key, Probe).value, Probe);
    } else if Lookup(st, key, Flight).Some? {
      FlightHitKeeps(st, Lookup(st, key, Flight).value);
    } else if !Full(st) {
      GetAbsentKeeps(st, key);
    }
  }

  lemma CachedHitKeeps(st: State, x: nat, from: Place)
    requires Structured(st) && x < |st.ce| && x in st.At(from) && (from == Prec || from == Probe)
    ensures var r := Ref(Move(st, x, Prec), x);
      Kept(st, r) && (Valid(st) ==> Valid(r)) && Bounded(st, r)
  {
    var r := Ref(Move(st, x, Prec), x);
    var e := st.ce[x].(refcnt := st.ce[x].refcnt + 1);
    Moving(st, x, from, Prec);
    assert Placed(st, x);
    MoveSizes(st, x, from, Prec);
    RelocateKeeps(st, r, x, from, Prec, e);
  }

  lemma FlightHitKeeps(st: State, x: nat)
    requires Structured(st) && x < |st.ce| && x in st.flight
    ensures var r := Ref(SetEntry(st, x, st.ce[x].(state := CsPrecious)), x);
      Kept(st, r) && (Valid(st) ==> Valid(r)) && Bounded(st, r)
  {
    assert Placed(st, x) && x in st.At(Flight);
    var e := st.ce[x].(state := CsPrecious);
    RefSetEntry(st, x, e);
    RewriteKeeps(st, x, Flight, e.(refcnt := e.refcnt + 1));
  }

  lemma GetAbsentKeeps(st: State, key: Key)
    requires Sound(st) && Absent(st, key) && !Full(st) && Defined(st, key)
    ensures Outcome(st, key, Get(st, key).0)
  {
    match GhostOf(st, key)
    case Some(x) =>
      assert Get(st, key).0 == Ref(GhostHit(st, x), x);
      GetGhostKeeps(st, key, x, Ref(GhostHit(st, x), x));
    case None =>
      AbsentMissed(st, key);
      DefinedIff(st, key);
      MissKeeps(st, key);
      assert Get(st, key).0 == Ref(Miss(st, key), Recycled(st));
      assert !Starves(st, key);
      hide Get, Starves, Sound, Missed, Defined, Valid, Structured, Kept, Overtakes, Full, Lookup;
  }

  lemma GhostRequest(st: State, key: Key, x: nat)
    requires Shape(st) && Absent(st, key) && !Full(st) && GhostOf(st, key) == Some(x)
    ensures Starves(st, key) <==> st.Spare() > 0 && !OwnsBuffer(st, st.unused[|st.unused| - 1])
    ensures Overtakes(st, key) <==> st.Spare() >= 2
  {
    hide FindKey, InUse, Full, Absent, GhostOf;
  }

  lemma GetGhostKeeps(st: State, key: Key, x: nat, r: State)
    requires Sound(st) && Absent(st, key) && !Full(st) && GhostOf(st, key) == Some(x)
    requires r == Ref(GhostHit(st, x), x)
    ensures Outcome(st, key, r)
  {
    GhostHitKeeps(st, x);
    GhostRequest(st, key, x);
    AdaptKeeps(st, x);
    GrownAnyway(st, Adapt(st, x), r);
    hide Starves, GhostHit, Sound, Structured, Owned, Spares, Overtakes, Full, Lookup, Kept, Adapt, Absent, GhostOf,
         Ref;
  }

  lemma GrownAnyway(st: State, a: State, r: State)
    requires SameLists(st, a)
    ensures Grown(a, r) ==> Grown(st, r)
  {
  }

  lemma AbsentMissed(st: State, key: Key)
    requires Structured(st) && Absent(st, key) && GhostOf(st, key).None?
    ensures Missed(st, key)
  {
    forall i | 0 <= i < |st.ce| && i !in st.unused ensures st.ce[i].key != key {
      assert st.Live(i);
    }
  }

  /** From a valid state no request starves at once. */
  lemma ValidFeeds(st: State, key: Key)
    requires Valid(st)
    ensures Sound(st) && Defined(st, key) && !Starves(st, key)
  {
    ValidIsSound(st);
    SpareAtEnd(st);
    DefinedIff(st, key);
  }

  /** `cache_get_entry` keeps the stronger invariant exactly when the request does not overtake. */
  lemma GetValid(st: State, key: Key)
    requires Valid(st)
    ensures Valid(Get(st, key).0) <==> !Overtakes(st, key)
    ensures !Overtakes(st, key) ==> Bounded(st, Get(st, key).0)
  {
    ValidFeeds(st, key);
    if Overtakes(st, key) {
      NotFull(st);
      assert Get(st, key).0 == Ref(GhostHit(st, GhostOf(st, key).value), GhostOf(st, key).value);
      GhostHitBreaks(st, GhostOf(st, key).value);
    } else {
      GetKeeps(st, key);
    }
  }

  /** How a request changes what the run disciplines look at: either nothing does, or
      one more entry is in flight. */
  ghost predicate Bounded(st: State, r: State) {
    || (r.cap == st.cap && r.Total() == st.Total() && (NoGhosts(st) ==> NoGhosts(r))
        && (r.flight == [] <==> st.flight == []))
    || Grown(st, r)
  }

  /** What the callers of the remaining operations hold: a reference. */
  ghost predicate Held(st: State, x: nat) {
    x < |st.ce| && st.ce[x].refcnt > 0
  }

  lemma HeldPlace(st: State, x: nat)
    requires Structured(st) && Held(st, x)
    ensures st.ce[x].state == CsValid <==> st.Cached(x)
    ensures st.ce[x].state != CsValid ==> x in st.flight
  {
    assert Placed(st, x);
    assert st.Live(x) || x in st.unused;
  }

  ghost function PlaceOfHeld(st: State, x: nat): (p: Place)
    requires Structured(st) && Held(st, x)
    ensures x in st.At(p) && (p == Prec || p == Probe || p == Flight)
    ensures p == Flight <==> st.ce[x].state != CsValid
  {
    HeldPlace(st, x);
    if x in st.prec then Prec else if x in st.probe then Probe else Flight
  }

  lemma PutKeeps(st: State, x: nat)
    requires Structured(st) && Held(st, x)
    ensures Kept(st, Put(st, x)) && (Valid(st) ==> Valid(Put(st, x)))
  {
    RewriteKeeps(st, x, PlaceOfHeld(st, x), st.ce[x].(refcnt := st.ce[x].refcnt - 1));
  }

  lemma InsertKeeps(st: State, x: nat)
    requires Structured(st) && Held(st, x)
    ensures Kept(st, Insert(st, x)) && (Valid(st) ==> Valid(Insert(st, x)))
  {
    HeldPlace(st, x);
    if st.ce[x].state != CsValid {
      var to := if st.ce[x].state == CsProbe then Probe else Prec;
      assert x in st.At(Flight);
      Moving(st, x, Flight, to);
      RelocateKeeps(st, Insert(st, x), x, Flight, to, st.ce[x].(state := CsValid));
    }
  }

  lemma DiscardKeeps(st: State, x: nat)
    requires Structured(st) && Held(st, x)
    ensures Kept(st, Discard(st, x)) && (Valid(st) ==> Valid(Discard(st, x)))
  {
    HeldPlace(st, x);
    PutKeeps(st, x);
    var d := Put(st, x);
    if d.ce[x].refcnt == 0 && d.ce[x].state != CsValid {
      assert x in d.At(Flight);
      Moving(d, x, Flight, Unused);
      RelocateKeeps(d, Move(d, x, Unused), x, Flight, Unused, d.ce[x]);
    }
  }

  // ---------------------------------------------------------------------------
  // Runs

  datatype Op = OpGet(key: Key) | OpInsert(x: nat) | OpPut(x: nat) | OpDiscard(x: nat)

  /** Everything but a request needs a reference. */
  ghost predicate Legal(st: State, op: Op) {
    op.OpGet? || Held(st, op.x)
  }

  /** A request that evicts finds something to evict. */
  ghost predicate DefinedOp(st: State, op: Op)
    requires Shape(st)
  {
    op.OpGet? ==> Defined(st, op.key)
  }

  ghost function Step(st: State, op: Op): State
    requires Shape(st) && Legal(st, op)
  {
    match op
    case OpGet(key) => Get(st, key).0
    case OpInsert(x) => Insert(st, x)
    case OpPut(x) => Put(st, x)
    case OpDiscard(x) => Discard(st, x)
  }

  /** Operations other than requests keep what there is. */
  lemma OtherStepKeeps(st: State, op: Op)
    requires Structured(st) && Legal(st, op) && !op.OpGet?
    ensures Kept(st, Step(st, op)) && (Valid(st) ==> Valid(Step(st, op)))
  {
    match op
    case OpInsert(x) => InsertKeeps(st, x);
    case OpPut(x) => PutKeeps(st, x);
    case OpDiscard(x) => DiscardKeeps(st, x);
  }

  /** An operation keeps a state sound if and only if it is no starving request. */
  lemma StepSound(st: State, op: Op)
    requires Sound(st) && Legal(st, op)
    ensures Sound(Step(st, op)) && DefinedOp(st, op) <==> !(op.OpGet? && Starves(st, op.key))
  {
    if op.OpGet? { GetSound(st, op.key); } else { OtherStepKeeps(st, op); }
  }

  /** It keeps the stronger invariant if and only if it is no overtaking request. */
  lemma StepValid(st: State, op: Op)
    requires Valid(st) && Legal(st, op)
    ensures Valid(Step(st, op)) <==> !(op.OpGet? && Overtakes(st, op.key))
  {
    if op.OpGet? { GetValid(st, op.key); } else { OtherStepKeeps(st, op); }
  }

  /** `states` are the states between the operations `ops`. */
  ghost predicate Run(states: seq<State>, ops: seq<Op>) {
    && |states| == |ops| + 1
    && (forall k :: 0 <= k < |ops| ==> Shape(states[k]) && Legal(states[k], ops[k]))
    && (forall k :: 0 <= k < |ops| ==> states[k + 1] == Step(states[k], ops[k]))
  }

  lemma {:induction false} RunValidUpTo(states: seq<State>, ops: seq<Op>, n: nat)
    requires Run(states, ops) && Valid(states[0]) && n <= |ops|
    requires forall k :: 0 <= k < n && ops[k].OpGet? ==> !Overtakes(states[k], ops[k].key)
    ensures Valid(states[n])
  {
    if n == 0 {
    } else {
      RunValidUpTo(states, ops, n - 1);
      StepValid(states[n - 1], ops[n - 1]);
      assert states[n - 1 + 1] == Step(states[n - 1], ops[n - 1]);
    }
  }

  /** A run is valid throughout if and only if no request of it overtakes. */
  lemma RunValid(states: seq<State>, ops: seq<Op>)
    requires Run(states, ops) && Valid(states[0])
    ensures (forall k :: 0 <= k < |states| ==> Valid(states[k]))
       <==> (forall k :: 0 <= k < |ops| && ops[k].OpGet? ==> !Overtakes(states[k], ops[k].key))
  {
    if forall k :: 0 <= k < |ops| && ops[k].OpGet? ==> !Overtakes(states[k], ops[k].key) {
      forall k | 0 <= k < |states| ensures Valid(states[k]) { RunValidUpTo(states, ops, k); }
    } else {
      var k :| 0 <= k < |ops| && ops[k].OpGet? && Overtakes(states[k], ops[k].key);
      if Valid(states[k]) {
        StepValid(states[k], ops[k]);
        assert states[k + 1] == Step(states[k], ops[k]);
      }
    }
  }

  lemma {:induction false} RunSoundUpTo(states: seq<State>, ops: seq<Op>, n: nat)
    requires Run(states, ops) && Sound(states[0]) && n <= |ops|
    requires forall k :: 0 <= k < n && ops[k].OpGet? ==> !Starves(states[k], ops[k].key)
    ensures Sound(states[n])
  {
    if n == 0 {
    } else {
      RunSoundUpTo(states, ops, n - 1);
      StepSound(states[n - 1], ops[n - 1]);
      assert states[n - 1 + 1] == Step(states[n - 1], ops[n - 1]);
    }
  }

  /** A run is sound throughout, and never in want of a victim, if and only if no request of it
      starves. */
  lemma RunSound(states: seq<State>, ops: seq<Op>)
    requires Run(states, ops) && Sound(states[0])
    ensures (forall k :: 0 <= k < |states| ==> Sound(states[k]))
            && (forall k :: 0 <= k < |ops| ==> DefinedOp(states[k], ops[k]))
       <==> (forall k :: 0 <= k < |ops| && ops[k].OpGet? ==> !Starves(states[k], ops[k].key))
  {
    if forall k :: 0 <= k < |ops| && ops[k].OpGet? ==> !Starves(states[k], ops[k].key) {
      forall k | 0 <= k < |states| ensures Sound(states[k]) { RunSoundUpTo(states, ops, k); }
      forall k | 0 <= k < |ops| ensures DefinedOp(states[k], ops[k]) {
        StepSound(states[k], ops[k]);
      }
    } else {
      var k :| 0 <= k < |ops| && ops[k].OpGet? && Starves(states[k], ops[k].key);
      if Sound(states[k]) {
        StepSound(states[k], ops[k]);
        assert states[k + 1] == Step(states[k], ops[k]);
      }
    }
  }
}
