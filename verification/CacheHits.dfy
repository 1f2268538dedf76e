/** What the partitions mean over whole runs: probed entries, and their ghosts, were requested once
    since they got their key, and precious ones more than once.  And the ghosts are in order of eviction,
    so that the one that is given up is the oldest of its kind. */
module CacheHits {
  import opened CacheAdaptation
  import opened CacheInvariant
  import opened CacheRecency
  import opened CacheRuns
  import opened CacheSpec
  import opened CacheTheorems
  import opened Options
  import opened RingList

  /** How often each entry has been requested since it got its key. */
  ghost function HitsAfter(st: State, op: Op, hits: seq<nat>): (after: seq<nat>)
    requires Shape(st) && |hits| == |st.ce| && Legal(st, op)
    ensures |after| == |hits|
  {
    if op.OpGet? && Get(st, op.key).1.Some? then
      var x := Get(st, op.key).1.value;
      if x >= |hits| then hits
      else hits[x := if CachedOrInFlight(st, op.key) || Known(st, op.key) then hits[x] + 1 else 1]
    else hits
  }

  ghost predicate CountedAt(st: State, i: nat, n: nat)
    requires i < |st.ce|
  {
    && (i in st.At(Probe) || i in st.At(GhostProbe) ==> n == 1)
    && (i in st.At(Prec) || i in st.At(GhostPrec) ==> n >= 2)
    && (i in st.At(Flight) ==> n >= 1 && (st.ce[i].state == CsProbe <==> n == 1))
  }

  /** Probed means requested once, precious more than once. */
  ghost predicate Counted(st: State, hits: seq<nat>) {
    |hits| == |st.ce| && forall i :: 0 <= i < |hits| ==> CountedAt(st, i, hits[i])
  }

  /** A request for what is cached or in flight. */
  lemma PresentIs(st: State, key: Key) returns (x: nat, p: Place)
    requires Structured(st) && CachedOrInFlight(st, key)
    ensures Get(st, key).1 == Some(x) && x < |st.ce| && x in st.At(p)
    ensures p == Prec || p == Probe || p == Flight
    ensures Get(st, key).0 == if p == Flight then Ref(SetEntry(st, x, st.ce[x].(state := CsPrecious)), x)
                              else Ref(Move(st, x, Prec), x)
  {
    FoundIffThere(st, key);
    hide FindKey, Structured, Move, Full, CachedOrInFlight;
    p := if Lookup(st, key, Prec).Some? then Prec else if Lookup(st, key, Probe).Some? then Probe else Flight;
    x := Lookup(st, key, p).value;
  }

  /** Where a move leads, in terms of places. */
  lemma MovedAt(st: State, r: State, x: nat, p: Place)
    requires Partition(st) && forall q :: r.At(q) == Move(st, x, p).At(q)
    ensures forall i, q :: i in r.At(q) <==> if i == x then q == p else i in st.At(q)
  {
    hide Move;
    MoveFacts(st, x, p);
    forall i, q ensures i in r.At(q) <==> if i == x then q == p else i in st.At(q) {
      assert i in Move(st, x, p).At(q) <==> if i == x then q == p else i in st.At(q);
    }
  }

  lemma FlightCounted(st: State, r: State, x: nat, hits: seq<nat>)
    requires Counted(st, hits) && Partition(st) && x < |st.ce| && x in st.At(Flight)
    requires r == Ref(SetEntry(st, x, st.ce[x].(state := CsPrecious)), x)
    ensures Counted(r, hits[x := hits[x] + 1])
  {
    var after := hits[x := hits[x] + 1];
    Apart(st, x);
    forall q ensures r.At(q) == st.At(q) { }
    hide Partition;
    forall i | 0 <= i < |after| ensures CountedAt(r, i, after[i]) {
      assert CountedAt(st, i, hits[i]) && CountedAt(st, x, hits[x]);
    }
  }

  lemma HitCounted(st: State, r: State, x: nat, hits: seq<nat>)
    requires Counted(st, hits) && Partition(st) && x < |st.ce| && (x in st.At(Prec) || x in st.At(Probe))
    requires r == Ref(Move(st, x, Prec), x)
    ensures Counted(r, hits[x := hits[x] + 1])
  {
    var after := hits[x := hits[x] + 1];
    forall q ensures r.At(q) == Move(st, x, Prec).At(q) { }
    MovedAt(st, r, x, Prec);
    MoveKeepsEntries(st, x, Prec);
    hide Move, Partition;
    forall i | 0 <= i < |after| ensures CountedAt(r, i, after[i]) {
      assert CountedAt(st, i, hits[i]) && CountedAt(st, x, hits[x]);
    }
  }

  lemma LaunchCounted(st: State, r: State, x: nat, v: Option<nat>, key: Key, state: EntryState, data: Option<Buffer>,
                      hits: seq<nat>, n: nat)
    requires Counted(st, hits) && x < |st.ce| && (v.Some? ==> v.value < |st.ce| && st.Cached(v.value))
    requires Went(st, r, x, v) && Rewritten(st, r, x, v, key, state, data)
    requires n >= 1 && state != CsValid && (state == CsProbe <==> n == 1)
    ensures Counted(r, hits[x := n])
  {
    var after := hits[x := n];
    forall i | 0 <= i < |after| ensures CountedAt(r, i, after[i]) {
      assert CountedAt(st, i, hits[i]);
      WentAt(st, r, x, v, i);
      if i == x {
      } else if v == Some(i) {
        assert i in st.At(Prec) || i in st.At(Probe);
      } else {
        OthersRewritten(st, r, x, v, key, state, data, i);
      }
      hide Went, Rewritten;
    }
  }

  lemma WentAt(st: State, r: State, x: nat, v: Option<nat>, i: nat)
    requires Went(st, r, x, v)
    ensures i == x ==> forall q :: i in r.At(q) <==> q == Flight
    ensures i != x && v == Some(i) ==>
              forall q :: i in r.At(q) <==> q == if i in st.At(Probe) then GhostProbe else GhostPrec
    ensures i != x && v != Some(i) ==> forall q :: i in r.At(q) <==> i in st.At(q)
  {
    forall q ensures i in r.At(q) <==> WentThere(st, x, v, i, q) { }
    assert st.At(Probe) == st.probe;
  }

  lemma OthersRewritten(st: State, r: State, x: nat, v: Option<nat>, key: Key, state: EntryState, data: Option<Buffer>,
                        i: nat)
    requires x < |st.ce| && (v.Some? ==> v.value < |st.ce|) && Rewritten(st, r, x, v, key, state, data)
    requires i < |st.ce| && i != x && v != Some(i)
    ensures i < |r.ce| && r.ce[i].state == st.ce[i].state
  {
    assert r.ce[i].(data := st.ce[i].data) == st.ce[i];
  }

  lemma PresentCounted(st: State, key: Key, hits: seq<nat>)
    requires Structured(st) && Counted(st, hits) && CachedOrInFlight(st, key)
    ensures Counted(Get(st, key).0, HitsAfter(st, OpGet(key), hits))
  {
    assert Partition(st) && Shape(st);
    hide Get, CachedOrInFlight, Structured, Shape, Partition, Move, Known, Counted, HitsAfter, Ref, SetEntry;
    CountedSize(st, hits);
    var x, p := PresentIs(st, key);
    HitsAre(st, key, x, hits);
    if p == Flight {
      FlightCounted(st, Get(st, key).0, x, hits);
    } else {
      HitCounted(st, Get(st, key).0, x, hits);
    }
  }

  lemma CountedSize(st: State, hits: seq<nat>)
    requires Counted(st, hits)
    ensures |hits| == |st.ce|
    ensures forall i: nat :: i < |hits| && st.Ghost(i) ==> hits[i] >= 1
  {
    forall i: nat | i < |hits| && st.Ghost(i) ensures hits[i] >= 1 { assert CountedAt(st, i, hits[i]); }
  }

  lemma AbsentCounted(st: State, key: Key, hits: seq<nat>)
    requires Structured(st) && Counted(st, hits) && Defined(st, key)
    requires Get(st, key).1.Some? && !CachedOrInFlight(st, key)
    ensures Counted(Get(st, key).0, HitsAfter(st, OpGet(key), hits))
  {
    assert Shape(st);
    hide Get, CachedOrInFlight, Structured, Shape, Known, Counted, Went, Rewritten, IsRecycled, IsVictim, HitsAfter,
         Defined;
    CountedSize(st, hits);
    var x, v, data := RequestMoves(st, key);
    VictimCached(st, v, if Known(st, key) then 0 else 1, Get(st, key).0.dprobe);
    HitsAre(st, key, x, hits);
    var r := Get(st, key).0;
    if Known(st, key) {
      LaunchCounted(st, r, x, v, key, CsPrecious, data, hits, hits[x] + 1);
    } else {
      LaunchCounted(st, r, x, v, key, CsProbe, data, hits, 1);
    }
  }

  lemma HitsAre(st: State, key: Key, x: nat, hits: seq<nat>)
    requires Shape(st) && |hits| == |st.ce| && Get(st, key).1 == Some(x) && x < |hits|
    ensures HitsAfter(st, OpGet(key), hits)
         == hits[x := if CachedOrInFlight(st, key) || Known(st, key) then hits[x] + 1 else 1]
  {
    hide Get, CachedOrInFlight, Known, Shape;
  }

  lemma GetCounted(st: State, key: Key, hits: seq<nat>)
    requires Structured(st) && Counted(st, hits) && Defined(st, key)
    ensures Counted(Get(st, key).0, HitsAfter(st, OpGet(key), hits))
  {
    GetResult(st, key);
    hide Get, Structured, Shape, Counted, Known, CachedOrInFlight, Granted, Full;
    if Get(st, key).1.None? {
    } else if CachedOrInFlight(st, key) {
      PresentCounted(st, key, hits);
    } else {
      AbsentCounted(st, key, hits);
    }
  }

  lemma InsertCounted(st: State, x: nat, hits: seq<nat>)
    requires Structured(st) && Held(st, x) && Counted(st, hits)
    ensures Counted(Insert(st, x), hits)
  {
    HeldPlace(st, x);
    if st.ce[x].state != CsValid {
      var p := if st.ce[x].state == CsProbe then Probe else Prec;
      var r := Insert(st, x);
      assert Partition(st) && x in st.At(Flight);
      forall q ensures r.At(q) == Move(st, x, p).At(q) { }
      MovedAt(st, r, x, p);
      MoveKeepsEntries(st, x, p);
      hide Move, Partition, Structured;
      forall i | 0 <= i < |hits| ensures CountedAt(r, i, hits[i]) { assert CountedAt(st, i, hits[i]); }
    }
  }

  lemma PutCounted(st: State, x: nat, hits: seq<nat>)
    requires Held(st, x) && Counted(st, hits)
    ensures Counted(Put(st, x), hits)
  {
    var r := Put(st, x);
    forall q ensures r.At(q) == st.At(q) { }
    forall i | 0 <= i < |hits| ensures CountedAt(r, i, hits[i]) { assert CountedAt(st, i, hits[i]); }
  }

  lemma DiscardCounted(st: State, x: nat, hits: seq<nat>)
    requires Structured(st) && Held(st, x) && Counted(st, hits)
    ensures Counted(Discard(st, x), hits)
  {
    PutCounted(st, x, hits);
    var d, r := Put(st, x), Discard(st, x);
    PutKeeps(st, x);
    assert Partition(d) && |d.ce| == |st.ce|;
    MovedAt(d, Move(d, x, Unused), x, Unused);
    MoveKeepsEntries(d, x, Unused);
    hide Move, Partition, Structured;
    if r != d {
      forall i | 0 <= i < |hits| ensures CountedAt(r, i, hits[i]) { assert CountedAt(d, i, hits[i]); }
    }
  }

  lemma StepCounted(st: State, op: Op, hits: seq<nat>)
    requires Structured(st) && Legal(st, op) && DefinedOp(st, op) && Counted(st, hits)
    ensures |hits| == |st.ce| && Counted(Step(st, op), HitsAfter(st, op, hits))
  {
    assert Shape(st);
    CountedSize(st, hits);
    hide Get, Insert, Put, Discard, Structured, Shape, Counted;
    match op
    case OpGet(key) => GetCounted(st, key, hits);
    case OpInsert(x) => InsertCounted(st, x, hits);
    case OpPut(x) => PutCounted(st, x, hits);
    case OpDiscard(x) => DiscardCounted(st, x, hits);
  }

  /** The requests in the first `n` operations of a run. */
  ghost function Hits(states: seq<State>, ops: seq<Op>, n: nat): (hits: seq<nat>)
    requires Run(states, ops) && n <= |ops|
    requires forall k :: 0 <= k <= n ==> |states[k].ce| == |states[0].ce|
    ensures |hits| == |states[0].ce|
  {
    if n == 0 then seq(|states[0].ce|, _ => 0)
    else HitsAfter(states[n - 1], ops[n - 1], Hits(states, ops, n - 1))
  }

  /** In every run from a cache where all entries are unused: a cached entry is a probed one if it was
      requested once since it got its key, and a precious one if it was requested more often; and so it is
      with the ghosts. */
  lemma {:induction false} RunCounts(states: seq<State>, ops: seq<Op>, n: nat)
    requires Run(states, ops) && n <= |ops|
    requires forall i: nat, q: Place :: i in states[0].At(q) ==> q == Unused
    requires forall k :: 0 <= k <= n ==> Structured(states[k]) && |states[k].ce| == |states[0].ce|
    requires forall k :: 0 <= k < n ==> DefinedOp(states[k], ops[k])
    ensures Counted(states[n], Hits(states, ops, n))
  {
    if n == 0 {
    } else {
      RunCounts(states, ops, n - 1);
      StepCounted(states[n - 1], ops[n - 1], Hits(states, ops, n - 1));
      assert states[n - 1 + 1] == Step(states[n - 1], ops[n - 1]);
    }
  }

  /** Which means for a cached entry: */
  lemma CountsDecide(st: State, hits: seq<nat>, i: nat)
    requires Structured(st) && Counted(st, hits) && i < |st.ce| && (st.Cached(i) || st.Ghost(i))
    ensures i in st.probe || i in st.gprobe <==> hits[i] == 1
    ensures i in st.prec || i in st.gprec <==> hits[i] > 1
  {
    assert CountedAt(st, i, hits[i]);
    Apart(st, i);
    hide Structured;
  }

  // ---------------------------------------------------------------------------
  // The order of the ghosts

  /** `gone[i]` is the time when entry `i` was evicted last. */
  ghost function GoneAfter(st: State, op: Op, gone: seq<nat>, now: nat): (after: seq<nat>)
    requires Shape(st) && |gone| == |st.ce| && Legal(st, op)
    ensures |after| == |gone|
  {
    seq(|gone|, i requires 0 <= i < |gone| => if st.Cached(i) && Step(st, op).Ghost(i) then now else gone[i])
  }

  /** The ghosts of each kind are in order of eviction, all before `now`. */
  ghost predicate Aged(st: State, gone: seq<nat>, now: nat) {
    && |gone| == |st.ce|
    && Descending(gone, st.gprec) && Ascending(gone, st.gprobe)
    && forall i :: 0 <= i < |gone| ==> gone[i] < now
  }

  /** Nothing changes the order of the ghosts but evictions. */
  lemma MoveAged(st: State, r: State, x: nat, p: Place, gone: seq<nat>, now: nat)
    requires Aged(st, gone, now) && p != GhostPrec && p != GhostProbe
    requires r.gprec == Move(st, x, p).gprec && r.gprobe == Move(st, x, p).gprobe && |r.ce| == |st.ce|
    ensures Aged(r, gone, now) && Aged(r, gone, now + 1)
  {
    DelKeepsDescending(gone, st.gprec, x);
    DelKeepsAscending(gone, st.gprobe, x);
  }

  lemma SameAged(st: State, r: State, gone: seq<nat>, now: nat)
    requires Aged(st, gone, now) && r.gprec == st.gprec && r.gprobe == st.gprobe && |r.ce| == |st.ce|
    ensures Aged(r, gone, now) && Aged(r, gone, now + 1)
  {
  }

  lemma EvictAged(st: State, x: nat, bias: nat, gone: seq<nat>, now: nat)
    requires Structured(st) && x < |st.ce| && Aged(st, gone, now) && Victim(st, bias).Some?
    ensures var v := Victim(st, bias).value; v < |gone| && Aged(EvictFor(st, x, bias), gone[v := now], now + 1)
  {
    var v := Victim(st, bias).value;
    VictimFacts(st, bias);
    Apart(st, v);
    assert Partition(st);
    hide Structured, Victim, Partition;
    EvictForShape(st, x, bias, v, if v in st.probe then GhostProbe else GhostPrec);
    NotThere(st.gprec, v);
    NotThere(st.gprobe, v);
    UseDescending(gone, st.gprec, v, now);
    UseAscending(gone, st.gprobe, v, now);
  }

  lemma {:induction false} NotThere(s: seq<nat>, x: nat)
    requires x !in s
    ensures Del(s, x) == s
  {
    if s == [] {
    } else {
      NotThere(s[1..], x);
    }
  }

  lemma GhostHitAged(st: State, x: nat, v: Option<nat>, gone: seq<nat>, now: nat)
    requires Structured(st) && x < |st.ce| && st.Ghost(x) && Aged(st, gone, now)
    requires v == (if st.Spare() > 0 then None else Victim(Adapt(st, x), 0)) && (st.Spare() > 0 || v.Some?)
    ensures v.Some? ==> v.value < |gone|
    ensures Aged(Ref(GhostHit(st, x), x), if v.Some? then gone[v.value := now] else gone, now + 1)
  {
    var a := Adapt(st, x);
    AdaptKeeps(st, x);
    GhostHitBy(st, x);
    SameAged(st, a, gone, now);
    var f := ReclaimFor(a, x);
    var after := if v.Some? then gone[v.value := now] else gone;
    if v.Some? {
      EvictAged(a, x, 0, gone, now);
    } else {
      ReclaimIs(a, x);
      SameAged(a, f, gone, now);
    }
    hide Adapt, GhostHit, ReclaimFor, EvictFor, Structured, Victim;
    MoveAged(f, Ref(GhostHit(st, x), x), x, Flight, after, now + 1);
    hide Move;
  }

  lemma MissAged(st: State, key: Key, v: Option<nat>, gone: seq<nat>, now: nat)
    requires Structured(st) && Aged(st, gone, now)
    requires v == (if st.ce[Recycled(st)].data.Some? then None else Victim(st, 1))
    requires st.ce[Recycled(st)].data.None? ==> v.Some?
    ensures v.Some? ==> v.value < |gone|
    ensures Aged(Ref(Miss(st, key), Recycled(st)), if v.Some? then gone[v.value := now] else gone, now + 1)
  {
    var x := Recycled(st);
    var f := if st.ce[x].data.None? then EvictFor(st, x, 1) else st;
    var after := if v.Some? then gone[v.value := now] else gone;
    hide Structured, Victim, EvictFor, Recycled;
    if v.Some? { EvictAged(st, x, 1, gone, now); } else { SameAged(st, f, gone, now); }
    MoveAged(f, Ref(Miss(st, key), x), x, Flight, after, now + 1);
    hide Move;
  }

  /** Only the victim becomes a ghost. */
  lemma GoneIs(st: State, op: Op, x: nat, v: Option<nat>, gone: seq<nat>, now: nat)
    requires Shape(st) && Partition(st) && Legal(st, op) && |gone| == |st.ce| && !st.Cached(x)
    requires Went(st, Step(st, op), x, v) && (v.Some? ==> v.value < |gone| && st.Cached(v.value) && v.value != x)
    ensures GoneAfter(st, op, gone, now) == if v.Some? then gone[v.value := now] else gone
  {
    var r := Step(st, op);
    forall i: nat | i < |gone| ensures st.Cached(i) && r.Ghost(i) <==> v == Some(i) {
      WentAt(st, r, x, v, i);
      Apart(st, i);
      assert r.Ghost(i) <==> i in r.At(GhostPrec) || i in r.At(GhostProbe);
      hide Went, Step, Partition;
    }
  }

  /** Nothing but a request that evicts makes ghosts. */
  lemma NoneGone(st: State, op: Op, x: nat, p: Place, gone: seq<nat>, now: nat)
    requires Shape(st) && Partition(st) && Legal(st, op) && |gone| == |st.ce| && p != GhostPrec && p != GhostProbe
    requires forall i, q :: i in Step(st, op).At(q) ==> i in st.At(q) || (i == x && q == p)
    ensures GoneAfter(st, op, gone, now) == gone
  {
    hide Step, Partition, Sized;
    var r := Step(st, op);
    forall i: nat | i < |gone| && st.Cached(i) ensures !r.Ghost(i) {
      Apart(st, i);
      assert i in r.At(GhostPrec) ==> i in st.At(GhostPrec);
      assert i in r.At(GhostProbe) ==> i in st.At(GhostProbe);
    }
  }

  /** An operation that moves at most one entry, and makes no ghost of it. */
  lemma PlainAged(st: State, op: Op, x: nat, p: Place, gone: seq<nat>, now: nat)
    requires Structured(st) && Legal(st, op) && Aged(st, gone, now) && |gone| == |st.ce|
    requires p != GhostPrec && p != GhostProbe && SameOrMoved(st, Step(st, op), x, p)
    ensures Aged(Step(st, op), GoneAfter(st, op, gone, now), now + 1)
  {
    var r := Step(st, op);
    assert Shape(st) && Partition(st);
    hide Structured, Partition, Shape, Step, Move, Aged, State.At;
    if forall q :: r.At(q) == st.At(q) {
      NoneGone(st, op, x, p, gone, now);
      GhostLists(r, st);
      SameAged(st, r, gone, now);
    } else {
      MovedAt(st, r, x, p);
      NoneGone(st, op, x, p, gone, now);
      GhostLists(r, Move(st, x, p));
      MoveAged(st, r, x, p, gone, now);
    }
  }

  lemma GhostLists(a: State, b: State)
    requires forall q :: a.At(q) == b.At(q)
    ensures a.gprec == b.gprec && a.gprobe == b.gprobe
  {
    assert a.At(GhostPrec) == b.At(GhostPrec) && a.At(GhostProbe) == b.At(GhostProbe);
  }

  ghost predicate SameOrMoved(st: State, r: State, x: nat, p: Place) {
    && |r.ce| == |st.ce|
    && ((forall q :: r.At(q) == st.At(q)) || forall q :: r.At(q) == Move(st, x, p).At(q))
  }

  lemma RewriteOnly(st: State, x: nat, e: Entry)
    requires x < |st.ce|
    ensures forall p :: SameOrMoved(st, SetEntry(st, x, e), x, p)
    ensures forall p, m :: m == Move(st, x, p) ==> |m.ce| == |st.ce| && SameOrMoved(st, SetEntry(m, x, e), x, p)
  {
    forall q ensures SetEntry(st, x, e).At(q) == st.At(q) { }
    forall p, m | m == Move(st, x, p) ensures |m.ce| == |st.ce| && SameOrMoved(st, SetEntry(m, x, e), x, p) {
      forall q ensures SetEntry(m, x, e).At(q) == m.At(q) { }
    }
  }

  lemma AbsentAged(st: State, key: Key, gone: seq<nat>, now: nat)
    requires Structured(st) && Aged(st, gone, now) && Defined(st, key)
    requires Get(st, key).1.Some? && !CachedOrInFlight(st, key)
    ensures Aged(Get(st, key).0, GoneAfter(st, OpGet(key), gone, now), now + 1)
  {
    FoundIffThere(st, key);
    GetIs(st, key);
    assert Shape(st) && Partition(st);
    hide Absent, Lookup, Get, GhostOf, GhostHit, Miss, Full, CachedOrInFlight, Structured, Shape, Adapt, Went,
         Partition, Rewritten, IsVictim, Victim, Aged;
    match GhostOf(st, key)
    case Some(x) =>
      var v := GhostMoves(st, x);
      GhostHitAged(st, x, v, gone, now);
      GhostApart(st, x);
      VictimCached(st, v, 0, Adapt(st, x).dprobe);
      GoneIs(st, OpGet(key), x, v, gone, now);
    case None =>
      var x := Recycled(st);
      var from := RecycledPlace(st);
      var v := MissMoves(st, key);
      MissAged(st, key, v, gone, now);
      VictimCached(st, v, 1, st.dprobe);
      GoneIs(st, OpGet(key), x, v, gone, now);
  }

  lemma GhostApart(st: State, x: nat)
    requires Partition(st) && st.Ghost(x)
    ensures !st.Cached(x)
  {
    Apart(st, x);
  }

  lemma VictimCached(st: State, v: Option<nat>, bias: nat, dprobe: nat)
    requires v.Some? ==> IsVictim(st, v.value, bias, dprobe)
    ensures v.Some? ==> st.Cached(v.value)
  {
  }

  lemma StepAged(st: State, op: Op, gone: seq<nat>, now: nat)
    requires Structured(st) && Legal(st, op) && DefinedOp(st, op) && Aged(st, gone, now)
    ensures |gone| == |st.ce| && Aged(Step(st, op), GoneAfter(st, op, gone, now), now + 1)
  {
    assert |gone| == |st.ce| && Shape(st) && Partition(st);
    match op
    case OpGet(key) =>
      GetResult(st, key);
      hide Get, CachedOrInFlight, Structured, Shape, Partition, Aged, Granted, Full;
      if Get(st, key).1.None? {
        NoneGone(st, op, 0, Prec, gone, now);
        SameAged(st, st, gone, now);
      } else if CachedOrInFlight(st, key) {
        PresentAged(st, key, gone, now);
      } else {
        AbsentAged(st, key, gone, now);
      }
    case _ => OtherAged(st, op, gone, now);
  }

  lemma HitMoves(st: State, x: nat)
    requires x < |st.ce|
    ensures |Move(st, x, Prec).ce| == |st.ce| && SameOrMoved(st, Ref(Move(st, x, Prec), x), x, Prec)
    ensures SameOrMoved(st, Ref(SetEntry(st, x, st.ce[x].(state := CsPrecious)), x), x, Prec)
  {
    MoveKeepsEntries(st, x, Prec);
    RewriteOnly(st, x, st.ce[x].(refcnt := st.ce[x].refcnt + 1));
    RewriteOnly(st, x, st.ce[x].(state := CsPrecious, refcnt := st.ce[x].refcnt + 1));
    RefSetEntry(st, x, st.ce[x].(state := CsPrecious));
    hide Move, SameOrMoved;
  }

  lemma PresentAged(st: State, key: Key, gone: seq<nat>, now: nat)
    requires Structured(st) && Aged(st, gone, now) && CachedOrInFlight(st, key)
    ensures Aged(Get(st, key).0, GoneAfter(st, OpGet(key), gone, now), now + 1)
  {
    assert Shape(st) && |gone| == |st.ce|;
    hide Get, CachedOrInFlight, Structured, Shape, Move, Aged, SameOrMoved, Ref, SetEntry;
    var x, p := PresentIs(st, key);
    HitMoves(st, x);
    PlainAged(st, OpGet(key), x, Prec, gone, now);
  }

  lemma OtherAged(st: State, op: Op, gone: seq<nat>, now: nat)
    requires Structured(st) && Legal(st, op) && !op.OpGet? && Aged(st, gone, now) && |gone| == |st.ce|
    ensures Aged(Step(st, op), GoneAfter(st, op, gone, now), now + 1)
  {
    assert Shape(st);
    hide Structured, Shape, Aged, SameOrMoved, Step;
    var p := OtherMoves(st, op);
    PlainAged(st, op, op.x, p, gone, now);
  }

  lemma OtherMoves(st: State, op: Op) returns (p: Place)
    requires Shape(st) && Legal(st, op) && !op.OpGet?
    ensures p != GhostPrec && p != GhostProbe && SameOrMoved(st, Step(st, op), op.x, p)
  {
    hide Insert, Discard, Move, SameOrMoved;
    p := if op.OpDiscard? then Unused else if st.ce[op.x].state == CsProbe then Probe else Prec;
    match op {
      case OpInsert(x) => InsertMoves(st, x);
      case OpPut(x) => RewriteOnly(st, x, st.ce[x].(refcnt := st.ce[x].refcnt - 1));
      case OpDiscard(x) => DiscardMoves(st, x);
    }
  }

  lemma InsertMoves(st: State, x: nat)
    requires x < |st.ce|
    ensures SameOrMoved(st, Insert(st, x), x, if st.ce[x].state == CsProbe then Probe else Prec)
  {
    RewriteOnly(st, x, st.ce[x]);
    RewriteOnly(st, x, st.ce[x].(state := CsValid));
    hide Move, SameOrMoved;
    assert SetEntry(st, x, st.ce[x]) == st;
  }

  lemma DiscardMoves(st: State, x: nat)
    requires x < |st.ce| && st.ce[x].refcnt > 0
    ensures SameOrMoved(st, Discard(st, x), x, Unused)
  {
    var e := st.ce[x].(refcnt := st.ce[x].refcnt - 1);
    RewriteOnly(st, x, e);
    MoveKeepsEntries(st, x, Unused);
    assert Move(Put(st, x), x, Unused) == SetEntry(Move(st, x, Unused), x, e);
    hide Move, SameOrMoved;
  }

  /** Times of eviction after the first `n` operations of a run. */
  ghost function Gone(states: seq<State>, ops: seq<Op>, n: nat): (gone: seq<nat>)
    requires Run(states, ops) && n <= |ops|
    requires forall k :: 0 <= k <= n ==> |states[k].ce| == |states[0].ce|
    ensures |gone| == |states[0].ce|
  {
    if n == 0 then seq(|states[0].ce|, _ => 0)
    else GoneAfter(states[n - 1], ops[n - 1], Gone(states, ops, n - 1), n)
  }

  lemma {:induction false} RunAges(states: seq<State>, ops: seq<Op>, n: nat)
    requires Run(states, ops) && n <= |ops|
    requires states[0].gprec == [] && states[0].gprobe == []
    requires forall k :: 0 <= k <= n ==> Structured(states[k]) && |states[k].ce| == |states[0].ce|
    requires forall k :: 0 <= k < n ==> DefinedOp(states[k], ops[k])
    ensures Aged(states[n], Gone(states, ops, n), n + 1)
  {
    if n == 0 {
    } else {
      RunAges(states, ops, n - 1);
      StepAged(states[n - 1], ops[n - 1], Gone(states, ops, n - 1), n);
      assert states[n - 1 + 1] == Step(states[n - 1], ops[n - 1]);
    }
  }

  /** So a new key takes the place of the probed ghost that was evicted first, when no entry is unused; or
      of such a precious one, if there is no probed one. */
  lemma RecycledIsOldest(st: State, x: nat, gone: seq<nat>, now: nat)
    requires Aged(st, gone, now) && IsRecycled(st, x) && st.unused == []
    ensures x in st.gprobe || (st.gprobe == [] && x in st.gprec)
    ensures x in st.gprobe ==> forall u :: u in st.gprobe ==> u < |gone| && gone[x] <= gone[u]
    ensures st.gprobe == [] ==> forall u :: u in st.gprec ==> u < |gone| && gone[x] <= gone[u]
  {
  }
}
