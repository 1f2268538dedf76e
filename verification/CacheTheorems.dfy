/** What the invariant of the entry cache means to its callers. */
module CacheTheorems {
  import opened CacheCount
  import opened CacheInvariant
  import opened CacheRuns
  import opened CacheSpec
  import opened Options
  import opened RingList

  // ---------------------------------------------------------------------------
  // Disciplines under which nothing overtakes

  /** Two spare buffers never meet a ghost. */
  ghost predicate Calm(st: State) {
    NoGhosts(st) || st.Spare() == 0 || (st.Spare() == 1 && st.flight == [])
  }

  lemma InsertKeepsCalm(st: State, x: nat)
    requires Valid(st) && Calm(st) && Held(st, x)
    ensures Calm(Insert(st, x))
  {
    HeldPlace(st, x);
    if st.ce[x].state != CsValid {
      assert x in st.At(Flight);
      MoveSized(st, x, Flight, if st.ce[x].state == CsProbe then Probe else Prec);
    }
  }

  lemma DiscardKeepsCalm(st: State, x: nat)
    requires Valid(st) && Calm(st) && Held(st, x) && |st.flight| <= 1
    ensures Calm(Discard(st, x))
  {
    HeldPlace(st, x);
    var d := Put(st, x);
    if d.ce[x].refcnt == 0 && d.ce[x].state != CsValid {
      PutKeeps(st, x);
      assert x in d.At(Flight);
      MoveSized(d, x, Flight, Unused);
      assert d.flight == [x];
    }
  }

  lemma BoundedKeepsCalm(st: State, r: State)
    requires Valid(st) && Calm(st) && Bounded(st, r)
    ensures Calm(r)
  {
  }

  lemma CalmNeverOvertakes(st: State, key: Key)
    requires Shape(st) && Calm(st)
    ensures !Overtakes(st, key)
  {
  }

  lemma GetKeepsCalm(st: State, key: Key)
    requires Valid(st) && Calm(st)
    ensures !Overtakes(st, key)
    ensures Calm(Get(st, key).0)
  {
    CalmNeverOvertakes(st, key);
    GetValid(st, key);
    BoundedKeepsCalm(st, Get(st, key).0);
  }

  lemma CalmStep(st: State, op: Op)
    requires Valid(st) && Calm(st) && Legal(st, op)
    requires op.OpDiscard? ==> |st.flight| <= 1
    ensures Valid(Step(st, op)) && Calm(Step(st, op))
  {
    if op.OpGet? { GetKeepsCalm(st, op.key); }
    StepValid(st, op);
    match op
    case OpGet(key) =>
    case OpInsert(x) => InsertKeepsCalm(st, x);
    case OpPut(x) =>
    case OpDiscard(x) => DiscardKeepsCalm(st, x);
  }

  lemma {:induction false} CalmRunUpTo(states: seq<State>, ops: seq<Op>, n: nat)
    requires Run(states, ops) && Valid(states[0]) && Calm(states[0]) && n <= |ops|
    requires forall k :: 0 <= k < n && ops[k].OpDiscard? ==> |states[k].flight| <= 1
    ensures Valid(states[n]) && Calm(states[n])
  {
    if n == 0 {
    } else {
      CalmRunUpTo(states, ops, n - 1);
      CalmStep(states[n - 1], ops[n - 1]);
      assert states[n - 1 + 1] == Step(states[n - 1], ops[n - 1]);
    }
  }

  lemma FlushedValid(cap: nat, ce: seq<Entry>)
    requires cap > 0 && |ce| == 2 * cap
    ensures Valid(Flushed(cap, ce)) && Sound(Flushed(cap, ce)) && Calm(Flushed(cap, ce))
  {
    var st := Flushed(cap, ce);
    assert Partition(st) by {
      forall i, p, q | i in st.At(p) && i in st.At(q) ensures p == q { }
    }
    assert Covered(st) by {
      forall i | 0 <= i < |st.ce| ensures i in st.unused {
        assert st.unused[2 * cap - 1 - i] == i;
      }
    }
    ValidIsSound(st);
  }

  /** From a new cache on, every state is valid, and so sound, and every request finds what it
      evicts, as long as nothing is discarded while two or more entries are in flight.  Runs
      without `cache_discard` qualify. */
  lemma DisciplinedRun(cap: nat, ce: seq<Entry>, states: seq<State>, ops: seq<Op>)
    requires cap > 0 && |ce| == 2 * cap && Run(states, ops) && states[0] == Flushed(cap, ce)
    requires forall k :: 0 <= k < |ops| && ops[k].OpDiscard? ==> |states[k].flight| <= 1
    ensures forall k :: 0 <= k < |states| ==> Valid(states[k]) && Sound(states[k])
    ensures forall k :: 0 <= k < |ops| ==> DefinedOp(states[k], ops[k])
  {
    FlushedValid(cap, ce);
    forall k | 0 <= k < |states| ensures Valid(states[k]) && Sound(states[k]) {
      CalmRunUpTo(states, ops, k);
      ValidIsSound(states[k]);
    }
    forall k | 0 <= k < |ops| && ops[k].OpGet? ensures Defined(states[k], ops[k].key) {
      ValidFeeds(states[k], ops[k].key);
    }
  }

  // ---------------------------------------------------------------------------
  // Buffers are conserved

  /** Distinct owners own distinct buffers, so every buffer of the data area is owned. */
  lemma EveryBufferOwned(st: State, b: Buffer)
    requires Sound(st) && b < st.cap
    ensures exists i :: i in BufferOwners(st) && st.ce[i].data == Some(b)
  {
    var owners := BufferOwners(st);
    ImageSize(st, owners);
    var image := Image(st, owners);
    var all := UpTo(st.cap);
    UpToSize(st.cap);
    assert image <= all;
    if b !in image {
      assert image <= all - {b};
      SubsetSize(image, all - {b});
    }
  }

  ghost function Image(st: State, owners: set<nat>): set<Buffer>
    requires owners <= BufferOwners(st)
  {
    set i | i in owners :: st.ce[i].data.value
  }

  lemma {:induction false} ImageSize(st: State, owners: set<nat>)
    requires Exclusive(st.ce, st.cap) && owners <= BufferOwners(st)
    ensures |Image(st, owners)| == |owners|
  {
    if owners == {} {
    } else {
      var x :| x in owners;
      ImageSize(st, owners - {x});
      assert Image(st, owners) == Image(st, owners - {x}) + {st.ce[x].data.value};
      assert st.ce[x].data.value !in Image(st, owners - {x});
    }
  }

  ghost function UpTo(n: nat): set<nat> { if n == 0 then {} else UpTo(n - 1) + {n - 1} }

  lemma {:induction false} UpToSize(n: nat)
    ensures |UpTo(n)| == n && forall k: nat :: k in UpTo(n) <==> k < n
  {
    if n == 0 {
    } else {
      UpToSize(n - 1);
    }
  }

  // ---------------------------------------------------------------------------
  // What a caller of the cache can rely on

  /** The cache is full when every buffer is in use: nothing is spare and no cached
      entry is without references. */
  lemma FullMeans(st: State)
    requires Shape(st)
    ensures Full(st) <==> st.Spare() == 0 && forall i: nat :: st.Cached(i) ==> st.ce[i].refcnt > 0
  {
    if Full(st) {
      assert InUse(st.ce, st.prec) == |st.prec| && InUse(st.ce, st.probe) == |st.probe|;
    }
  }

  /** Keys and buffers of referenced entries are left alone. */
  ghost predicate KeepsPinned(st: State, r: State) {
    && |r.ce| == |st.ce|
    && forall i :: 0 <= i < |st.ce| && st.ce[i].refcnt > 0 ==>
         r.ce[i].key == st.ce[i].key && r.ce[i].data == st.ce[i].data
  }

  /** Reference counts change at `x` alone, by `by`. */
  ghost predicate RefsChange(st: State, r: State, x: nat, diff: int) {
    && |r.ce| == |st.ce| && x < |st.ce| && r.ce[x].refcnt == st.ce[x].refcnt + diff
    && forall i :: 0 <= i < |st.ce| && i != x ==> r.ce[i].refcnt == st.ce[i].refcnt
  }

  lemma EvictForPinned(st: State, x: nat, bias: nat)
    requires Structured(st) && x < |st.ce| && st.ce[x].refcnt == 0
    ensures var r := EvictFor(st, x, bias);
            KeepsPinned(st, r) && RefsChange(st, r, x, 0) && r.ce[x].key == st.ce[x].key
  {
    var v := Victim(st, bias);
    if v.Some? {
      assert v.value < |st.ce| && st.ce[v.value].refcnt == 0;
    }
  }

  lemma ReclaimForPinned(st: State, x: nat)
    requires Structured(st) && x < |st.ce| && st.ce[x].refcnt == 0
    ensures var r := ReclaimFor(st, x);
            KeepsPinned(st, r) && RefsChange(st, r, x, 0) && r.ce[x].key == st.ce[x].key
  {
    if st.Total() < st.cap {
      var e := st.unused[|st.unused| - 1];
      assert e in st.unused && Placed(st, e);
    } else {
      EvictForPinned(st, x, 0);
    }
  }

  lemma GhostHitPinned(st: State, x: nat)
    requires Structured(st) && x < |st.ce| && st.Ghost(x)
    ensures var r := Ref(GhostHit(st, x), x);
            KeepsPinned(st, r) && RefsChange(st, r, x, 1) && r.ce[x].key == st.ce[x].key
  {
    assert Placed(st, x);
    AdaptKeeps(st, x);
    ReclaimForPinned(Adapt(st, x), x);
  }

  lemma MissPinned(st: State, key: Key)
    requires Structured(st)
    ensures var x, r := Recycled(st), Ref(Miss(st, key), Recycled(st));
            KeepsPinned(st, r) && RefsChange(st, r, x, 1) && r.ce[x].key == key
  {
    var x := Recycled(st);
    assert st.Ghost(x) || x in st.unused;
    assert Placed(st, x);
    EvictForPinned(st, x, 1);
  }

  /** A successful request: one reference to an entry with the requested key. */
  ghost predicate Granted(st: State, key: Key, r: State, x: nat) {
    KeepsPinned(st, r) && RefsChange(st, r, x, 1) && r.ce[x].key == key
  }

  ghost predicate CachedOrInFlight(st: State, key: Key)
    requires Shape(st)
  {
    exists i: nat :: i < |st.ce| && (st.Cached(i) || i in st.flight) && st.ce[i].key == key
  }

  lemma FoundIffThere(st: State, key: Key)
    requires Shape(st)
    ensures CachedOrInFlight(st, key) <==> !Absent(st, key)
  {
    if Lookup(st, key, Prec).Some? {
      assert st.Cached(Lookup(st, key, Prec).value);
    } else if Lookup(st, key, Probe).Some? {
      assert st.Cached(Lookup(st, key, Probe).value);
    }
  }

  lemma GetHitResult(st: State, key: Key)
    requires Structured(st) && !Absent(st, key)
    ensures Get(st, key).1.Some? && Granted(st, key, Get(st, key).0, Get(st, key).1.value)
  {
    hide Structured, Full, Miss, GhostHit, FindKey, Recycled;
  }

  lemma GetAbsentResult(st: State, key: Key)
    requires Structured(st) && !Full(st) && Absent(st, key)
    ensures Get(st, key).1.Some? && Granted(st, key, Get(st, key).0, Get(st, key).1.value)
  {
    if Lookup(st, key, GhostPrec).Some? {
      GhostHitPinned(st, Lookup(st, key, GhostPrec).value);
    } else if Lookup(st, key, GhostProbe).Some? {
      GhostHitPinned(st, Lookup(st, key, GhostProbe).value);
    } else {
      MissPinned(st, key);
    }
  }

  /** What a request returns, even one that starves, if only it finds what it evicts. */
  lemma GetResult(st: State, key: Key)
    requires Structured(st) && Defined(st, key)
    ensures var (r, found) := Get(st, key);
            && (found.Some? ==> Granted(st, key, r, found.value))
            && (found.None? ==> r == st)
            && (found.None? <==> Full(st) && !CachedOrInFlight(st, key))
  {
    FoundIffThere(st, key);
    if CachedOrInFlight(st, key) {
      GetHitResult(st, key);
    } else if !Full(st) {
      GetAbsentResult(st, key);
    }
  }

  /** No operation changes the key or the buffer of an entry that is referenced. */
  lemma StepKeepsPinned(st: State, op: Op)
    requires Structured(st) && Legal(st, op) && DefinedOp(st, op)
    ensures KeepsPinned(st, Step(st, op))
  {
    if op.OpGet? {
      GetResult(st, op.key);
    }
  }

  /** So a reference protects key and buffer until the last one is dropped. */
  lemma {:induction false} PinnedThroughRun(states: seq<State>, ops: seq<Op>, x: nat, n: nat)
    requires Run(states, ops) && n <= |ops| && x < |states[0].ce|
    requires forall k :: 0 <= k < n ==> Structured(states[k]) && DefinedOp(states[k], ops[k])
    requires forall k :: 0 <= k < n ==> Held(states[k], x)
    ensures |states[n].ce| == |states[0].ce|
    ensures states[n].ce[x].key == states[0].ce[x].key && states[n].ce[x].data == states[0].ce[x].data
  {
    if n == 0 {
    } else {
      PinnedThroughRun(states, ops, x, n - 1);
      StepKeepsPinned(states[n - 1], ops[n - 1]);
      assert states[n - 1 + 1] == Step(states[n - 1], ops[n - 1]);
    }
  }
}
