/** What a request does to the partitions and to the target `dprobe`, and what the partitions mean:
    probed entries were requested once, precious ones more often. */
module CacheAdaptation {
  import opened CacheInvariant
  import opened CacheRecency
  import opened CacheRuns
  import opened CacheSpec
  import opened CacheTheorems
  import opened Options
  import opened RingList

  ghost predicate HasKey(st: State, s: seq<nat>, key: Key) {
    exists i: nat :: i in s && i < |st.ce| && st.ce[i].key == key
  }

  /** One of the ghosts. */
  ghost predicate Known(st: State, key: Key) { HasKey(st, st.gprec, key) || HasKey(st, st.gprobe, key) }

  lemma KnownIs(st: State, key: Key)
    requires Shape(st)
    ensures Lookup(st, key, GhostPrec).Some? <==> HasKey(st, st.gprec, key)
    ensures Lookup(st, key, GhostProbe).Some? <==> HasKey(st, st.gprobe, key)
    ensures GhostOf(st, key).Some? <==> Known(st, key)
  {
    KeyIs(st, key, GhostPrec);
    KeyIs(st, key, GhostProbe);
  }

  lemma KeyIs(st: State, key: Key, p: Place)
    requires Shape(st)
    ensures Lookup(st, key, p).Some? <==> HasKey(st, st.At(p), key)
  {
    hide FindKey;
    var r := Lookup(st, key, p);
    if r.Some? { assert r.value in st.At(p); }
    if HasKey(st, st.At(p), key) {
      var i: nat :| i in st.At(p) && i < |st.ce| && st.ce[i].key == key;
    }
  }

  // ---------------------------------------------------------------------------
  // The target

  function Max(a: int, b: int): int { if a >= b then a else b }

  function Min(a: int, b: int): int { if a <= b then a else b }

  /** How many times as large the other ghost partition is, but at least one. */
  function Times(other: nat, hit: nat): nat { if hit == 0 then 1 else Max(1, other / hit) }

  lemma DeltaIs(hit: nat, other: nat)
    requires hit > 0
    ensures Delta(hit, other) == Times(other, hit)
  {
    if other > hit { assert other == hit * (other / hit) + other % hit; }
  }

  lemma EvictKeepsTarget(st: State, x: nat, bias: nat)
    requires Shape(st) && x < |st.ce|
    ensures EvictFor(st, x, bias).dprobe == st.dprobe && EvictFor(st, x, bias).cap == st.cap
  {
    hide Victim;
  }

  lemma GhostHitTarget(st: State, x: nat)
    requires Shape(st) && x < |st.ce| && st.Ghost(x)
    ensures Ref(GhostHit(st, x), x).dprobe == Adapt(st, x).dprobe
  {
    EvictKeepsTarget(Adapt(st, x), x, 0);
    hide EvictFor, Adapt;
  }

  lemma AdaptIs(st: State, x: nat)
    requires Structured(st) && x < |st.ce| && st.Ghost(x)
    ensures Adapt(st, x).dprobe ==
            if x in st.gprec then Max(0, st.dprobe - Times(|st.gprobe|, |st.gprec|))
            else Min(st.cap, st.dprobe + Times(|st.gprec|, |st.gprobe|))
  {
    hide Lists;
    if x in st.gprec { DeltaIs(|st.gprec|, |st.gprobe|); } else { DeltaIs(|st.gprobe|, |st.gprec|); }
    hide Delta, Times;
  }

  /** The cases of a request. */
  lemma GetIs(st: State, key: Key)
    requires Structured(st)
    ensures !Absent(st, key) ==> Get(st, key).1.Some? && Get(st, key).0.dprobe == st.dprobe
    ensures Absent(st, key) && Full(st) ==> Get(st, key) == (st, None)
    ensures Absent(st, key) && !Full(st) ==>
              match GhostOf(st, key)
              case Some(x) => Get(st, key) == (Ref(GhostHit(st, x), x), Some(x))
              case None => Get(st, key) == (Ref(Miss(st, key), Recycled(st)), Some(Recycled(st)))
  {
    hide FindKey, GhostHit, Miss, Recycled, Full, Structured;
  }

  lemma GhostIn(st: State, key: Key)
    requires Structured(st) && GhostOf(st, key).Some?
    ensures GhostOf(st, key).value in st.gprec <==> HasKey(st, st.gprec, key)
    ensures GhostOf(st, key).value in st.gprobe <==> !HasKey(st, st.gprec, key)
  {
    KnownIs(st, key);
    var x := GhostOf(st, key).value;
    Apart(st, x);
    hide FindKey, HasKey, Structured;
  }

  /** The target moves only when a ghost is brought back: down, for a precious one, and up for a probed
      one, and the further the larger the other ghost partition is in comparison. */
  lemma Adaptation(st: State, key: Key)
    requires Structured(st)
    ensures var (r, found) := Get(st, key);
            r.dprobe ==
              if found.None? || CachedOrInFlight(st, key) then st.dprobe
              else if HasKey(st, st.gprec, key) then Max(0, st.dprobe - Times(|st.gprobe|, |st.gprec|))
              else if HasKey(st, st.gprobe, key) then Min(st.cap, st.dprobe + Times(|st.gprec|, |st.gprobe|))
              else st.dprobe
  {
    assert Shape(st);
    FoundIffThere(st, key);
    KnownIs(st, key);
    GetIs(st, key);
    hide Absent, Lookup, Get, GhostOf, GhostHit, Miss, Full, CachedOrInFlight, HasKey, Structured, Shape, Adapt, Times;
    if Absent(st, key) && !Full(st) {
      match GhostOf(st, key)
      case Some(x) =>
        GhostIn(st, key);
        GhostHitTarget(st, x);
        AdaptIs(st, x);
      case None => MissTarget(st, key);
    }
  }

  lemma MissTarget(st: State, key: Key)
    requires Shape(st)
    ensures Ref(Miss(st, key), Recycled(st)).dprobe == st.dprobe
  {
    EvictKeepsTarget(st, Recycled(st), 1);
    hide EvictFor, Recycled;
  }

  lemma OthersKeepTarget(st: State, op: Op)
    requires Shape(st) && Legal(st, op) && !op.OpGet?
    ensures Step(st, op).dprobe == st.dprobe
  {
  }

  // ---------------------------------------------------------------------------
  // Where entries go

  ghost predicate WentThere(st: State, x: nat, v: Option<nat>, i: nat, q: Place) {
    if i == x then q == Flight
    else if v == Some(i) then q == (if i in st.probe then GhostProbe else GhostPrec)
    else i in st.At(q)
  }

  /** Entry `x` goes in flight, and `v`, if there is one, becomes a ghost of its kind; all others stay. */
  ghost predicate Went(st: State, r: State, x: nat, v: Option<nat>) {
    forall i: nat, q: Place :: i in r.At(q) <==> WentThere(st, x, v, i, q)
  }

  ghost predicate FreeIn(st: State, s: seq<nat>) {
    exists i: nat :: i in s && i < |st.ce| && st.ce[i].refcnt == 0
  }

  /** Which entry has to go when a buffer is needed, and there may be one more probed entry soon. */
  ghost predicate IsVictim(st: State, v: nat, bias: nat, dprobe: nat) {
    && v < |st.ce| && st.Cached(v) && st.ce[v].refcnt == 0
    && (v in st.probe <==> FreeIn(st, st.probe) && (!FreeIn(st, st.prec) || |st.probe| + bias > dprobe))
  }

  lemma VictimIs(st: State, bias: nat)
    requires Structured(st) && Victim(st, bias).Some?
    ensures IsVictim(st, Victim(st, bias).value, bias, st.dprobe)
  {
    VictimFacts(st, bias);
    FreeIs(st);
    Apart(st, Victim(st, bias).value);
    hide FirstFree, LastFree, FreeIn, Structured;
  }

  lemma FreeIs(st: State)
    requires Shape(st)
    ensures FirstFree(st.ce, st.probe).Some? <==> FreeIn(st, st.probe)
    ensures LastFree(st.ce, st.prec).Some? <==> FreeIn(st, st.prec)
  {
    hide FirstFree, LastFree;
    var p, q := FirstFree(st.ce, st.probe), LastFree(st.ce, st.prec);
    if p.Some? { assert p.value in st.probe; }
    if q.Some? { assert q.value in st.prec; }
  }

  /** With an eviction, or without. */
  lemma LaunchMoves(st: State, filled: State, x: nat, bias: nat, v: Option<nat>)
    requires Shape(st) && Partition(st) && x < |st.ce| && !st.Cached(x)
    requires v.Some? ==> Victim(st, bias) == v && v.value < |st.ce| && v.value != x
                         && filled.(ce := st.ce)
                            == Move(st, v.value, if v.value in st.probe then GhostProbe else GhostPrec)
    requires v.None? ==> filled.(ce := st.ce) == st
    ensures Went(st, Move(filled, x, Flight), x, v)
  {
    hide Move, Partition;
    var base := filled.(ce := st.ce);
    if v.Some? { MoveFacts(st, v.value, if v.value in st.probe then GhostProbe else GhostPrec); }
    MoveFacts(base, x, Flight);
    SameMoves(filled, base, x);
    forall i: nat, q: Place
      ensures i in Move(filled, x, Flight).At(q) <==>
              if i == x then q == Flight
              else if v == Some(i) then q == (if i in st.probe then GhostProbe else GhostPrec)
              else i in st.At(q)
    {
      assert i in Move(base, x, Flight).At(q) <==> if i == x then q == Flight else i in base.At(q);
    }
  }

  lemma SameMoves(a: State, b: State, x: nat)
    requires b == a.(ce := b.ce)
    ensures forall q :: Move(a, x, Flight).At(q) == Move(b, x, Flight).At(q)
  {
    hide Del;
  }

  /** Entry `x` has got a buffer, that of `v` if there is a victim. */
  ghost predicate Filled(st: State, f: State, x: nat, v: Option<nat>, data: Option<Buffer>)
    requires x < |st.ce| && (v.Some? ==> v.value < |st.ce|)
  {
    && |f.ce| == |st.ce| && f.ce[x] == st.ce[x].(data := data)
    && (v.Some? ==> v.value != x && f.ce[v.value] == st.ce[v.value].(data := None) && data == st.ce[v.value].data)
    && forall i :: 0 <= i < |st.ce| && i != x && v != Some(i) ==> f.ce[i].(data := st.ce[i].data) == st.ce[i]
  }

  /** What becomes of the entries. */
  ghost predicate Rewritten(st: State, r: State, x: nat, v: Option<nat>, key: Key, state: EntryState,
                            data: Option<Buffer>)
    requires x < |st.ce| && (v.Some? ==> v.value < |st.ce|)
  {
    && |r.ce| == |st.ce| && r.ce[x] == Entry(key, state, st.ce[x].refcnt + 1, data)
    && (v.Some? ==> v.value != x && r.ce[v.value] == st.ce[v.value].(data := None) && data == st.ce[v.value].data)
    && forall i :: 0 <= i < |st.ce| && i != x && v != Some(i) ==> r.ce[i].(data := st.ce[i].data) == st.ce[i]
  }

  lemma TakesFromUnused(a: State, x: nat)
    requires Structured(a) && x < |a.ce| && a.Ghost(x) && a.Spare() > 0
    ensures var data := a.ce[a.unused[|a.unused| - 1]].data;
            Went(a, Move(ReclaimFor(a, x), x, Flight), x, None) && Filled(a, ReclaimFor(a, x), x, None, data)
  {
    hide Went, Structured, Move, Filled, ReclaimFor;
    ReclaimIs(a, x);
    LaunchMoves(a, ReclaimFor(a, x), x, 0, None);
  }

  lemma ReclaimIs(a: State, x: nat)
    requires Structured(a) && x < |a.ce| && a.Ghost(x) && a.Spare() > 0
    ensures ReclaimFor(a, x).(ce := a.ce) == a && Shape(a) && Partition(a) && !a.Cached(x)
    ensures Filled(a, ReclaimFor(a, x), x, None, a.ce[a.unused[|a.unused| - 1]].data)
  {
    var e := a.unused[|a.unused| - 1];
    Apart(a, x);
    assert e in a.unused;
    hide Structured, Partition;
  }

  lemma TakesFromVictim(a: State, x: nat, bias: nat)
    requires Structured(a) && x < |a.ce| && !a.Cached(x) && Victim(a, bias).Some?
    ensures var v := Victim(a, bias).value;
      && IsVictim(a, v, bias, a.dprobe)
      && Went(a, Move(EvictFor(a, x, bias), x, Flight), x, Some(v))
      && Filled(a, EvictFor(a, x, bias), x, Some(v), a.ce[v].data)
  {
    hide Went, Structured, Move, Victim, EvictFor, IsVictim, Filled;
    VictimIs(a, bias);
    EvictIs(a, x, bias);
    LaunchMoves(a, EvictFor(a, x, bias), x, bias, Victim(a, bias));
  }

  lemma EvictIs(a: State, x: nat, bias: nat)
    requires Structured(a) && x < |a.ce| && !a.Cached(x) && Victim(a, bias).Some?
    ensures Shape(a) && Partition(a) && Victim(a, bias).value < |a.ce| && Victim(a, bias).value != x
    ensures var v := Victim(a, bias).value;
      && EvictFor(a, x, bias).(ce := a.ce) == Move(a, v, if v in a.probe then GhostProbe else GhostPrec)
      && Filled(a, EvictFor(a, x, bias), x, Some(v), a.ce[v].data)
  {
    var v := Victim(a, bias).value;
    VictimFacts(a, bias);
    EvictForShape(a, x, bias, v, if v in a.probe then GhostProbe else GhostPrec);
    hide Structured, Move, Victim, EvictFor;
  }

  lemma RefWent(st: State, m: State, x: nat, e: Entry, v: Option<nat>)
    requires x < |m.ce| && Went(st, m, x, v)
    ensures Went(st, Ref(SetEntry(m, x, e), x), x, v)
  {
    forall q ensures Ref(SetEntry(m, x, e), x).At(q) == m.At(q) { }
  }

  lemma LaunchResult(st: State, f: State, x: nat, v: Option<nat>, key: Key, state: EntryState, data: Option<Buffer>)
    requires x < |st.ce| && (v.Some? ==> v.value < |st.ce|) && Filled(st, f, x, v, data)
    requires Went(st, Move(f, x, Flight), x, v)
    ensures var r := Ref(SetEntry(Move(f, x, Flight), x, f.ce[x].(key := key, state := state)), x);
            Went(st, r, x, v) && Rewritten(st, r, x, v, key, state, data)
  {
    hide Went, Move;
    MoveKeepsEntries(f, x, Flight);
    RefWent(st, Move(f, x, Flight), x, f.ce[x].(key := key, state := state), v);
    RefSetEntry(Move(f, x, Flight), x, f.ce[x].(key := key, state := state));
  }

  /** A ghost that is brought back. */
  lemma GhostMoves(st: State, x: nat) returns (v: Option<nat>)
    requires Structured(st) && x < |st.ce| && st.Ghost(x) && (st.Spare() > 0 || Victim(Adapt(st, x), 0).Some?)
    ensures v == if st.Spare() > 0 then None else Victim(Adapt(st, x), 0)
    ensures v.Some? <==> st.Spare() <= 0
    ensures v.Some? ==> IsVictim(st, v.value, 0, Adapt(st, x).dprobe)
    ensures var r := Ref(GhostHit(st, x), x);
      && Went(st, r, x, v)
      && Rewritten(st, r, x, v, st.ce[x].key, CsPrecious,
                   if v.Some? then st.ce[v.value].data else st.ce[st.unused[|st.unused| - 1]].data)
  {
    var a := Adapt(st, x);
    GhostAdapted(st, x);
    hide Adapt, GhostHit, Went, Rewritten, Structured, Shape, Victim, EvictFor, IsVictim, Filled, ReclaimFor, Move, Ref,
         SetEntry;
    GhostHitBy(st, x);
    var data;
    if a.Spare() > 0 {
      v, data := None, a.ce[a.unused[|a.unused| - 1]].data;
      TakesFromUnused(a, x);
    } else {
      v, data := Victim(a, 0), a.ce[Victim(a, 0).value].data;
      TakesFromVictim(a, x, 0);
    }
    LaunchResult(a, ReclaimFor(a, x), x, v, a.ce[x].key, CsPrecious, data);
    AdaptedSame(st, a, Ref(GhostHit(st, x), x), x, v, a.ce[x].key, CsPrecious, data);
  }

  lemma GhostAdapted(st: State, x: nat)
    requires Structured(st) && x < |st.ce| && st.Ghost(x)
    ensures var a := Adapt(st, x);
            && Structured(a) && Shape(a) && a.Ghost(x) && !a.Cached(x) && a.ce == st.ce && a.unused == st.unused
            && a.Spare() == st.Spare() && Shape(st)
  {
    AdaptKeeps(st, x);
    Apart(st, x);
    hide Adapt;
  }

  lemma GhostHitBy(st: State, x: nat)
    requires Structured(st) && x < |st.ce| && st.Ghost(x)
    ensures var a := Adapt(st, x); var f := ReclaimFor(a, x);
      && GhostHit(st, x) == SetEntry(Move(f, x, Flight), x, f.ce[x].(state := CsPrecious))
      && (a.Spare() == 0 ==> f == EvictFor(a, x, 0))
      && (a.Spare() > 0 || Victim(a, 0).Some? ==> f.ce[x].key == a.ce[x].key)
  {
    var a := Adapt(st, x);
    var v := Victim(a, 0);
    hide Adapt, Move, Structured, Victim;
    if a.Spare() == 0 && v.Some? { assert v.value in a.probe || v.value in a.prec by { VictimFacts(a, 0); } }
  }

  /** The target does not matter for where entries are. */
  lemma AdaptedSame(st: State, a: State, r: State, x: nat, v: Option<nat>, key: Key, state: EntryState,
                    data: Option<Buffer>)
    requires a == st.(dprobe := a.dprobe) && x < |st.ce| && (v.Some? ==> v.value < |st.ce|)
    ensures Went(a, r, x, v) ==> Went(st, r, x, v)
    ensures Rewritten(a, r, x, v, key, state, data) ==> Rewritten(st, r, x, v, key, state, data)
    ensures v.Some? && IsVictim(a, v.value, 0, a.dprobe) ==> IsVictim(st, v.value, 0, a.dprobe)
  {
    forall q ensures a.At(q) == st.At(q) { }
  }

  /** A new key: an unused entry is taken, or else the oldest ghost. */
  lemma MissMoves(st: State, key: Key) returns (v: Option<nat>)
    requires Structured(st) && !Full(st) && (st.ce[Recycled(st)].data.Some? || Victim(st, 1).Some?)
    ensures var x := Recycled(st);
      && v == (if st.ce[x].data.Some? then None else Victim(st, 1)) && (v.None? <==> st.ce[x].data.Some?)
      && (v.Some? ==> IsVictim(st, v.value, 1, st.dprobe))
      && Went(st, Ref(Miss(st, key), x), x, v)
      && Rewritten(st, Ref(Miss(st, key), x), x, v, key, CsProbe,
                   if v.Some? then st.ce[v.value].data else st.ce[x].data)
  {
    var x := Recycled(st);
    var from := RecycledPlace(st);
    hide Recycled, Went, Rewritten, Structured, Victim, EvictFor, IsVictim, Filled, Move;
    if st.ce[x].data.Some? {
      v := None;
      TakesOwn(st, x);
      LaunchResult(st, st, x, v, key, CsProbe, st.ce[x].data);
    } else {
      v := Victim(st, 1);
      TakesFromVictim(st, x, 1);
      LaunchResult(st, EvictFor(st, x, 1), x, v, key, CsProbe, st.ce[v.value].data);
    }
  }

  lemma TakesOwn(st: State, x: nat)
    requires Structured(st) && x < |st.ce| && !st.Cached(x)
    ensures Went(st, Move(st, x, Flight), x, None) && Filled(st, st, x, None, st.ce[x].data)
  {
    LaunchMoves(st, st, x, 0, None);
    hide Went, Move;
  }

  /** The oldest ghost, or an unused entry. */
  ghost predicate IsRecycled(st: State, x: nat) {
    && x < |st.ce|
    && if st.unused != [] then x == st.unused[|st.unused| - 1]
       else if st.gprobe != [] then x == st.gprobe[0]
       else st.gprec != [] && x == st.gprec[|st.gprec| - 1]
  }

  /** A request for what is neither cached nor in flight: a ghost of that key is brought back as a precious
      entry, and a new key gets a probed one.  Without a spare buffer, that of a victim is taken: the kind of
      the victim is probed if that partition exceeds the target, counting a new key in. */
  lemma RequestMoves(st: State, key: Key) returns (x: nat, v: Option<nat>, data: Option<Buffer>)
    requires Structured(st) && Defined(st, key) && Get(st, key).1.Some? && !CachedOrInFlight(st, key)
    ensures Get(st, key).1 == Some(x) && x < |st.ce| && (v.Some? ==> v.value < |st.ce|)
    ensures if Known(st, key) then st.Ghost(x) && st.ce[x].key == key else IsRecycled(st, x)
    ensures v.None? <==> if Known(st, key) then st.Spare() > 0 else st.ce[x].data.Some?
    ensures v.Some? ==> IsVictim(st, v.value, if Known(st, key) then 0 else 1, Get(st, key).0.dprobe)
    ensures Went(st, Get(st, key).0, x, v)
    ensures Rewritten(st, Get(st, key).0, x, v, key, if Known(st, key) then CsPrecious else CsProbe, data)
    ensures v.None? ==> data == if Known(st, key) then st.ce[st.unused[|st.unused| - 1]].data else st.ce[x].data
  {
    FoundIffThere(st, key);
    KnownIs(st, key);
    GetIs(st, key);
    assert Shape(st);
    hide Absent, Lookup, Get, GhostOf, GhostHit, Miss, Full, CachedOrInFlight, Known, Structured, Shape, Adapt, Went,
         Rewritten, IsVictim, Victim;
    match GhostOf(st, key)
    case Some(g) =>
      x := g;
      GhostHitTarget(st, x);
      v := GhostMoves(st, x);
      data := if v.Some? then st.ce[v.value].data else st.ce[st.unused[|st.unused| - 1]].data;
    case None =>
      x := Recycled(st);
      MissTarget(st, key);
      v := MissMoves(st, key);
      data := if v.Some? then st.ce[v.value].data else st.ce[x].data;
  }
}
