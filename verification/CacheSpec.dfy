/** What the entry cache of `src/kdumpfile/cache.c` computes, with its ring cut open
    into the five partitions.  All sequences hold entry indices in `next` order. */
module CacheSpec {
  import opened Options
  import opened RingList

  type Key = nat
  /** Number of an element-sized buffer in the data area. */
  type Buffer = nat

  /** `enum cache_state` */
  datatype EntryState = CsValid | CsProbe | CsPrecious

  /** `struct cache_entry` without its links. */
  datatype Entry = Entry(key: Key, state: EntryState, refcnt: nat, data: Option<Buffer>)

  datatype Place = Prec | GhostPrec | Unused | GhostProbe | Probe | Flight

  datatype State = State(
    cap: nat, dprobe: nat,
    prec: seq<nat>,    // precious, most recently used first
    gprec: seq<nat>,   // ghost precious, most recently used first
    unused: seq<nat>,
    gprobe: seq<nat>,  // ghost probed, most recently used last
    probe: seq<nat>,   // probed, most recently used last
    flight: seq<nat>,  // in flight, oldest first
    ce: seq<Entry>)
  {
    /** The main ring, starting behind `split` and ending with it. */
    function Ring(): seq<nat> {
      prec + gprec + unused + gprobe + probe
    }

    function At(p: Place): seq<nat> {
      match p
      case Prec => prec
      case GhostPrec => gprec
      case Unused => unused
      case GhostProbe => gprobe
      case Probe => probe
      case Flight => flight
    }

    /** Entries that hold data or are about to. */
    function Total(): nat {
      |prec| + |probe| + |flight|
    }

    /** Number of buffers not owned by such an entry. */
    function Spare(): int {
      cap - Total()
    }

    predicate Cached(i: nat) { i in prec || i in probe }

    predicate Ghost(i: nat) { i in gprec || i in gprobe }

    predicate Live(i: nat) { Cached(i) || Ghost(i) || i in flight }
  }

  // ---------------------------------------------------------------------------
  // Lists of entry indices

  /** `s` without the first occurrence of `x`. */
  function Del(s: seq<nat>, x: nat): seq<nat> {
    if s == [] then [] else if s[0] == x then s[1..] else [s[0]] + Del(s[1..], x)
  }

  ghost function FindKey(ce: seq<Entry>, s: seq<nat>, key: Key): (r: Option<nat>)
    requires Below(s, |ce|)
    ensures r.Some? ==> r.value in s && r.value < |ce| && ce[r.value].key == key
    ensures r.None? ==> forall i :: i in s ==> ce[i].key != key
  {
    if s == [] then None
    else if ce[s[0]].key == key then Some(s[0])
    else FindKey(ce, s[1..], key)
  }

  /** The first entry of `s` without references. */
  ghost function FirstFree(ce: seq<Entry>, s: seq<nat>): (r: Option<nat>)
    requires Below(s, |ce|)
    ensures r.Some? ==> r.value in s && r.value < |ce| && ce[r.value].refcnt == 0
    ensures r.None? ==> forall i :: i in s ==> ce[i].refcnt != 0
  {
    if s == [] then None
    else if ce[s[0]].refcnt == 0 then Some(s[0])
    else FirstFree(ce, s[1..])
  }

  /** The last entry of `s` without references. */
  ghost function LastFree(ce: seq<Entry>, s: seq<nat>): (r: Option<nat>)
    requires Below(s, |ce|)
    ensures r.Some? ==> r.value in s && r.value < |ce| && ce[r.value].refcnt == 0
    ensures r.None? ==> forall i :: i in s ==> ce[i].refcnt != 0
  {
    if s == [] then None
    else if ce[s[|s| - 1]].refcnt == 0 then Some(s[|s| - 1])
    else LastFree(ce, s[..|s| - 1])
  }

  /** Number of entries of `s` with references. */
  ghost function InUse(ce: seq<Entry>, s: seq<nat>): (r: nat)
    requires Below(s, |ce|)
    ensures r <= |s|
    ensures r == |s| <==> forall i :: i in s ==> ce[i].refcnt != 0
  {
    if s == [] then 0
    else InUse(ce, s[..|s| - 1]) + if ce[s[|s| - 1]].refcnt == 0 then 0 else 1
  }

  // ---------------------------------------------------------------------------
  // The operations

  /** The lists hold indices of entries, and together as many as there are entries. */
  ghost predicate Sized(st: State) {
    && st.cap > 0 && |st.ce| == 2 * st.cap
    && Below(st.prec, |st.ce|) && Below(st.gprec, |st.ce|) && Below(st.unused, |st.ce|)
    && Below(st.gprobe, |st.ce|) && Below(st.probe, |st.ce|) && Below(st.flight, |st.ce|)
    && |st.Ring()| + |st.flight| == 2 * st.cap
  }

  /** Enough structure for the operations to be defined. */
  ghost predicate Shape(st: State) {
    Sized(st) && st.Total() <= st.cap && |st.unused| >= st.Spare()
  }

  /** Take entry `x` off its list and add it to the list at `p`: at the end where the
      most recently used entry goes, and for `Unused` at the end next to the ghosts. */
  ghost function Move(st: State, x: nat, p: Place): State {
    st.(prec := if p == Prec then [x] + Del(st.prec, x) else Del(st.prec, x),
        gprec := if p == GhostPrec then [x] + Del(st.gprec, x) else Del(st.gprec, x),
        unused := if p == Unused then Del(st.unused, x) + [x] else Del(st.unused, x),
        gprobe := if p == GhostProbe then Del(st.gprobe, x) + [x] else Del(st.gprobe, x),
        probe := if p == Probe then Del(st.probe, x) + [x] else Del(st.probe, x),
        flight := if p == Flight then Del(st.flight, x) + [x] else Del(st.flight, x))
  }

  ghost function SetEntry(st: State, x: nat, e: Entry): State
    requires x < |st.ce|
  {
    st.(ce := st.ce[x := e])
  }

  /** Which entry `evict_entry` turns into a ghost.  Without unreferenced entries the source
      uses an index that was never set; `Defined` says which requests do not get there. */
  ghost function Victim(st: State, bias: nat): Option<nat>
    requires Shape(st)
  {
    var zprobe, zprec := FirstFree(st.ce, st.probe), LastFree(st.ce, st.prec);
    if zprobe.Some? && (zprec.None? || |st.probe| + bias > st.dprobe) then zprobe else zprec
  }

  /** `evict_entry`, then handing the buffer of the victim to entry `x`. */
  ghost function EvictFor(st: State, x: nat, bias: nat): (r: State)
    requires Shape(st) && x < |st.ce|
    ensures |r.ce| == |st.ce|
  {
    match Victim(st, bias)
    case None => st
    case Some(v) =>
      var moved := Move(st, v, if v in st.probe then GhostProbe else GhostPrec);
      moved.(ce := st.ce[x := st.ce[x].(data := st.ce[v].data)][v := st.ce[v].(data := None)])
  }

  /** `reclaim_data`, with the result stored in ghost entry `x`. */
  ghost function ReclaimFor(st: State, x: nat): (r: State)
    requires Shape(st) && x < |st.ce|
    ensures |r.ce| == |st.ce|
  {
    if st.Total() < st.cap then
      var e := st.unused[|st.unused| - 1];
      st.(ce := st.ce[x := st.ce[x].(data := st.ce[e].data)][e := st.ce[e].(data := None)])
    else
      EvictFor(st, x, 0)
  }

  /** How far a ghost hit moves `dprobe`, given the sizes of the hit and of the other
      ghost partition. */
  function Delta(hit: nat, other: nat): nat
    requires hit > 0
  {
    if other > hit then other / hit else 1
  }

  /** The adaptation of `dprobe` when ghost `x` is hit. */
  ghost function Adapt(st: State, x: nat): (r: State)
    requires Shape(st) && st.Ghost(x)
    ensures Shape(r)
    ensures r == st.(dprobe := r.dprobe)
  {
    if x in st.gprec then
      var delta := Delta(|st.gprec|, |st.gprobe|);
      st.(dprobe := if st.dprobe > delta then st.dprobe - delta else 0)
    else
      var delta := Delta(|st.gprobe|, |st.gprec|);
      st.(dprobe := if st.dprobe + delta < st.cap then st.dprobe + delta else st.cap)
  }

  /** A key found among the ghosts: `x` becomes an in-flight entry. */
  ghost function GhostHit(st: State, x: nat): (r: State)
    requires Shape(st) && x < |st.ce| && st.Ghost(x)
    ensures |r.ce| == |st.ce|
  {
    var filled := ReclaimFor(Adapt(st, x), x);
    SetEntry(Move(filled, x, Flight), x, filled.ce[x].(state := CsPrecious))
  }

  /** The entry that `get_missed_entry` uses for a new key. */
  ghost function Recycled(st: State): (x: nat)
    requires Shape(st)
    ensures x < |st.ce|
  {
    if st.unused != [] then st.unused[|st.unused| - 1]
    else if st.gprobe != [] then st.gprobe[0]
    else st.gprec[|st.gprec| - 1]
  }

  /** `get_missed_entry` */
  ghost function Miss(st: State, key: Key): (r: State)
    requires Shape(st)
    ensures |r.ce| == |st.ce|
  {
    var x := Recycled(st);
    var filled := if st.ce[x].data.None? then EvictFor(st, x, 1) else st;
    SetEntry(Move(filled, x, Flight), x, filled.ce[x].(key := key, state := CsProbe))
  }

  ghost function Ref(st: State, x: nat): State
    requires x < |st.ce|
  {
    SetEntry(st, x, st.ce[x].(refcnt := st.ce[x].refcnt + 1))
  }

  ghost predicate Full(st: State)
    requires Shape(st)
  {
    InUse(st.ce, st.prec) + InUse(st.ce, st.probe) + |st.flight| >= st.cap
  }

  /** Where a key was found. */
  ghost function Lookup(st: State, key: Key, p: Place): (r: Option<nat>)
    requires Shape(st)
    ensures r.Some? ==> r.value in st.At(p) && r.value < |st.ce| && st.ce[r.value].key == key
    ensures r.None? ==> forall i :: i in st.At(p) ==> st.ce[i].key != key
  {
    FindKey(st.ce, st.At(p), key)
  }

  /** Neither cached nor in flight. */
  ghost predicate Absent(st: State, key: Key)
    requires Shape(st)
  {
    Lookup(st, key, Prec).None? && Lookup(st, key, Probe).None? && Lookup(st, key, Flight).None?
  }

  /** The ghost with a given key. */
  ghost function GhostOf(st: State, key: Key): (r: Option<nat>)
    requires Shape(st)
    ensures r.Some? ==> r.value < |st.ce| && st.Ghost(r.value) && st.ce[r.value].key == key
    ensures r.None? ==> forall i: nat :: i in st.gprec + st.gprobe ==> st.ce[i].key != key
  {
    if Lookup(st, key, GhostPrec).Some? then Lookup(st, key, GhostPrec) else Lookup(st, key, GhostProbe)
  }

  /** Whenever a request evicts, there is an entry to evict. */
  ghost predicate Defined(st: State, key: Key)
    requires Shape(st)
  {
    Absent(st, key) && !Full(st) ==>
      match GhostOf(st, key)
      case Some(x) => st.Total() < st.cap || Victim(Adapt(st, x), 0).Some?
      case None => st.ce[Recycled(st)].data.Some? || Victim(st, 1).Some?
  }

  /** `cache_get_entry` */
  ghost function Get(st: State, key: Key): (r: (State, Option<nat>))
    requires Shape(st)
  {
    if Lookup(st, key, Prec).Some? then
      var x := Lookup(st, key, Prec).value; (Ref(Move(st, x, Prec), x), Some(x))
    else if Lookup(st, key, Probe).Some? then
      var x := Lookup(st, key, Probe).value; (Ref(Move(st, x, Prec), x), Some(x))
    else if Lookup(st, key, Flight).Some? then
      var x := Lookup(st, key, Flight).value;
      (Ref(SetEntry(st, x, st.ce[x].(state := CsPrecious)), x), Some(x))
    else if Full(st) then (st, None)
    else if Lookup(st, key, GhostPrec).Some? then
      var x := Lookup(st, key, GhostPrec).value; (Ref(GhostHit(st, x), x), Some(x))
    else if Lookup(st, key, GhostProbe).Some? then
      var x := Lookup(st, key, GhostProbe).value; (Ref(GhostHit(st, x), x), Some(x))
    else
      (Ref(Miss(st, key), Recycled(st)), Some(Recycled(st)))
  }

  /** `cache_insert` */
  ghost function Insert(st: State, x: nat): State
    requires x < |st.ce|
  {
    if st.ce[x].state == CsValid then st
    else SetEntry(Move(st, x, if st.ce[x].state == CsProbe then Probe else Prec), x, st.ce[x].(state := CsValid))
  }

  /** `cache_put_entry` */
  ghost function Put(st: State, x: nat): State
    requires x < |st.ce| && st.ce[x].refcnt > 0
  {
    SetEntry(st, x, st.ce[x].(refcnt := st.ce[x].refcnt - 1))
  }

  /** `cache_discard` */
  ghost function Discard(st: State, x: nat): State
    requires x < |st.ce| && st.ce[x].refcnt > 0
  {
    var dropped := Put(st, x);
    if dropped.ce[x].refcnt > 0 || dropped.ce[x].state == CsValid then dropped
    else Move(dropped, x, Unused)
  }

  /** `cache_flush` */
  ghost function Flushed(cap: nat, ce: seq<Entry>): State
    requires |ce| == 2 * cap
  {
    State(cap, 0, [], [], seq(2 * cap, i requires 0 <= i < 2 * cap => 2 * cap - 1 - i), [], [], [],
          seq(2 * cap, i requires 0 <= i < 2 * cap =>
            ce[i].(refcnt := 0, data := if i < cap then Some(i) else None)))
  }
}
