/** A run that shows why the run disciplines are needed: two discards while two entries
    are in flight, then a request for a ghost.  After it the cache is sound, but requests starve. */
module CacheOvertaking {
  import opened CacheInvariant
  import opened CacheRuns
  import opened CacheSpec
  import opened Options
  import opened RingList

  ghost function E(key: Key, state: EntryState, refcnt: nat, data: Option<Buffer>): Entry {
    Entry(key, state, refcnt, data)
  }

  ghost const BLANK: seq<Entry> := seq(4, _ => Entry(0, CsProbe, 0, None))

  ghost function S(dprobe: nat, unused: seq<nat>, gprobe: seq<nat>, probe: seq<nat>, flight: seq<nat>,
                   ce: seq<Entry>): State {
    State(2, dprobe, [], [], unused, gprobe, probe, flight, ce)
  }

  /** The states of the run, in order. */
  ghost function StateAt(k: nat): State {
    match k
    case 0 => S(0, [3, 2, 1, 0], [], [], [],
      [E(0, CsProbe, 0, Some(0)), E(0, CsProbe, 0, Some(1)), E(0, CsProbe, 0, None), E(0, CsProbe, 0, None)])
    case 1 => S(0, [3, 2, 1], [], [], [0],
      [E(10, CsProbe, 1, Some(0)), E(0, CsProbe, 0, Some(1)), E(0, CsProbe, 0, None), E(0, CsProbe, 0, None)])
    case 2 => S(0, [3, 2, 1], [], [0], [],
      [E(10, CsValid, 1, Some(0)), E(0, CsProbe, 0, Some(1)), E(0, CsProbe, 0, None), E(0, CsProbe, 0, None)])
    case 3 => S(0, [3, 2, 1], [], [0], [],
      [E(10, CsValid, 0, Some(0)), E(0, CsProbe, 0, Some(1)), E(0, CsProbe, 0, None), E(0, CsProbe, 0, None)])
    case 4 => S(0, [3, 2], [], [0], [1],
      [E(10, CsValid, 0, Some(0)), E(11, CsProbe, 1, Some(1)), E(0, CsProbe, 0, None), E(0, CsProbe, 0, None)])
    case 5 => S(0, [3, 2], [], [0, 1], [],
      [E(10, CsValid, 0, Some(0)), E(11, CsValid, 1, Some(1)), E(0, CsProbe, 0, None), E(0, CsProbe, 0, None)])
    case 6 => S(0, [3, 2], [], [0, 1], [],
      [E(10, CsValid, 0, Some(0)), E(11, CsValid, 0, Some(1)), E(0, CsProbe, 0, None), E(0, CsProbe, 0, None)])
    case 7 => S(0, [3], [0], [1], [2],
      [E(10, CsValid, 0, None), E(11, CsValid, 0, Some(1)), E(12, CsProbe, 1, Some(0)), E(0, CsProbe, 0, None)])
    case 8 => S(0, [], [0, 1], [], [2, 3],
      [E(10, CsValid, 0, None), E(11, CsValid, 0, None), E(12, CsProbe, 1, Some(0)), E(13, CsProbe, 1, Some(1))])
    case 9 => S(0, [2], [0, 1], [], [3],
      [E(10, CsValid, 0, None), E(11, CsValid, 0, None), E(12, CsProbe, 0, Some(0)), E(13, CsProbe, 1, Some(1))])
    case 10 => S(0, [2, 3], [0, 1], [], [],
      [E(10, CsValid, 0, None), E(11, CsValid, 0, None), E(12, CsProbe, 0, Some(0)), E(13, CsProbe, 0, Some(1))])
    case 11 => S(1, [2, 3], [1], [], [0],
      [E(10, CsPrecious, 1, Some(1)), E(11, CsValid, 0, None), E(12, CsProbe, 0, Some(0)), E(13, CsProbe, 0, None)])
    case _ => S(2, [2, 3], [], [], [0, 1],
      [E(10, CsPrecious, 1, Some(1)), E(11, CsPrecious, 1, None), E(12, CsProbe, 0, Some(0)), E(13, CsProbe, 0, None)])
  }

  // Lists of at most three elements, computed.

  lemma Del1(a: nat, x: nat)
    ensures Del([a], x) == if a == x then [] else [a]
  {
    assert [a][1..] == [];
  }

  lemma Del2(a: nat, b: nat, x: nat)
    ensures Del([a, b], x) == if a == x then [b] else [a] + Del([b], x)
  {
    assert [a, b][1..] == [b];
  }

  lemma Del3(a: nat, b: nat, c: nat, x: nat)
    ensures Del([a, b, c], x) == if a == x then [b, c] else [a] + Del([b, c], x)
  {
    assert [a, b, c][1..] == [b, c];
  }

  lemma Lookup1(ce: seq<Entry>, a: nat, key: Key)
    requires a < |ce|
    ensures FindKey(ce, [a], key) == if ce[a].key == key then Some(a) else None
    ensures FirstFree(ce, [a]) == LastFree(ce, [a]) == if ce[a].refcnt == 0 then Some(a) else None
    ensures InUse(ce, [a]) == if ce[a].refcnt == 0 then 0 else 1
  {
    assert [a][1..] == [] && [a][..0] == [];
  }

  lemma Lookup2(ce: seq<Entry>, a: nat, b: nat, key: Key)
    requires a < |ce| && b < |ce|
    ensures FindKey(ce, [a, b], key) == if ce[a].key == key then Some(a) else FindKey(ce, [b], key)
    ensures FirstFree(ce, [a, b]) == if ce[a].refcnt == 0 then Some(a) else FirstFree(ce, [b])
    ensures InUse(ce, [a, b]) == InUse(ce, [a]) + if ce[b].refcnt == 0 then 0 else 1
  {
    assert [a, b][1..] == [b] && [a, b][..1] == [a];
  }

  lemma Lookup0(ce: seq<Entry>, key: Key)
    ensures FindKey(ce, [], key) == None && FirstFree(ce, []) == LastFree(ce, []) == None && InUse(ce, []) == 0
  {
  }

  // The steps one by one.

  lemma Get1() ensures Get(StateAt(0), 10).0 == StateAt(1) { }

  lemma Insert2()
    ensures Insert(StateAt(1), 0) == StateAt(2)
  {
    Del1(0, 0);
    Del3(3, 2, 1, 0); Del2(2, 1, 0); Del1(1, 0);
    assert Move(StateAt(1), 0, Probe) == S(0, [3, 2, 1], [], [0], [], StateAt(1).ce);
  }

  lemma Put3() ensures Put(StateAt(2), 0) == StateAt(3) { }

  lemma Get4()
    ensures Get(StateAt(3), 11).0 == StateAt(4)
  {
    hide FindKey, InUse, FirstFree, LastFree;
    Lookup0(StateAt(3).ce, 11);
    Lookup1(StateAt(3).ce, 0, 11);
    Del1(0, 1);
    Del3(3, 2, 1, 1); Del2(2, 1, 1); Del1(1, 1);
  }

  lemma Insert5() ensures Insert(StateAt(4), 1) == StateAt(5) { }

  lemma Put6() ensures Put(StateAt(5), 1) == StateAt(6) { }

  ghost predicate Unknown(st: State, key: Key)
    requires Shape(st)
  {
    && Lookup(st, key, Prec).None? && Lookup(st, key, Probe).None? && Lookup(st, key, Flight).None?
    && Lookup(st, key, GhostPrec).None? && Lookup(st, key, GhostProbe).None?
  }

  /** A miss that evicts, put together from its parts. */
  lemma MissByEviction(st: State, key: Key, x: nat, v: nat, filled: State, m: State)
    requires Shape(st) && x < |st.ce| && v < |st.ce| && x != v
    requires Unknown(st, key) && !Full(st)
    requires Recycled(st) == x && st.ce[x].data.None?
    requires EvictFor(st, x, 1) == filled && m == Move(filled, x, Flight)
    ensures Get(st, key).0 == Ref(SetEntry(m, x, filled.ce[x].(key := key, state := CsProbe)), x)
  {
  }

  ghost const ENTRIES_6: seq<Entry> :=
      [E(10, CsValid, 0, None), E(11, CsValid, 0, Some(1)), E(0, CsProbe, 0, Some(0)), E(0, CsProbe, 0, None)]

  lemma Leave6()
    ensures Move(StateAt(6), 0, GhostProbe) == S(0, [3, 2], [0], [1], [], StateAt(6).ce)
  {
    Del2(0, 1, 0); Del1(1, 0); Del2(3, 2, 0); Del1(2, 0);
  }

  lemma Evict6()
    ensures EvictFor(StateAt(6), 2, 1) == S(0, [3, 2], [0], [1], [], ENTRIES_6)
  {
    Lookup2(StateAt(6).ce, 0, 1, 12);
    Leave6();
    var ce := StateAt(6).ce;
    assert ENTRIES_6 == ce[2 := ce[2].(data := ce[0].data)][0 := ce[0].(data := None)];
    EvictForShape(StateAt(6), 2, 1, 0, GhostProbe);
  }

  lemma Unknown6()
    ensures Shape(StateAt(6)) && Unknown(StateAt(6), 12) && !Full(StateAt(6)) && Recycled(StateAt(6)) == 2
    ensures |StateAt(6).ce| == 4 && StateAt(6).ce[2].data.None?
  {
    hide FindKey, InUse, FirstFree, LastFree;
    Lookup0(StateAt(6).ce, 12);
    Lookup2(StateAt(6).ce, 0, 1, 12); Lookup1(StateAt(6).ce, 0, 12); Lookup1(StateAt(6).ce, 1, 12);
  }

  lemma Launch7()
    ensures var m := S(0, [3], [0], [1], [2], ENTRIES_6);
            Ref(SetEntry(m, 2, ENTRIES_6[2].(key := 12, state := CsProbe)), 2) == StateAt(7)
  {
    assert StateAt(7).ce == ENTRIES_6[2 := E(12, CsProbe, 1, Some(0))];
  }

  lemma Get7()
    ensures Get(StateAt(6), 12).0 == StateAt(7)
  {
    hide StateAt, Unknown, Full, Recycled, EvictFor, Move, Get;
    Unknown6();
    Launch7();
    Evict6();
    Move7();
    MissByEviction(StateAt(6), 12, 2, 0, S(0, [3, 2], [0], [1], [], ENTRIES_6), S(0, [3], [0], [1], [2], ENTRIES_6));
  }

  lemma Move7()
    ensures Move(S(0, [3, 2], [0], [1], [], ENTRIES_6), 2, Flight) == S(0, [3], [0], [1], [2], ENTRIES_6)
  {
    Del1(0, 2); Del1(1, 2); Del2(3, 2, 2); Del1(2, 2);
  }

  ghost const ENTRIES_7: seq<Entry> :=
      [E(10, CsValid, 0, None), E(11, CsValid, 0, None), E(12, CsProbe, 1, Some(0)), E(0, CsProbe, 0, Some(1))]

  lemma Leave7()
    ensures Move(StateAt(7), 1, GhostProbe) == S(0, [3], [0, 1], [], [2], StateAt(7).ce)
  {
    Del1(0, 1); Del1(1, 1); Del1(3, 1); Del1(2, 1);
  }

  lemma Picks7()
    ensures Shape(StateAt(7)) && |StateAt(7).ce| == 4 && Victim(StateAt(7), 1) == Some(1) && 1 in StateAt(7).probe
    ensures var ce := StateAt(7).ce; ENTRIES_7 == ce[3 := ce[3].(data := ce[1].data)][1 := ce[1].(data := None)]
  {
    var ce := StateAt(7).ce;
    assert ENTRIES_7 == ce[3 := ce[3].(data := ce[1].data)][1 := ce[1].(data := None)];
    Lookup1(ce, 1, 13);
    hide InUse, FindKey;
  }

  lemma Evict7()
    ensures EvictFor(StateAt(7), 3, 1) == S(0, [3], [0, 1], [], [2], ENTRIES_7)
  {
    hide StateAt, Victim, Move, Shape;
    Leave7();
    Picks7();
    EvictForShape(StateAt(7), 3, 1, 1, GhostProbe);
  }

  lemma Move8()
    ensures Move(S(0, [3], [0, 1], [], [2], ENTRIES_7), 3, Flight) == S(0, [], [0, 1], [], [2, 3], ENTRIES_7)
  {
    Del2(0, 1, 3); Del1(1, 3); Del1(3, 3); Del1(2, 3);
  }

  lemma Unknown7()
    ensures Shape(StateAt(7)) && Unknown(StateAt(7), 13) && !Full(StateAt(7)) && Recycled(StateAt(7)) == 3
    ensures |StateAt(7).ce| == 4 && StateAt(7).ce[3].data.None?
  {
    hide FindKey, InUse, FirstFree, LastFree;
    Lookup0(StateAt(7).ce, 13);
    Lookup1(StateAt(7).ce, 0, 13); Lookup1(StateAt(7).ce, 1, 13); Lookup1(StateAt(7).ce, 2, 13);
  }

  lemma Launch8()
    ensures var m := S(0, [], [0, 1], [], [2, 3], ENTRIES_7);
            Ref(SetEntry(m, 3, ENTRIES_7[3].(key := 13, state := CsProbe)), 3) == StateAt(8)
  {
    assert StateAt(8).ce == ENTRIES_7[3 := E(13, CsProbe, 1, Some(1))];
  }

  lemma Get8()
    ensures Get(StateAt(7), 13).0 == StateAt(8)
  {
    hide StateAt, Unknown, Full, Recycled, EvictFor, Move, Get;
    Unknown7();
    Launch8();
    Evict7();
    Move8();
    MissByEviction(StateAt(7), 13, 3, 1,
                   S(0, [3], [0, 1], [], [2], ENTRIES_7), S(0, [], [0, 1], [], [2, 3], ENTRIES_7));
  }

  lemma Discard9() ensures Discard(StateAt(8), 2) == StateAt(9) { }

  lemma Discard10() ensures Discard(StateAt(9), 3) == StateAt(10) { }

  /** A ghost hit that takes a buffer from the last unused entry, from its parts. */
  lemma HitByReclaim(st: State, key: Key, x: nat, a: State, m: State)
    requires Shape(st) && st.Total() < st.cap && x < |st.ce|
    requires Lookup(st, key, Prec).None? && Lookup(st, key, Probe).None? && Lookup(st, key, Flight).None?
    requires Lookup(st, key, GhostPrec).None? && Lookup(st, key, GhostProbe) == Some(x)
    requires a == Adapt(st, x)
    requires m == Move(Reclaimed(a, x), x, Flight)
    ensures Get(st, key) == (Ref(SetEntry(m, x, m.ce[x].(state := CsPrecious)), x), Some(x))
  {
    NotFull(st);
    GhostHitReclaims(st, x);
  }

  ghost const ENTRIES_10: seq<Entry> :=
      [E(10, CsValid, 0, Some(1)), E(11, CsValid, 0, None), E(12, CsProbe, 0, Some(0)), E(13, CsProbe, 0, None)]

  lemma Move11()
    ensures Reclaimed(StateAt(10).(dprobe := 1), 0).ce == ENTRIES_10
    ensures Move(Reclaimed(StateAt(10).(dprobe := 1), 0), 0, Flight) == S(1, [2, 3], [1], [], [0], ENTRIES_10)
  {
    Del2(2, 3, 0); Del1(3, 0); Del2(0, 1, 0);
  }

  lemma Known10()
    ensures Shape(StateAt(10)) && Overtakes(StateAt(10), 10) && Adapt(StateAt(10), 0) == StateAt(10).(dprobe := 1)
    ensures Lookup(StateAt(10), 10, Prec) == None && Lookup(StateAt(10), 10, Probe) == None
            && Lookup(StateAt(10), 10, Flight) == None
    ensures Lookup(StateAt(10), 10, GhostPrec) == None && Lookup(StateAt(10), 10, GhostProbe) == Some(0)
  {
    Lookup2(StateAt(10).ce, 0, 1, 10);
  }

  lemma Launch11()
    ensures StateAt(11) == S(1, [2, 3], [1], [], [0], ENTRIES_10[0 := E(10, CsPrecious, 1, Some(1))])
    ensures ENTRIES_10[0] == E(10, CsValid, 0, Some(1))
    ensures StateAt(10).Total() < StateAt(10).cap && |StateAt(10).ce| == 4 && StateAt(10).Ghost(0)
  {
    assert StateAt(11).ce == ENTRIES_10[0 := E(10, CsPrecious, 1, Some(1))];
  }

  lemma Get11()
    ensures Shape(StateAt(10)) && Overtakes(StateAt(10), 10)
    ensures Get(StateAt(10), 10).0 == StateAt(11)
  {
    Known10();
    Launch11();
    hide StateAt, Move, Get, Lookup, Adapt, Overtakes, Reclaimed;
    Move11();
    HitByReclaim(StateAt(10), 10, 0, StateAt(10).(dprobe := 1), S(1, [2, 3], [1], [], [0], ENTRIES_10));
  }

  lemma Move12()
    ensures Reclaimed(StateAt(11).(dprobe := 2), 1).ce == StateAt(11).ce
    ensures Move(Reclaimed(StateAt(11).(dprobe := 2), 1), 1, Flight) == S(2, [2, 3], [], [], [0, 1], StateAt(11).ce)
  {
    Del2(2, 3, 1); Del1(3, 1); Del1(1, 1); Del1(0, 1);
  }

  lemma Get12()
    ensures Get(StateAt(11), 11) == (StateAt(12), Some(1))
  {
    var m := S(2, [2, 3], [], [], [0, 1], StateAt(11).ce);
    Known11();
    Launch12();
    hide StateAt, Adapt, Move, Reclaimed, Get, Lookup;
    Move12();
    RefSetEntry(m, 1, m.ce[1].(state := CsPrecious));
    HitByReclaim(StateAt(11), 11, 1, StateAt(11).(dprobe := 2), m);
  }

  lemma Launch12()
    ensures StateAt(12) == S(2, [2, 3], [], [], [0, 1], StateAt(11).ce[1 := E(11, CsPrecious, 1, None)])
    ensures StateAt(11).ce[1].(state := CsPrecious) == E(11, CsPrecious, 0, None)
  {
    assert StateAt(12).ce == StateAt(11).ce[1 := E(11, CsPrecious, 1, None)];
  }

  lemma Known11()
    ensures Shape(StateAt(11)) && StateAt(11).Total() < 2 && StateAt(11).cap == 2 && |StateAt(11).ce| == 4
    ensures Absent(StateAt(11), 11) && Lookup(StateAt(11), 11, GhostPrec) == None
            && Lookup(StateAt(11), 11, GhostProbe) == Some(1)
    ensures StateAt(11).Ghost(1) && Adapt(StateAt(11), 1) == StateAt(11).(dprobe := 2)
  {
    Lookup1(StateAt(11).ce, 0, 11); Lookup1(StateAt(11).ce, 1, 11);
  }

  lemma StartsNew()
    ensures StateAt(0) == Flushed(2, BLANK)
  {
    assert StateAt(0).ce == Flushed(2, BLANK).ce;
    assert StateAt(0).unused == Flushed(2, BLANK).unused;
  }

  // The run.

  ghost function OpAt(k: nat): Op {
    match k
    case 0 => OpGet(10) case 1 => OpInsert(0) case 2 => OpPut(0)
    case 3 => OpGet(11) case 4 => OpInsert(1) case 5 => OpPut(1)
    case 6 => OpGet(12) case 7 => OpGet(13) case 8 => OpDiscard(2) case 9 => OpDiscard(3)
    case 10 => OpGet(10)
    case _ => OpGet(11)
  }

  ghost predicate Leads(st: State, op: Op, next: State) {
    Shape(st) && Legal(st, op) && Step(st, op) == next
  }

  lemma LeadsGet(st: State, key: Key, next: State)
    requires Shape(st) && Get(st, key).0 == next
    ensures Leads(st, OpGet(key), next)
  {
  }

  lemma FirstSteps()
    ensures Leads(StateAt(0), OpGet(10), StateAt(1)) && Leads(StateAt(1), OpInsert(0), StateAt(2))
    ensures Leads(StateAt(2), OpPut(0), StateAt(3)) && Leads(StateAt(3), OpGet(11), StateAt(4))
  {
    hide Get, Insert, Put, FindKey, InUse, FirstFree, LastFree;
    Get1(); Insert2(); Put3(); Get4();
    assert Shape(StateAt(0)) && Shape(StateAt(1)) && Shape(StateAt(2)) && Shape(StateAt(3));
    hide Shape;
    LeadsGet(StateAt(0), 10, StateAt(1));
    LeadsGet(StateAt(3), 11, StateAt(4));
  }

  lemma MiddleSteps()
    ensures Leads(StateAt(4), OpInsert(1), StateAt(5)) && Leads(StateAt(5), OpPut(1), StateAt(6))
    ensures Leads(StateAt(6), OpGet(12), StateAt(7)) && Leads(StateAt(7), OpGet(13), StateAt(8))
  {
    hide Get, Insert, Put, FindKey, InUse, FirstFree, LastFree;
    Insert5(); Put6();
    LaterSteps();
  }

  lemma LaterSteps()
    ensures Leads(StateAt(6), OpGet(12), StateAt(7)) && Leads(StateAt(7), OpGet(13), StateAt(8))
  {
    hide StateAt, Get, Shape, Full, Unknown, Recycled, Leads;
    Get7(); Get8();
    Unknown6();
    Unknown7();
    LeadsGet(StateAt(6), 12, StateAt(7));
    LeadsGet(StateAt(7), 13, StateAt(8));
  }

  lemma DiscardSteps()
    ensures Leads(StateAt(8), OpDiscard(2), StateAt(9)) && Leads(StateAt(9), OpDiscard(3), StateAt(10))
  {
    Discard9();
    Discard10();
    hide Discard;
  }

  lemma GhostSteps()
    ensures Leads(StateAt(10), OpGet(10), StateAt(11)) && Leads(StateAt(11), OpGet(11), StateAt(12))
  {
    Get11();
    Starving(11);
    Get12();
    hide Get, StateAt, Shape, Overtakes, Starves, GhostOf, Full, Lookup;
    LeadsGet(StateAt(10), 10, StateAt(11));
    LeadsGet(StateAt(11), 11, StateAt(12));
  }

  lemma Steps(k: nat)
    requires k < 12
    ensures Leads(StateAt(k), OpAt(k), StateAt(k + 1))
  {
    hide StateAt, Leads;
    FirstSteps();
    MiddleSteps();
    DiscardSteps();
    GhostSteps();
  }

  lemma Lists11()
    ensures Lists(StateAt(11))
  {
    forall i, p, q | i in StateAt(11).At(p) && i in StateAt(11).At(q) ensures p == q {
      match p case Prec => case GhostPrec => case Unused => case GhostProbe => case Probe => case Flight =>
    }
  }

  lemma Entries11()
    ensures forall i :: 0 <= i < 4 ==> Placed(StateAt(11), i) && Buffered(StateAt(11), i)
  {
    var st := StateAt(11);
    assert Placed(st, 0) && Placed(st, 1) && Placed(st, 2) && Placed(st, 3);
    assert Buffered(st, 0) && Buffered(st, 1) && Buffered(st, 2) && Buffered(st, 3);
    hide Placed, Buffered;
  }

  lemma Keys11()
    ensures Keys(StateAt(11)) && Exclusive(StateAt(11).ce, 2)
  {
    var st := StateAt(11);
    assert |st.ce| == 4 && st.unused == [2, 3] && st.ce[0].key == 10 && st.ce[1].key == 11;
    assert st.ce[0].data == Some(1) && st.ce[1].data == None && st.ce[2].data == Some(0) && st.ce[3].data == None;
    hide StateAt;
    assert Keys(st);
  }

  lemma Owners11()
    ensures |BufferOwners(StateAt(11))| == StateAt(11).cap == 2 && StateAt(11).dprobe <= 2
    ensures Shape(StateAt(11)) && |StateAt(11).ce| == 4
  {
    assert BufferOwners(StateAt(11)) == {0, 2};
  }

  lemma Sound11()
    ensures Sound(StateAt(11))
  {
    Lists11();
    Entries11();
    Keys11();
    Owners11();
    hide StateAt, Lists, Keys, Exclusive, BufferOwners, Placed, Buffered, Shape;
  }

  lemma Idle11()
    ensures var st := StateAt(11);
      && Shape(st) && !Full(st) && st.Spare() == 1 && !OwnsBuffer(st, st.unused[|st.unused| - 1])
      && st.prec == st.probe == st.gprec == [] && st.gprobe == [1] && st.flight == [0] && |st.ce| == 4
      && st.ce[0].key == 10 && st.ce[1].key == 11
  {
  }

  /** Both the ghost's key and a new one starve. */
  lemma Starving(key: Key)
    requires key != 10
    ensures Shape(StateAt(11)) && Starves(StateAt(11), key)
    ensures GhostOf(StateAt(11), key) == if key == 11 then Some(1) else None
  {
    hide StateAt, Full, Shape;
    Idle11();
    Lookup1(StateAt(11).ce, 0, key);
    Lookup1(StateAt(11).ce, 1, key);
  }

  /** In-flight entry `x` is referenced but owns no buffer, although unused `y` does. */
  ghost predicate Starved(st: State, x: nat, y: nat) {
    && x in st.flight && x < |st.ce| && st.ce[x].refcnt > 0 && st.ce[x].data.None?
    && y in st.unused && y < |st.ce| && st.ce[y].data.Some?
  }

  /** A new cache with two buffers gets there in twelve legal operations: there are discards with
      two entries in flight, then a request overtakes.  The cache is still sound, but the next
      request for a ghost puts an entry in flight without a buffer, although an unused one owns
      one, and a request for a new key would evict where there is nothing to evict. */
  lemma OvertakingRun()
    ensures Run(seq(13, (k: nat) => StateAt(k)), seq(12, (k: nat) => OpAt(k))) && StateAt(0) == Flushed(2, BLANK)
    ensures OpAt(8) == OpDiscard(2) && |StateAt(8).flight| == 2 && OpAt(9) == OpDiscard(3)
    ensures Shape(StateAt(10)) && OpAt(10) == OpGet(10) && Overtakes(StateAt(10), 10)
    ensures Sound(StateAt(11)) && OpAt(11) == OpGet(11) && Starves(StateAt(11), 11) && Defined(StateAt(11), 11)
    ensures Starves(StateAt(11), 99) && !Defined(StateAt(11), 99)
    ensures Starved(StateAt(12), 1, 2) && Legal(StateAt(12), OpInsert(1))
    ensures 1 in Insert(StateAt(12), 1).prec && Insert(StateAt(12), 1).ce[1].data == None
  {
    CachedWithout();
    hide StateAt, OpAt, Run, Sound, Starves, Defined, Overtakes, Flushed, Shape, Starved;
    StartsNew();
    EndsBadly();
    ItIsARun();
  }

  /** Inserted then, the entry is cached without a buffer. */
  lemma CachedWithout()
    ensures Legal(StateAt(12), OpInsert(1))
    ensures 1 in Insert(StateAt(12), 1).prec && Insert(StateAt(12), 1).ce[1].data == None
  {
  }

  lemma Discarding()
    ensures OpAt(8) == OpDiscard(2) && |StateAt(8).flight| == 2 && OpAt(9) == OpDiscard(3)
    ensures OpAt(10) == OpGet(10) && OpAt(11) == OpGet(11) && Starved(StateAt(12), 1, 2)
  {
  }

  lemma ItIsARun()
    ensures Run(seq(13, (k: nat) => StateAt(k)), seq(12, (k: nat) => OpAt(k)))
  {
    hide StateAt, OpAt, Step, Legal, Shape;
    var states, ops := seq(13, (k: nat) => StateAt(k)), seq(12, (k: nat) => OpAt(k));
    forall k: nat | k < 12
      ensures Shape(states[k]) && Legal(states[k], ops[k]) && states[k + 1] == Step(states[k], ops[k])
    {
      Steps(k);
      assert Leads(StateAt(k), OpAt(k), StateAt(k + 1));
    }
  }

  lemma EndsBadly()
    ensures Shape(StateAt(10)) && Overtakes(StateAt(10), 10)
    ensures Sound(StateAt(11)) && Starves(StateAt(11), 11) && Defined(StateAt(11), 11)
    ensures Starves(StateAt(11), 99) && !Defined(StateAt(11), 99)
    ensures Starved(StateAt(12), 1, 2)
    ensures OpAt(8) == OpDiscard(2) && |StateAt(8).flight| == 2 && OpAt(9) == OpDiscard(3)
    ensures OpAt(10) == OpGet(10) && OpAt(11) == OpGet(11)
  {
    hide StateAt, OpAt, Sound, Starves, Defined, Overtakes, Get, Lookup, Full, Starved, GhostOf, Shape;
    Discarding();
    Get11();
    Sound11();
    Starving(11);
    Starving(99);
    DefinedIff(StateAt(11), 11);
    DefinedIff(StateAt(11), 99);
  }
}
