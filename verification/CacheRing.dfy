/** How the moves of `CacheSpec` look on the main ring. */
module CacheRing {
  import opened CacheInvariant
  import opened CacheSpec
  import opened Options
  import opened RingList

  lemma {:induction false} DelConcat(a: seq<nat>, b: seq<nat>, x: nat)
    requires x !in a || x !in b
    ensures Del(a + b, x) == Del(a, x) + Del(b, x)
  {
    if a == [] {
      assert a + b == b;
    } else {
      assert (a + b)[1..] == a[1..] + b;
      if a[0] == x {
        DelAbsent(b, x);
      } else {
        DelConcat(a[1..], b, x);
      }
    }
  }

  lemma {:induction false} DelAbsent(s: seq<nat>, x: nat)
    requires x !in s
    ensures Del(s, x) == s
  {
    if s == [] {
    } else {
      DelAbsent(s[1..], x);
    }
  }

  lemma DelConcat3(a: seq<nat>, b: seq<nat>, c: seq<nat>, x: nat)
    requires x in a ==> x !in b && x !in c
    requires x in b ==> x !in c
    ensures Del(a + b + c, x) == Del(a, x) + Del(b, x) + Del(c, x)
  {
    DelConcat(a, b, x);
    DelConcat(a + b, c, x);
  }

  /** The main ring in three pieces. */
  lemma DelRing(st: State, x: nat)
    requires Partition(st)
    ensures Del(st.prec + st.gprec + st.unused, x) == Del(st.prec, x) + Del(st.gprec, x) + Del(st.unused, x)
    ensures Del(st.Ring(), x)
         == Del(st.prec, x) + Del(st.gprec, x) + Del(st.unused, x) + Del(st.gprobe, x) + Del(st.probe, x)
  {
    Apart(st, x);
    DelConcat3(st.prec, st.gprec, st.unused, x);
    DelConcat3(st.prec + st.gprec + st.unused, st.gprobe, st.probe, x);
  }

  /** The ring behind the precious entries, without `x`. */
  function Behind(st: State, x: nat): seq<nat> {
    Del(st.gprec, x) + Del(st.unused, x) + Del(st.gprobe, x) + Del(st.probe, x)
  }

  /** The ring before the probed entries, without `x`. */
  function Before(st: State, x: nat): seq<nat> {
    Del(st.prec, x) + Del(st.gprec, x) + Del(st.unused, x) + Del(st.gprobe, x)
  }

  function BeforeGhosts(st: State, x: nat): seq<nat> {
    Del(st.prec, x) + Del(st.gprec, x) + Del(st.unused, x)
  }

  function AfterUnused(st: State, x: nat): seq<nat> {
    Del(st.gprobe, x) + Del(st.probe, x)
  }

  lemma Regroup(x: nat, a: seq<nat>, b: seq<nat>, c: seq<nat>, d: seq<nat>, e: seq<nat>)
    ensures ([x] + a) + b + c + d + e == [x] + (a + b + c + d + e)
    ensures a + ([x] + b) + c + d + e == a + [x] + (b + c + d + e)
    ensures a + b + c + d + (e + [x]) == a + b + c + d + e + [x]
    ensures a + b + (c + [x]) + d + e == (a + b + c) + [x] + (d + e)
    ensures a + b + c + (d + [x]) + e == (a + b + c + d) + [x] + e
    ensures a + b + c + d + e == a + (b + c + d + e) == (a + b + c) + (d + e)
  {
  }

  /** The main ring without `x`, and where a move puts `x` back in. */
  lemma MoveRing(st: State, x: nat)
    requires Partition(st)
    ensures Move(st, x, Prec).Ring() == [x] + Del(st.Ring(), x)
    ensures Move(st, x, GhostPrec).Ring() == Del(st.prec, x) + [x] + Behind(st, x)
    ensures Move(st, x, Unused).Ring() == BeforeGhosts(st, x) + [x] + AfterUnused(st, x)
    ensures Move(st, x, GhostProbe).Ring() == Before(st, x) + [x] + Del(st.probe, x)
    ensures Move(st, x, Probe).Ring() == Del(st.Ring(), x) + [x]
    ensures Move(st, x, Flight).Ring() == Del(st.Ring(), x)
  {
    DelRing(st, x);
    Regroup(x, Del(st.prec, x), Del(st.gprec, x), Del(st.unused, x), Del(st.gprobe, x), Del(st.probe, x));
  }

  lemma MoveOk(st: State, x: nat, from: Place, to: Place)
    requires Sized(st) && Partition(st) && x < |st.ce| && x in st.At(from)
    ensures Sized(Move(st, x, to)) && Partition(Move(st, x, to))
  {
    MoveSized(st, x, from, to);
    MoveFacts(st, x, to);
  }

  lemma EvictProbeRing(st: State, z: nat)
    requires Sized(st) && Partition(st) && z < |st.ce| && z in st.probe
    ensures var m := Move(st, z, GhostProbe);
            && Sized(m) && Partition(m) && m.flight == st.flight
            && m.Ring() == (st.prec + st.gprec + st.unused + st.gprobe) + [z] + Del(st.probe, z)
  {
    assert z in st.At(Probe);
    MoveOk(st, z, Probe, GhostProbe);
    Apart(st, z);
    MoveRing(st, z);
    DelAbsent(st.prec, z);
    DelAbsent(st.gprec, z);
    DelAbsent(st.unused, z);
    DelAbsent(st.gprobe, z);
    DelAbsent(st.flight, z);
  }

  lemma EvictPrecRing(st: State, z: nat)
    requires Sized(st) && Partition(st) && z < |st.ce| && z in st.prec
    ensures var m := Move(st, z, GhostPrec);
            && Sized(m) && Partition(m) && m.flight == st.flight
            && m.Ring() == Del(st.prec, z) + [z] + (st.gprec + st.unused + st.gprobe + st.probe)
            && (st.gprec + st.unused + st.gprobe + st.probe != [] ==>
                  m.Ring()[|m.Ring()| - 1] == st.Ring()[|st.Ring()| - 1])
  {
    hide Partition, Move, Del, Behind;
    assert z in st.At(Prec);
    MoveOk(st, z, Prec, GhostPrec);
    MoveRing(st, z);
    LeavesPrec(st, z);
    PrecFirst(st);
    var b := st.gprec + st.unused + st.gprobe + st.probe;
    hide State.Ring;
    LastOfTail(Del(st.prec, z) + [z], st.prec, b);
  }

  lemma LeavesPrec(st: State, z: nat)
    requires Partition(st) && z in st.prec
    ensures Behind(st, z) == st.gprec + st.unused + st.gprobe + st.probe && Move(st, z, GhostPrec).flight == st.flight
  {
    Apart(st, z);
    hide Del, Partition;
    DelAbsent(st.probe, z);
    DelAbsent(st.gprec, z);
    DelAbsent(st.unused, z);
    DelAbsent(st.gprobe, z);
    DelAbsent(st.flight, z);
  }

  lemma PrecFirst(st: State)
    ensures st.Ring() == st.prec + (st.gprec + st.unused + st.gprobe + st.probe)
  {
  }

  lemma LastOfTail(a: seq<nat>, b: seq<nat>, tail: seq<nat>)
    ensures tail != [] ==> (a + tail)[|a + tail| - 1] == (b + tail)[|b + tail| - 1]
  {
  }

  function Last(s: seq<nat>): nat
    requires s != []
  {
    s[|s| - 1]
  }

  /** The links `n`, `p` and the two stored positions represent the lists of `st`. */
  ghost predicate Wired(n: seq<nat>, p: seq<nat>, split: nat, inflight: nat, st: State) {
    && Rings(n, p, st.Ring(), st.flight) && |n| == 2 * st.cap
    && st.Ring() != [] && split == Last(st.Ring())
    && (st.flight != [] ==> inflight == st.flight[0])
    && Sized(st) && Partition(st)
  }

  ghost predicate Rings(n: seq<nat>, p: seq<nat>, r: seq<nat>, f: seq<nat>) {
    && Ring(n, p, r) && Ring(n, p, f)
    && forall i :: i in r ==> i !in f
  }

  lemma EvictProbeWired(n: seq<nat>, p: seq<nat>, n': seq<nat>, p': seq<nat>, split: nat, split': nat,
                        inflight: nat, st: State, z: nat)
    requires Wired(n, p, split, inflight, st) && z < |st.ce| && z in st.probe
    requires var r := (st.prec + st.gprec + st.unused + st.gprobe) + [z] + Del(st.probe, z);
             Rings(n', p', r, st.flight) && |n'| == |n| && split' == Last(r)
    ensures Wired(n', p', split', inflight, Move(st, z, GhostProbe))
    ensures var m := Move(st, z, GhostProbe); m.cap == st.cap && m.dprobe == st.dprobe && m.ce == st.ce
  {
    EvictProbeRing(st, z);
  }

  lemma EvictPrecWired(n: seq<nat>, p: seq<nat>, n': seq<nat>, p': seq<nat>, split: nat,
                       inflight: nat, st: State, z: nat)
    requires Wired(n, p, split, inflight, st) && z < |st.ce| && z in st.prec
    requires st.gprec + st.unused + st.gprobe + st.probe != []
    requires Rings(n', p', Del(st.prec, z) + [z] + (st.gprec + st.unused + st.gprobe + st.probe), st.flight)
    requires |n'| == |n|
    ensures Wired(n', p', split, inflight, Move(st, z, GhostPrec))
    ensures var m := Move(st, z, GhostPrec); m.cap == st.cap && m.dprobe == st.dprobe && m.ce == st.ce
  {
    EvictPrecRing(st, z);
  }

  /** Only the lists are wired, not what the entries hold. */
  lemma WiredSame(n: seq<nat>, p: seq<nat>, split: nat, inflight: nat, st: State, st': State)
    requires Wired(n, p, split, inflight, st) && SameLists(st, st')
    ensures Wired(n, p, split, inflight, st')
  {
    assert forall q :: st'.At(q) == st.At(q);
  }

  /** Where the partitions are on the ring. */
  lemma RingIndex(st: State)
    ensures forall j :: 0 <= j < |st.prec| ==> st.Ring()[j] == st.prec[j]
    ensures forall j :: 0 <= j < |st.gprec| ==> st.Ring()[|st.prec| + j] == st.gprec[j]
    ensures forall j :: 0 <= j < |st.unused| ==> st.Ring()[|st.prec| + |st.gprec| + j] == st.unused[j]
    ensures forall j :: 0 <= j < |st.gprobe| ==> st.Ring()[|st.prec| + |st.gprec| + |st.unused| + j] == st.gprobe[j]
    ensures forall j :: 0 <= j < |st.probe| ==>
              st.Ring()[|st.prec| + |st.gprec| + |st.unused| + |st.gprobe| + j] == st.probe[j]
    ensures |st.Ring()| == |st.prec| + |st.gprec| + |st.unused| + |st.gprobe| + |st.probe|
  {
  }

  lemma ReclaimUnused(st: State, x: nat, e: nat, ce: seq<Entry>)
    requires Shape(st) && Partition(st) && x < |st.ce| && st.Ghost(x) && st.Total() < st.cap
    requires e == st.unused[|st.unused| - 1]
    requires ce == st.ce[e := st.ce[e].(data := None)][x := st.ce[x].(data := st.ce[e].data)]
    ensures st.(ce := ce) == ReclaimFor(st, x)
  {
    assert e in st.unused;
    Apart(st, x);
    assert ce == st.ce[x := st.ce[x].(data := st.ce[e].data)][e := st.ce[e].(data := None)];
  }

  lemma EvictsFor(st: State, x: nat, v: nat, bias: nat, ce: seq<Entry>)
    requires Shape(st) && Partition(st) && x < |st.ce| && !st.Cached(x) && v < |st.ce|
    requires Victim(st, bias) == Some(v)
    requires ce == st.ce[v := st.ce[v].(data := None)][x := st.ce[x].(data := st.ce[v].data)]
    ensures Move(st, v, if v in st.probe then GhostProbe else GhostPrec).(ce := ce) == EvictFor(st, x, bias)
  {
    assert v in st.probe || v in st.prec;
    assert ce == st.ce[x := st.ce[x].(data := st.ce[v].data)][v := st.ce[v].(data := None)];
  }

  /** The sizes after an eviction. */
  lemma EvictedSizes(st: State, v: nat, from: Place, to: Place)
    requires Sized(st) && Partition(st) && v in st.At(from)
    requires (from == Probe && to == GhostProbe) || (from == Prec && to == GhostPrec)
    ensures var m := Move(st, v, to);
            && |m.prec| == |st.prec| - One(from == Prec) && |m.probe| == |st.probe| - One(from == Probe)
            && |m.gprec| == |st.gprec| + One(from == Prec) && |m.gprobe| == |st.gprobe| + One(from == Probe)
            && |m.flight| == |st.flight|
    ensures from == Prec ==> v !in st.probe
  {
    MoveSizes(st, v, from, to);
    Apart(st, v);
  }

  /** Removing the last element of a ring leaves its predecessor last. */
  lemma LastAfterDel(n: seq<nat>, p: seq<nat>, r: seq<nat>, x: nat)
    requires Ring(n, p, r) && |r| > 1 && x in r
    ensures x < |p| && Del(r, x) != []
    ensures Last(Del(r, x)) == if Last(r) == x then p[x] else Last(r)
  {
    var a, b := SplitAt(r, x);
    assert LinkedAt(n, p, r, |a|) && r[|a|] == x;
    hide Ring, Del;
    if b != [] {
      assert Last(a + b) == Last(b) == Last(r);
      assert r[|r| - 1] != x by { LaterOther(n, p, r, |a|, |r| - 1); }
    } else {
      assert a + b == a && Last(r) == x;
    }
  }

  lemma LaterOther(n: seq<nat>, p: seq<nat>, r: seq<nat>, i: nat, j: nat)
    requires Ring(n, p, r) && i < j < |r|
    ensures r[j] != r[i]
  {
  }

  lemma LaunchRing(st: State, x: nat, from: Place)
    requires Sized(st) && Partition(st) && x < |st.ce| && x in st.At(from)
    requires from == Unused || from == GhostPrec || from == GhostProbe
    ensures var m := Move(st, x, Flight);
            && Sized(m) && Partition(m) && m.Ring() == Del(st.Ring(), x) && m.flight == st.flight + [x]
            && |m.prec| == |st.prec| && |m.probe| == |st.probe|
            && |m.gprec| == |st.gprec| - One(from == GhostPrec) && |m.gprobe| == |st.gprobe| - One(from == GhostProbe)
    ensures x in st.Ring() && x !in st.flight
  {
    MoveOk(st, x, from, Flight);
    MoveSizes(st, x, from, Flight);
    MoveRing(st, x);
    Apart(st, x);
    DelAbsent(st.flight, x);
    assert x in st.gprec || x in st.unused || x in st.gprobe;
    RingIndex(st);
  }

  lemma LaunchWired(n: seq<nat>, p: seq<nat>, n': seq<nat>, p': seq<nat>, split: nat, split': nat,
                    inflight: nat, inflight': nat, st: State, x: nat, from: Place)
    requires Wired(n, p, split, inflight, st) && x < |st.ce| && x in st.At(from)
    requires from == Unused || from == GhostPrec || from == GhostProbe
    requires Rings(n', p', Del(st.Ring(), x), st.flight + [x]) && |n'| == |n|
    requires Del(st.Ring(), x) != [] && split' == Last(Del(st.Ring(), x)) && inflight' == (st.flight + [x])[0]
    ensures Wired(n', p', split', inflight', Move(st, x, Flight))
    ensures var m := Move(st, x, Flight); m.cap == st.cap && m.dprobe == st.dprobe && m.ce == st.ce
  {
    LaunchRing(st, x, from);
  }

  /** The element behind which ring `r` goes on with `s`, `r` itself coming round again. */
  function HeadOr(s: seq<nat>, r: seq<nat>): nat
    requires r != []
  {
    if s != [] then s[0] else r[0]
  }

  function LastOr(s: seq<nat>, r: seq<nat>): nat
    requires r != []
  {
    if s != [] then Last(s) else Last(r)
  }

  lemma NextOfLast(n: seq<nat>, p: seq<nat>, a: seq<nat>, b: seq<nat>)
    requires Ring(n, p, a + b) && a + b != []
    ensures LastOr(a, a + b) < |n| && n[LastOr(a, a + b)] == HeadOr(b, a + b)
    ensures HeadOr(b, a + b) < |p| && p[HeadOr(b, a + b)] == LastOr(a, a + b)
  {
    var r := a + b;
    var k := if a != [] then |a| - 1 else |r| - 1;
    assert LinkedAt(n, p, r, k);
    assert LinkedAt(n, p, r, Succ(k, |r|));
  }

  /** Where the scans of both ghost partitions end. */
  ghost predicate Ends(st: State, eprec: nat, eprobe: nat) {
    && st.Ring() != []
    && eprec == HeadOr(st.unused + st.gprobe + st.probe, st.Ring())
    && eprobe == LastOr(st.prec + st.gprec + st.unused, st.Ring())
  }

  lemma EndsUnused(st: State, eprec: nat, eprobe: nat)
    requires NoDup(st.Ring()) && Ends(st, eprec, eprobe) && st.unused != []
    ensures eprobe == Last(st.unused)
    ensures HeadOr(st.gprobe + st.probe, st.Ring()) == eprec ==> st.gprobe == [] && st.gprec == []
  {
    var b := st.gprobe + st.probe;
    var k := |st.prec| + |st.gprec|;
    assert st.Ring() == (st.prec + st.gprec) + st.unused + b;
    assert st.Ring()[k] == st.unused[0] == eprec;
    if b != [] {
      assert st.Ring()[k + |st.unused|] == b[0];
    }
  }

  lemma EndsGhosts(st: State, eprec: nat, eprobe: nat)
    requires Ends(st, eprec, eprobe) && st.unused == [] && (st.gprobe != [] || st.gprec != [])
    ensures HeadOr(st.gprobe + st.probe, st.Ring()) == eprec
    ensures if st.gprobe != [] then eprec == st.gprobe[0] else eprobe == Last(st.gprec)
  {
    assert st.unused + st.gprobe + st.probe == st.gprobe + st.probe;
    if st.gprobe == [] {
      assert Last(st.prec + st.gprec + st.unused) == Last(st.gprec);
    }
  }

  /** The entry that a miss recycles, as found by the scans. */
  lemma EndsMeet(n: seq<nat>, p: seq<nat>, st: State, eprec: nat, eprobe: nat)
    requires Ring(n, p, st.Ring()) && Ends(st, eprec, eprobe) && Shape(st)
    ensures eprobe < |n|
    ensures st.unused != [] ==> Recycled(st) == eprobe && (n[eprobe] == eprec ==> st.gprobe == [] && st.gprec == [])
    ensures st.unused == [] ==> n[eprobe] == eprec && Recycled(st) == if st.gprobe != [] then n[eprobe] else eprobe
  {
    var a, b := st.prec + st.gprec + st.unused, st.gprobe + st.probe;
    assert st.Ring() == a + b;
    NextOfLast(n, p, a, b);
    hide Ring;
    if st.unused != [] {
      EndsUnused(st, eprec, eprobe);
    } else {
      EndsGhosts(st, eprec, eprobe);
    }
  }

  lemma SplitAt(r: seq<nat>, x: nat) returns (a: seq<nat>, b: seq<nat>)
    requires NoDup(r) && x in r
    ensures r == a + [x] + b && x !in a && x !in b && Del(r, x) == a + b
  {
    var k :| 0 <= k < |r| && r[k] == x;
    a, b := r[..k], r[k + 1..];
    DelSplit(a, x, b);
  }

  lemma LastStays(r: seq<nat>, x: nat)
    requires NoDup(r) && x in r && r[|r| - 1] != x
    ensures Del(r, x) != [] && Last(Del(r, x)) == Last(r)
  {
    var a, b := SplitAt(r, x);
    assert b != [] && b[|b| - 1] == r[|r| - 1];
  }

  /** An entry next to the split point need not be moved, only the point does. */
  lemma AlreadyFirst(n: seq<nat>, p: seq<nat>, r: seq<nat>, x: nat)
    requires Ring(n, p, r) && |r| > 1 && x in r && x < |p|
    requires Last(r) == x || Last(r) == p[x]
    ensures Ring(n, p, [x] + Del(r, x))
    ensures forall i :: i in [x] + Del(r, x) <==> i in r
  {
    DelFacts(r, x);
    if Last(r) == x {
      LastMovesFirst(n, p, r, x);
    } else {
      FirstStays(n, p, r, x);
    }
  }

  lemma LastMovesFirst(n: seq<nat>, p: seq<nat>, r: seq<nat>, x: nat)
    requires Ring(n, p, r) && r != [] && Last(r) == x
    ensures Ring(n, p, [x] + Del(r, x))
  {
    var a := r[..|r| - 1];
    assert r == a + [x] == a + [x] + [];
    DelSplit(a, x, []);
    assert a + [] == a;
    Rotate(n, p, a, [x]);
  }

  lemma FirstStays(n: seq<nat>, p: seq<nat>, r: seq<nat>, x: nat)
    requires Ring(n, p, r) && |r| > 1 && x in r && x < |p| && Last(r) == p[x]
    ensures [x] + Del(r, x) == r
  {
    var k :| 0 <= k < |r| && r[k] == x;
    assert LinkedAt(n, p, r, k);
    assert k == 0;
    assert r == [x] + r[1..];
  }

  lemma NoDupTail(l: seq<nat>, s: seq<nat>)
    requires NoDup(l + s)
    ensures NoDup(s)
  {
    assert forall k :: 0 <= k < |s| ==> s[k] == (l + s)[|l| + k];
  }

  /** What the neighbours of `z` say about its place in the tail `s` of a ring. */
  lemma AtFront(n: seq<nat>, p: seq<nat>, l: seq<nat>, s: seq<nat>, z: nat, a: seq<nat>, b: seq<nat>)
    requires Ring(n, p, l + s) && l != [] && s == a + [z] + b && Del(s, z) == a + b
    ensures Del(l + s, z) == l + (a + b) && z in l + s && z < |p|
    ensures p[z] == Last(l) <==> a == []
    ensures a == [] ==> l + s == l + [z] + (a + b)
    ensures a != [] && b == [] ==> p[z] == Last(a)
    ensures Last(l + s) == z <==> b == []
    ensures b != [] ==> Last(l + s) == Last(b)
  {
    var k := |l| + |a|;
    InTail(l, s, z, a, b);
    InMiddle(l, a, z, b);
    LinksAt(n, p, l + s, k);
    hide Ring, Del, Last;
  }

  lemma InMiddle(l: seq<nat>, a: seq<nat>, z: nat, b: seq<nat>)
    requires l != [] && NoDup(l + (a + [z] + b))
    ensures var r, k := l + (a + [z] + b), |l| + |a|;
      && 0 < k < |r| && r[k] == z && (r[k - 1] == Last(l) <==> a == []) && (a != [] ==> r[k - 1] == Last(a))
      && Last(r) == (if b == [] then z else Last(b)) && (Last(r) == z <==> b == [])
      && (a == [] ==> r == l + [z] + (a + b))
  {
    var r, k := l + (a + [z] + b), |l| + |a|;
    assert r[|l| - 1] == Last(l);
    if a != [] { assert r[k - 1] == Last(a); }
    if b != [] { assert r[|r| - 1] == Last(b); }
  }

  lemma InTail(l: seq<nat>, s: seq<nat>, z: nat, a: seq<nat>, b: seq<nat>)
    requires NoDup(l + s) && s == a + [z] + b && Del(s, z) == a + b
    ensures Del(l + s, z) == l + (a + b)
  {
    NoDupTail(l, s);
    assert (l + s)[|l| + |a|] == z;
    assert forall k :: 0 <= k < |l| ==> l[k] == (l + s)[k];
    assert z !in l;
    assert forall k :: 0 <= k < |s| ==> s[k] == (l + s)[|l| + k];
    DelConcat(l, s, z);
    DelAbsent(l, z);
  }

  lemma NoDupHead(s: seq<nat>, l: seq<nat>)
    requires NoDup(s + l)
    ensures NoDup(s)
  {
    assert forall k :: 0 <= k < |s| ==> s[k] == (s + l)[k];
  }

  lemma InHead(s: seq<nat>, l: seq<nat>, z: nat, a: seq<nat>, b: seq<nat>)
    requires NoDup(s + l) && s == a + [z] + b && Del(s, z) == a + b
    ensures Del(s + l, z) == (a + b) + l
    ensures b == [] ==> s + l == (a + b) + [z] + l
  {
    forall k | 0 <= k < |l| ensures l[k] != z {
      assert (s + l)[|a|] == z && (s + l)[|s| + k] == l[k];
    }
    DelConcat(s, l, z);
    DelAbsent(l, z);
  }

  lemma AtBack(n: seq<nat>, p: seq<nat>, s: seq<nat>, l: seq<nat>, z: nat, a: seq<nat>, b: seq<nat>)
    requires Ring(n, p, s + l) && l != [] && s == a + [z] + b
    ensures z in s + l && z < |n|
    ensures n[z] == l[0] <==> b == []
  {
    var r := s + l;
    assert r[|a|] == z;
    assert LinkedAt(n, p, r, |a|);
    assert r[|s|] == l[0];
    if b != [] { assert r[|a| + 1] == b[0]; }
  }

  // ---------------------------------------------------------------------------
  // What the scans find

  lemma {:induction false} InUseCons(ce: seq<Entry>, x: nat, s: seq<nat>)
    requires x < |ce| && Below(s, |ce|)
    ensures InUse(ce, [x] + s) == InUse(ce, s) + if ce[x].refcnt == 0 then 0 else 1
  {
    if s == [] {
      assert [x] + s == [x];
      assert [x][..0] == [];
    } else {
      var front := s[..|s| - 1];
      assert ([x] + s)[..|s|] == [x] + front;
      InUseCons(ce, x, front);
    }
  }

  lemma ScanNothing(ce: seq<Entry>)
    ensures InUse(ce, []) == 0 && LastFree(ce, []) == FirstFree(ce, []) == None
  {
  }

  lemma ScanSnoc(ce: seq<Entry>, s: seq<nat>, x: nat)
    requires x < |ce| && Below(s, |ce|)
    ensures InUse(ce, s + [x]) == InUse(ce, s) + if ce[x].refcnt == 0 then 0 else 1
    ensures LastFree(ce, s + [x]) == if ce[x].refcnt == 0 then Some(x) else LastFree(ce, s)
  {
    assert (s + [x])[..|s|] == s;
  }

  lemma ScanCons(ce: seq<Entry>, x: nat, s: seq<nat>)
    requires x < |ce| && Below(s, |ce|)
    ensures InUse(ce, [x] + s) == InUse(ce, s) + if ce[x].refcnt == 0 then 0 else 1
    ensures FirstFree(ce, [x] + s) == if ce[x].refcnt == 0 then Some(x) else FirstFree(ce, s)
  {
    assert ([x] + s)[1..] == s;
    InUseCons(ce, x, s);
  }

  /** Keys being distinct, any match is the one that `Lookup` means. */
  lemma FoundKey(st: State, p: Place, x: nat, key: Key)
    requires Structured(st) && x in st.At(p) && p != Unused && x < |st.ce| && st.ce[x].key == key
    ensures Lookup(st, key, p) == Some(x)
  {
    var r := Lookup(st, key, p);
    assert x in st.At(p) && r.Some?;
    Apart(st, x);
    Apart(st, r.value);
    assert x !in st.unused && r.value !in st.unused;
  }

  lemma HitRing(st: State, x: nat, from: Place)
    requires Sized(st) && Partition(st) && x < |st.ce| && x in st.At(from) && (from == Prec || from == Probe)
    ensures var m := Move(st, x, Prec);
            && Sized(m) && Partition(m) && m.Ring() == [x] + Del(st.Ring(), x) && m.flight == st.flight
            && m.cap == st.cap && m.dprobe == st.dprobe && m.ce == st.ce
            && |m.prec| == |st.prec| + One(from == Probe) && |m.probe| == |st.probe| - One(from == Probe)
            && |m.gprec| == |st.gprec| && |m.gprobe| == |st.gprobe| && |m.flight| == |st.flight|
  {
    MoveOk(st, x, from, Prec);
    MoveSizes(st, x, from, Prec);
    MoveRing(st, x);
    Apart(st, x);
    DelAbsent(st.flight, x);
  }

  lemma HitWired(n: seq<nat>, p: seq<nat>, n': seq<nat>, p': seq<nat>, split: nat, split': nat,
                 inflight: nat, st: State, x: nat, from: Place)
    requires Wired(n, p, split, inflight, st) && x < |st.ce| && x in st.At(from) && (from == Prec || from == Probe)
    requires Rings(n', p', [x] + Del(st.Ring(), x), st.flight) && |n'| == |n|
    requires Del(st.Ring(), x) != [] && split' == Last(Del(st.Ring(), x))
    ensures Wired(n', p', split', inflight, Move(st, x, Prec))
    ensures var m := Move(st, x, Prec); m.cap == st.cap && m.dprobe == st.dprobe && m.ce == st.ce
    ensures var m := Move(st, x, Prec);
            && |m.prec| == |st.prec| + One(from == Probe) && |m.probe| == |st.probe| - One(from == Probe)
            && |m.gprec| == |st.gprec| && |m.gprobe| == |st.gprobe| && |m.flight| == |st.flight|
  {
    HitRing(st, x, from);
    hide Move;
    LastOfCons(x, Del(st.Ring(), x));
  }

  lemma LastOfCons(x: nat, s: seq<nat>)
    requires s != []
    ensures Last([x] + s) == Last(s)
  {
  }

  lemma OnRing(st: State, x: nat)
    requires x in st.prec || x in st.gprec || x in st.unused || x in st.gprobe || x in st.probe
    ensures x in st.Ring()
  {
  }

  /** A scan of a ghost partition that found nothing. */
  lemma NotFound(st: State, p: Place, key: Key)
    requires Shape(st)
    requires forall j :: 0 <= j < |st.At(p)| ==> st.At(p)[j] < |st.ce| && st.ce[st.At(p)[j]].key != key
    ensures Lookup(st, key, p) == None
  {
  }

  /** Fewer entries are cached than there are, so both scans of the ghosts start on the
      ring right behind the cached entries. */
  lemma GhostsExist(st: State)
    requires Shape(st)
    ensures st.gprec + st.unused + st.gprobe + st.probe != [] && st.prec + st.gprec + st.unused + st.gprobe != []
    ensures st.Ring() != [] && |st.Ring()| > |st.prec| + |st.probe|
    ensures st.gprec + (st.unused + st.gprobe + st.probe) == st.gprec + st.unused + st.gprobe + st.probe
    ensures (st.prec + st.gprec + st.unused) + st.gprobe == st.prec + st.gprec + st.unused + st.gprobe
    ensures !Full(st) ==> |st.flight| < st.cap
  {
  }

  /** `after` and `result` are what `Get` says, except for the reference it adds. */
  ghost predicate Answers(st: State, key: Key, after: State, result: Option<nat>)
    requires Shape(st)
  {
    match result
    case None => after == st && Get(st, key) == (st, None)
    case Some(x) => x < |after.ce| && Get(st, key) == (Ref(after, x), Some(x))
  }

  lemma AnswersCached(st: State, key: Key, x: nat)
    requires Shape(st)
    requires Lookup(st, key, Prec) == Some(x) || (Lookup(st, key, Prec) == None && Lookup(st, key, Probe) == Some(x))
    ensures Answers(st, key, Move(st, x, Prec), Some(x))
  {
  }

  lemma AnswersFlight(st: State, key: Key, x: nat)
    requires Shape(st) && Lookup(st, key, Flight) == Some(x)
    requires Lookup(st, key, Prec) == None && Lookup(st, key, Probe) == None
    ensures Answers(st, key, SetEntry(st, x, st.ce[x].(state := CsPrecious)), Some(x))
  {
  }

  lemma AnswersFull(st: State, key: Key)
    requires Shape(st) && Full(st)
    requires Lookup(st, key, Prec) == None && Lookup(st, key, Probe) == None && Lookup(st, key, Flight) == None
    ensures Answers(st, key, st, None)
  {
  }

  lemma AnswersGhost(st: State, key: Key, x: nat)
    requires Shape(st) && !Full(st)
    requires Lookup(st, key, Prec) == None && Lookup(st, key, Probe) == None && Lookup(st, key, Flight) == None
    requires Lookup(st, key, GhostPrec) == Some(x)
          || (Lookup(st, key, GhostPrec) == None && Lookup(st, key, GhostProbe) == Some(x))
    ensures Answers(st, key, GhostHit(st, x), Some(x))
  {
    hide GhostHit, Miss;
  }

  lemma AnswersMiss(st: State, key: Key)
    requires Shape(st) && !Full(st)
    requires Lookup(st, key, Prec) == None && Lookup(st, key, Probe) == None && Lookup(st, key, Flight) == None
    requires Lookup(st, key, GhostPrec) == None && Lookup(st, key, GhostProbe) == None
    ensures Answers(st, key, Miss(st, key), Some(Recycled(st)))
  {
    hide GhostHit, Miss;
  }

  // ---------------------------------------------------------------------------
  // Entries that come back from the in-flight list

  /** The head of the in-flight ring after `x` left it. */
  lemma HeadAfterDel(n: seq<nat>, p: seq<nat>, f: seq<nat>, x: nat)
    requires Ring(n, p, f) && x in f
    ensures x < |n|
    ensures Del(f, x) != [] ==> Del(f, x)[0] == if f[0] == x then n[x] else f[0]
  {
    var a, b := SplitAt(f, x);
    assert f[|a|] == x;
    assert LinkedAt(n, p, f, |a|);
    assert f[0] == x <==> a == [];
    if a == [] && b != [] { assert f[1] == b[0]; }
  }

  lemma LandRing(st: State, x: nat, to: Place)
    requires Sized(st) && Partition(st) && x < |st.ce| && x in st.flight
    requires to == Prec || to == Probe || to == Unused
    ensures var m := Move(st, x, to);
            && Sized(m) && Partition(m) && m.flight == Del(st.flight, x)
            && m.cap == st.cap && m.dprobe == st.dprobe && m.ce == st.ce
            && m.Ring() == (match to
                            case Prec => [x] + st.Ring()
                            case Probe => st.Ring() + [x]
                            case _ => (st.prec + st.gprec + st.unused) + [x] + (st.gprobe + st.probe))
            && |m.prec| == |st.prec| + One(to == Prec) && |m.probe| == |st.probe| + One(to == Probe)
            && |m.gprec| == |st.gprec| && |m.gprobe| == |st.gprobe| && |m.flight| == |st.flight| - 1
    ensures x !in st.Ring()
  {
    assert x in st.At(Flight);
    MoveOk(st, x, Flight, to);
    MoveSizes(st, x, Flight, to);
    MoveRing(st, x);
    DelRing(st, x);
    Apart(st, x);
    DelAbsent(st.prec, x);
    DelAbsent(st.gprec, x);
    DelAbsent(st.unused, x);
    DelAbsent(st.gprobe, x);
    DelAbsent(st.probe, x);
  }

  lemma LandWired(n: seq<nat>, p: seq<nat>, n': seq<nat>, p': seq<nat>, split: nat, split': nat,
                  inflight: nat, inflight': nat, st: State, x: nat, to: Place)
    requires Wired(n, p, split, inflight, st) && x < |st.ce| && x in st.flight
    requires to == Prec || to == Probe || to == Unused
    requires var r := match to
                      case Prec => [x] + st.Ring()
                      case Probe => st.Ring() + [x]
                      case _ => (st.prec + st.gprec + st.unused) + [x] + (st.gprobe + st.probe);
             Rings(n', p', r, Del(st.flight, x)) && |n'| == |n| && split' == Last(r)
    requires Del(st.flight, x) != [] ==> inflight' == Del(st.flight, x)[0]
    ensures Wired(n', p', split', inflight', Move(st, x, to))
    ensures var m := Move(st, x, to);
            && m.cap == st.cap && m.dprobe == st.dprobe && m.ce == st.ce
            && |m.prec| == |st.prec| + One(to == Prec) && |m.probe| == |st.probe| + One(to == Probe)
            && |m.gprec| == |st.gprec| && |m.gprobe| == |st.gprobe| && |m.flight| == |st.flight| - 1
  {
    LandRing(st, x, to);
    hide Move;
  }

  /** The links after a flush run through all entries, from the last to the first. */
  lemma FlushedWired(n: seq<nat>, p: seq<nat>, inflight: nat, cap: nat, ce: seq<Entry>)
    requires cap > 0 && |n| == |p| == |ce| == 2 * cap
    requires forall j :: 0 <= j < 2 * cap ==> n[j] == (if j > 0 then j - 1 else 2 * cap - 1)
    requires forall j :: 0 <= j < 2 * cap ==> p[j] == (if j < 2 * cap - 1 then j + 1 else 0)
    requires Structured(Flushed(cap, ce))
    ensures Wired(n, p, 0, inflight, Flushed(cap, ce))
  {
    var st := Flushed(cap, ce);
    var r := st.Ring();
    assert r == st.unused;
    forall k | 0 <= k < |r| ensures LinkedAt(n, p, r, k) {
      assert r[k] == 2 * cap - 1 - k;
    }
    assert Last(r) == 0;
  }
}
