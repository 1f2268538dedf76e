/** The entry cache (`src/kdumpfile/cache.c`), proved against `CacheSpec`. */
module Cache {
  import opened CacheInvariant
  import opened CacheRing
  import CacheRuns
  import opened CacheSpec
  import CacheTheorems
  import opened Options
  import opened RingList

  /** `struct cache_search`, with the victims as options instead of an index that is only
      meaningful when the count next to it is not zero. */
  datatype Search = Search(gprec: nat, eprec: nat, zprec: Option<nat>, nzprec: nat,
                           gprobe: nat, eprobe: nat, zprobe: Option<nat>, nzprobe: nat)

  /** What a search that found nothing cached has recorded about `st`. */
  ghost predicate Searched(cs: Search, st: State)
    requires Sized(st)
  {
    && cs.zprec == LastFree(st.ce, st.prec) && cs.nzprec == |st.prec| - InUse(st.ce, st.prec)
    && cs.zprobe == FirstFree(st.ce, st.probe) && cs.nzprobe == |st.probe| - InUse(st.ce, st.probe)
    && (st.gprec + st.unused + st.gprobe + st.probe != [] ==>
          cs.gprec == (st.gprec + st.unused + st.gprobe + st.probe)[0])
    && (st.prec + st.gprec + st.unused + st.gprobe != [] ==>
          cs.gprobe == Last(st.prec + st.gprec + st.unused + st.gprobe))
  }

  /** What the loop over the probed entries `s` knows when it has come down to index `n`. */
  ghost predicate ProbedFrom(ce: seq<Entry>, s: seq<nat>, n: nat, key: Key, zprobe: Option<nat>, nzprobe: nat) {
    && n <= |s| && Below(s, |ce|) && (forall j :: n <= j < |s| ==> ce[s[j]].key != key)
    && zprobe == FirstFree(ce, s[n..]) && nzprobe == |s| - n - InUse(ce, s[n..])
  }

  lemma ProbedNone(ce: seq<Entry>, s: seq<nat>, key: Key)
    requires Below(s, |ce|)
    ensures ProbedFrom(ce, s, |s|, key, None, 0)
  {
    ScanNothing(ce);
  }

  lemma ProbedOne(ce: seq<Entry>, s: seq<nat>, n: nat, key: Key, zprobe: Option<nat>, nzprobe: nat)
    requires ProbedFrom(ce, s, n, key, zprobe, nzprobe) && n > 0 && s[n - 1] < |ce| && ce[s[n - 1]].key != key
    ensures var free := ce[s[n - 1]].refcnt == 0;
      ProbedFrom(ce, s, n - 1, key, if free then Some(s[n - 1]) else zprobe, if free then nzprobe + 1 else nzprobe)
  {
    assert s[n - 1..] == [s[n - 1]] + s[n..];
    ScanCons(ce, s[n - 1], s[n..]);
    hide FirstFree, InUse;
  }

  lemma ProbedAll(ce: seq<Entry>, s: seq<nat>, key: Key, zprobe: Option<nat>, nzprobe: nat)
    requires ProbedFrom(ce, s, 0, key, zprobe, nzprobe)
    ensures Below(s, |ce|) && (forall j :: 0 <= j < |s| ==> ce[s[j]].key != key)
    ensures zprobe == FirstFree(ce, s) && nzprobe == |s| - InUse(ce, s)
  {
    assert s[0..] == s;
  }

  lemma CountInUse(cs: Search, st: State)
    requires Shape(st) && Searched(cs, st)
    ensures cs.nzprec <= |st.prec| && cs.nzprobe <= |st.probe|
    ensures Full(st) <==> (|st.prec| - cs.nzprec) + (|st.probe| - cs.nzprobe) + |st.flight| >= st.cap
  {
  }

  lemma DefinedMiss(st: State, key: Key)
    requires Shape(st) && Defined(st, key) && !Full(st)
    requires Lookup(st, key, Prec) == None && Lookup(st, key, Probe) == None && Lookup(st, key, Flight) == None
    requires Lookup(st, key, GhostPrec) == None && Lookup(st, key, GhostProbe) == None
    ensures st.ce[Recycled(st)].data.None? ==> Victim(st, 1).Some?
  {
  }

  class EntryCache {
    const cap: nat
    var split: nat
    var nprec: nat
    var ngprec: nat
    var nprobe: nat
    var ngprobe: nat
    var dprobe: nat
    var inflight: nat
    var ninflight: nat
    var hits: nat
    var misses: nat
    const next: array<nat>
    const prev: array<nat>
    const ce: array<Entry>
    ghost var st: State

    /** The main ring reads `r` and the in-flight ring `f`. */
    ghost predicate Links(r: seq<nat>, f: seq<nat>)
      reads next, prev
    {
      && next != prev && next.Length == prev.Length == 2 * cap
      && Rings(next[..], prev[..], r, f)
    }

    ghost predicate Linked()
      reads this`split, this`inflight, this`dprobe, this`st, next, prev, ce
    {
      && next != prev && next.Length == prev.Length == ce.Length == 2 * cap
      && Wired(next[..], prev[..], split, inflight, st)
      && st.cap == cap && st.dprobe == dprobe && st.ce == ce[..]
    }

    /** The counters agree with the lists, but for ghosts about to leave theirs. */
    ghost predicate CountedBut(lessProbe: nat, lessPrec: nat)
      reads this`nprec, this`ngprec, this`nprobe, this`ngprobe, this`ninflight, this`st
    {
      && nprec == |st.prec| && ngprec + lessPrec == |st.gprec|
      && nprobe == |st.probe| && ngprobe + lessProbe == |st.gprobe| && ninflight == |st.flight|
    }

    /** The state that the fields, links and entries represent. */
    ghost function View(lessProbe: nat := 0, lessPrec: nat := 0): Option<State>
      reads this`nprec, this`ngprec, this`nprobe, this`ngprobe, this`ninflight,
            this`split, this`inflight, this`dprobe, this`st, next, prev, ce
    {
      if Linked() && CountedBut(lessProbe, lessPrec) then Some(st) else None
    }

    /** `remove_entry` on the main ring. */
    method Unlink(idx: nat, ghost r: seq<nat>, ghost f: seq<nat>)
      requires Links(r, f) && idx in r
      modifies next, prev
      ensures Links(Del(r, idx), f)
      ensures forall i :: i in Del(r, idx) <==> i in r && i != idx
    {
      ghost var a, b := SplitAt(r, idx);
      ghost var n0, p0 := next[..], prev[..];
      DelFacts(r, idx);
      Remove(next, prev, idx, a, b);
      RingFrame(n0, p0, next[..], prev[..], f);
    }

    /** `add_entry_after` on the main ring, which reads `a + b`. */
    method LinkAfter(idx: nat, insidx: nat, ghost a: seq<nat>, ghost b: seq<nat>, ghost f: seq<nat>)
      requires Links(a + b, f) && idx < 2 * cap && idx !in a + b && idx !in f
      requires a != [] && Last(a) == insidx
      modifies next, prev
      ensures Links(a + [idx] + b, f)
    {
      ghost var n0, p0 := next[..], prev[..];
      AddAfter(next, prev, idx, insidx, a, b);
      RingFrame(n0, p0, next[..], prev[..], f);
    }

    /** `add_entry_before` on the main ring, which reads `a + b`. */
    method LinkBefore(idx: nat, insidx: nat, ghost a: seq<nat>, ghost b: seq<nat>, ghost f: seq<nat>)
      requires Links(a + b, f) && idx < 2 * cap && idx !in a + b && idx !in f
      requires b != [] && b[0] == insidx
      modifies next, prev
      ensures Links(a + [idx] + b, f)
    {
      ghost var n0, p0 := next[..], prev[..];
      AddBefore(next, prev, idx, insidx, a, b);
      RingFrame(n0, p0, next[..], prev[..], f);
    }

    /** `add_inflight` */
    method AddInflight(idx: nat, ghost r: seq<nat>, ghost f: seq<nat>)
      requires Links(r, f) && idx < 2 * cap && idx !in r && idx !in f
      requires ninflight == |f| && (f != [] ==> inflight == f[0])
      modifies this`ninflight, this`inflight, next, prev
      ensures Links(r, f + [idx]) && ninflight == |f| + 1 && inflight == (f + [idx])[0]
    {
      ghost var n0, p0 := next[..], prev[..];
      ninflight := ninflight + 1;
      if ninflight != 1 {
        AddLast(next, prev, idx, inflight, f);
      } else {
        assert f + [idx] == [idx];
        MakeSingle(next, prev, idx);
        inflight := idx;
      }
      RingFrame(n0, p0, next[..], prev[..], r);
    }

    /** `reuse_cached_entry`: the ring now starts with `idx`. */
    method ReuseCachedEntry(idx: nat, ghost r: seq<nat>, ghost f: seq<nat>)
      requires Links(r, f) && |r| > 1 && idx in r && split == Last(r)
      modifies this`split, this`hits, next, prev
      ensures Links([idx] + Del(r, idx), f) && Del(r, idx) != []
      ensures split == Last(Del(r, idx))
      ensures hits == old(hits) + 1
    {
      DelFacts(r, idx);
      if split != idx && split != prev[idx] {
        ghost var d := Del(r, idx);
        Unlink(idx, r, f);
        LastStays(r, idx);
        LinkLast(idx, split, d, f);
        Rotate(next[..], prev[..], d, [idx]);
      } else {
        AlreadyFirst(next[..], prev[..], r, idx);
      }
      assert LinkedAt(next[..], prev[..], [idx] + Del(r, idx), 0);
      split := prev[idx];
      hits := hits + 1;
    }

    method LinkLast(idx: nat, last: nat, ghost r: seq<nat>, ghost f: seq<nat>)
      requires Links(r, f) && idx < 2 * cap && idx !in r && idx !in f
      requires r != [] && Last(r) == last
      modifies next, prev
      ensures Links(r + [idx], f)
    {
      assert r + [] == r;
      LinkAfter(idx, last, r, [], f);
      assert r + [idx] + [] == r + [idx];
    }

    /** Put back an entry that was taken out of the ring. */
    method Relink(idx: nat, insidx: nat, ghost a: seq<nat>, ghost b: seq<nat>, ghost r: seq<nat>, ghost f: seq<nat>)
      requires Links(r, f) && idx in r && Del(r, idx) == a + b
      requires a != [] && Last(a) == insidx
      modifies next, prev
      ensures Links(a + [idx] + b, f)
    {
      DelFacts(r, idx);
      Unlink(idx, r, f);
      LinkAfter(idx, insidx, a, b, f);
    }

    method RelinkBefore(idx: nat, insidx: nat, ghost a: seq<nat>, ghost b: seq<nat>, ghost r: seq<nat>,
                        ghost f: seq<nat>)
      requires Links(r, f) && idx in r && Del(r, idx) == a + b
      requires b != [] && b[0] == insidx
      modifies next, prev
      ensures Links(a + [idx] + b, f)
    {
      DelFacts(r, idx);
      Unlink(idx, r, f);
      LinkBefore(idx, insidx, a, b, f);
    }

    /** The links of `evict_probe` on a ring `l + s`, where `s` is the probed partition:
        `z` moves to the front of `s`.  Returns the new split point. */
    method EvictProbeLinks(z: nat, gprobe: nat, ghost l: seq<nat>, ghost s: seq<nat>, ghost f: seq<nat>)
      returns (newSplit: nat)
      requires Links(l + s, f) && z in s && l != [] && Last(l) == gprobe && split == Last(l + s)
      modifies next, prev
      ensures Links(l + [z] + Del(s, z), f)
      ensures newSplit == Last(l + [z] + Del(s, z))
    {
      newSplit := split;
      NoDupTail(l, s);
      ghost var a, b := SplitAt(s, z);
      AtFront(next[..], prev[..], l, s, z, a, b);
      if prev[z] != gprobe {
        if z == split {
          newSplit := prev[z];
        }
        Relink(z, gprobe, l, a + b, l + s, f);
      }
    }

    method EvictProbeMove(z: nat, gprobe: nat)
      requires Linked() && z in st.probe && z < 2 * cap
      requires st.prec + st.gprec + st.unused + st.gprobe != []
      requires gprobe == Last(st.prec + st.gprec + st.unused + st.gprobe)
      modifies this`split, this`st, next, prev
      ensures Linked() && st == Move(old(st), z, GhostProbe)
    {
      hide Move;
      ghost var l := st.prec + st.gprec + st.unused + st.gprobe;
      assert st.Ring() == l + st.probe;
      split := EvictProbeLinks(z, gprobe, l, st.probe, st.flight);
      EvictProbeWired(old(next[..]), old(prev[..]), next[..], prev[..], old(split), split, inflight, st, z);
      st := Move(st, z, GhostProbe);
    }

    /** `evict_probe`: `z` becomes the most recently used ghost of the probed kind. */
    method EvictProbe(z: nat, gprobe: nat, ghost lessProbe: nat, ghost lessPrec: nat)
      requires View(lessProbe, lessPrec) == Some(st) && z in st.probe && z < 2 * cap
      requires st.prec + st.gprec + st.unused + st.gprobe != []
      requires gprobe == Last(st.prec + st.gprec + st.unused + st.gprobe)
      modifies this`split, this`nprobe, this`ngprobe, this`st, next, prev
      ensures View(lessProbe, lessPrec) == Some(Move(old(st), z, GhostProbe))
    {
      hide Move;
      EvictedSizes(st, z, Probe, GhostProbe);
      EvictProbeMove(z, gprobe);
      nprobe := nprobe - 1;
      ngprobe := ngprobe + 1;
    }

    /** The links of `evict_prec` on a ring `s + l`, where `s` is the precious partition:
        `z` moves to the end of `s`. */
    method EvictPrecLinks(z: nat, gprec: nat, ghost s: seq<nat>, ghost l: seq<nat>, ghost f: seq<nat>)
      requires Links(s + l, f) && z in s && l != [] && l[0] == gprec
      modifies next, prev
      ensures Links(Del(s, z) + [z] + l, f)
    {
      NoDupHead(s, l);
      ghost var a, b := SplitAt(s, z);
      InHead(s, l, z, a, b);
      AtBack(next[..], prev[..], s, l, z, a, b);
      if next[z] != gprec {
        RelinkBefore(z, gprec, a + b, l, s + l, f);
      }
    }

    method EvictPrecMove(z: nat, gprec: nat)
      requires Linked() && z in st.prec && z < 2 * cap
      requires st.gprec + st.unused + st.gprobe + st.probe != []
      requires gprec == (st.gprec + st.unused + st.gprobe + st.probe)[0]
      modifies this`st, next, prev
      ensures Linked() && st == Move(old(st), z, GhostPrec)
    {
      hide Move;
      ghost var l := st.gprec + st.unused + st.gprobe + st.probe;
      assert st.Ring() == st.prec + l;
      EvictPrecLinks(z, gprec, st.prec, l, st.flight);
      EvictPrecWired(old(next[..]), old(prev[..]), next[..], prev[..], split, inflight, st, z);
      st := Move(st, z, GhostPrec);
    }

    /** `evict_prec`: `z` becomes the most recently used ghost of the precious kind. */
    method EvictPrec(z: nat, gprec: nat, ghost lessProbe: nat, ghost lessPrec: nat)
      requires View(lessProbe, lessPrec) == Some(st) && z in st.prec && z < 2 * cap
      requires st.gprec + st.unused + st.gprobe + st.probe != []
      requires gprec == (st.gprec + st.unused + st.gprobe + st.probe)[0]
      modifies this`nprec, this`ngprec, this`st, next, prev
      ensures View(lessProbe, lessPrec) == Some(Move(old(st), z, GhostPrec))
    {
      hide Move;
      EvictedSizes(st, z, Prec, GhostPrec);
      EvictPrecMove(z, gprec);
      nprec := nprec - 1;
      ngprec := ngprec + 1;
    }

    /** `evict_entry` */
    method EvictEntry(cs: Search, bias: nat, ghost lessProbe: nat, ghost lessPrec: nat) returns (v: nat)
      requires View(lessProbe, lessPrec) == Some(st) && Shape(st)
      requires Searched(cs, st) && Victim(st, bias).Some?
      modifies this`split, this`nprobe, this`ngprobe, this`nprec, this`ngprec, this`st, next, prev
      ensures Victim(old(st), bias) == Some(v) && v < 2 * cap
      ensures View(lessProbe, lessPrec)
           == Some(Move(old(st), v, if v in old(st).probe then GhostProbe else GhostPrec))
    {
      hide Move;
      if cs.nzprobe != 0 && (cs.nzprec == 0 || nprobe + bias > dprobe) {
        v := cs.zprobe.value;
        EvictProbe(v, cs.gprobe, lessProbe, lessPrec);
      } else {
        v := cs.zprec.value;
        Apart(st, v);
        EvictPrec(v, cs.gprec, lessProbe, lessPrec);
      }
    }

    /** The counting loop that follows `prev` over the part `s` of a ring `a + s + b`. */
    method WalkBack(start: nat, count: nat, ghost a: seq<nat>, ghost s: seq<nat>, ghost b: seq<nat>) returns (idx: nat)
      requires next != prev && next.Length == prev.Length && Ring(next[..], prev[..], a + s + b)
      requires count == |s| && a + s + b != [] && start == LastOr(a + s, a + s + b)
      ensures idx == LastOr(a, a + s + b)
    {
      var n := count;
      idx := start;
      while n > 0
        invariant 0 <= n <= count && idx == if n > 0 then s[n - 1] else LastOr(a, a + s + b)
      {
        assert (a + s + b)[|a| + n - 1] == idx;
        LinksAt(next[..], prev[..], a + s + b, |a| + n - 1);
        idx := prev[idx];
        n := n - 1;
      }
    }

    /** Hand the buffer of entry `from` to entry `x`. */
    method Transfer(from: nat, x: nat, ghost lessProbe: nat, ghost lessPrec: nat)
      requires View(lessProbe, lessPrec) == Some(st) && from < 2 * cap && x < 2 * cap
      modifies ce, this`st
      ensures View(lessProbe, lessPrec) == Some(st)
      ensures st == old(st).(ce := old(st).ce[from := old(st).ce[from].(data := None)][x := st.ce[x]])
      ensures from != x ==> st.ce[x] == old(st).ce[x].(data := old(st).ce[from].data)
    {
      var data := ce[from].data;
      ce[from] := ce[from].(data := None);
      ce[x] := ce[x].(data := data);
      ghost var before := st;
      st := st.(ce := ce[..]);
      WiredSame(next[..], prev[..], split, inflight, before, st);
    }

    /** Evict an entry and hand its buffer to `x`. */
    method EvictInto(x: nat, cs: Search, bias: nat, ghost lessProbe: nat, ghost lessPrec: nat)
      requires View(lessProbe, lessPrec) == Some(st) && Shape(st)
      requires Searched(cs, st) && Victim(st, bias).Some? && x < 2 * cap && !st.Cached(x)
      modifies this`split, this`nprobe, this`ngprobe, this`nprec, this`ngprec, this`st, next, prev, ce
      ensures View(lessProbe, lessPrec) == Some(st) && st == EvictFor(old(st), x, bias)
    {
      hide Move;
      var v := EvictEntry(cs, bias, lessProbe, lessPrec);
      Transfer(v, x, lessProbe, lessPrec);
      EvictsFor(old(st), x, v, bias, st.ce);
    }

    /** `reclaim_data`, storing the reclaimed buffer in ghost entry `x`. */
    method ReclaimData(x: nat, cs: Search)
      requires View() == Some(st) && Shape(st) && Searched(cs, st)
      requires st.Total() < st.cap || Victim(st, 0).Some?
      requires x < 2 * cap && st.Ghost(x)
      modifies this`split, this`nprobe, this`ngprobe, this`nprec, this`ngprec, this`st, next, prev, ce
      ensures View() == Some(ReclaimFor(old(st), x))
    {
      hide Move;
      Apart(st, x);
      if nprec + nprobe + ninflight < cap {
        ghost var a := st.prec + st.gprec + st.unused;
        assert st.Ring() == a + st.gprobe + st.probe;
        var entry := WalkBack(cs.gprobe, ngprobe, a, st.gprobe, st.probe);
        assert Last(a) == Last(st.unused);
        Transfer(entry, x, 0, 0);
        ReclaimUnused(old(st), x, entry, st.ce);
      } else {
        EvictInto(x, cs, 0, 0, 0);
      }
    }

    /** The links of an entry that goes in flight; keeps the split point on the ring. */
    method LaunchLinks(x: nat, ghost r: seq<nat>, ghost f: seq<nat>)
      requires Links(r, f) && |r| > 1 && x in r && x < 2 * cap && split == Last(r)
      requires ninflight == |f| && (f != [] ==> inflight == f[0])
      modifies this`split, this`inflight, this`ninflight, next, prev
      ensures Links(Del(r, x), f + [x]) && Del(r, x) != []
      ensures split == Last(Del(r, x)) && ninflight == |f| + 1 && inflight == (f + [x])[0]
    {
      LastAfterDel(next[..], prev[..], r, x);
      if split == x {
        split := prev[x];
      }
      DelFacts(r, x);
      Unlink(x, r, f);
      AddInflight(x, Del(r, x), f);
    }

    /** Move entry `x`, which its partition does not count any more, from the main ring
        to the in-flight ring. */
    method Launch(x: nat, ghost from: Place)
      requires View(One(from == GhostProbe), One(from == GhostPrec)) == Some(st) && |st.flight| < st.cap
      requires x < 2 * cap && x in st.At(from)
      requires from == Unused || from == GhostPrec || from == GhostProbe
      modifies this`split, this`inflight, this`ninflight, this`st, next, prev
      ensures View() == Some(Move(old(st), x, Flight))
    {
      hide Move;
      LaunchRing(st, x, from);
      LaunchLinks(x, st.Ring(), st.flight);
      st := Move(st, x, Flight);
      LaunchWired(old(next[..]), old(prev[..]), next[..], prev[..], old(split), split,
                  old(inflight), inflight, old(st), x, from);
    }

    /** The first part of `get_missed_entry`: which entry to use, no longer counted as a
        ghost when it is one. */
    method PickRecycled(cs: Search) returns (idx: nat, ghost from: Place)
      requires View() == Some(st) && Shape(st) && Ends(st, cs.eprec, cs.eprobe)
      modifies this`ngprobe, this`ngprec
      ensures idx == Recycled(st) && idx in st.At(from)
      ensures from == if st.unused != [] then Unused else if st.gprobe != [] then GhostProbe else GhostPrec
      ensures View(One(from == GhostProbe), One(from == GhostPrec)) == Some(st)
      ensures Partition(st) && idx < |st.ce| == 2 * cap == ce.Length && ce[idx] == st.ce[idx]
    {
      EndsMeet(next[..], prev[..], st, cs.eprec, cs.eprobe);
      from := if st.unused != [] then Unused else if st.gprobe != [] then GhostProbe else GhostPrec;
      idx := cs.eprobe;
      if next[idx] == cs.eprec {
        if ngprobe != 0 {
          idx := next[idx];
          ngprobe := ngprobe - 1;
        } else if ngprec != 0 {
          ngprec := ngprec - 1;
        }
      }
    }

    /** Overwrite an entry. */
    method Write(x: nat, e: Entry)
      requires View() == Some(st) && x < 2 * cap
      modifies ce, this`st
      ensures View() == Some(SetEntry(old(st), x, e))
    {
      ce[x] := e;
      ghost var before := st;
      st := SetEntry(st, x, e);
      WiredSame(next[..], prev[..], split, inflight, before, st);
    }

    /** The entry that `get_missed_entry` uses, with a buffer. */
    method PrepareRecycled(cs: Search) returns (idx: nat, ghost from: Place)
      requires View() == Some(st) && Shape(st) && |st.flight| < st.cap
      requires Searched(cs, st) && Ends(st, cs.eprec, cs.eprobe)
      requires st.ce[Recycled(st)].data.None? ==> Victim(st, 1).Some?
      modifies this`split, this`nprobe, this`ngprobe, this`nprec, this`ngprec, this`st, next, prev, ce
      ensures idx == Recycled(old(st)) && idx in st.At(from)
              && (from == Unused || from == GhostPrec || from == GhostProbe)
      ensures View(One(from == GhostProbe), One(from == GhostPrec)) == Some(st) && |st.flight| < st.cap && idx < 2 * cap
      ensures st == if old(st).ce[idx].data.None? then EvictFor(old(st), idx, 1) else old(st)
    {
      hide View, Shape, Sized, Partition, Searched, Ends, Recycled, Victim, Ring, NoDup, Move, EvictFor;
      idx, from := PickRecycled(cs);
      Apart(st, idx);
      if ce[idx].data.None? {
        CacheRuns.EvictForStays(st, idx, 1, from);
        EvictInto(idx, cs, 1, One(from == GhostProbe), One(from == GhostPrec));
      }
    }

    /** `get_missed_entry` */
    method GetMissedEntry(key: Key, cs: Search) returns (idx: nat)
      requires View() == Some(st) && Shape(st) && |st.flight| < st.cap
      requires Searched(cs, st) && Ends(st, cs.eprec, cs.eprobe)
      requires st.ce[Recycled(st)].data.None? ==> Victim(st, 1).Some?
      modifies this`split, this`nprobe, this`ngprobe, this`nprec, this`ngprec, this`inflight, this`ninflight, this`st,
               next, prev, ce
      ensures View() == Some(st) && st == Miss(old(st), key) && idx == Recycled(old(st))
    {
      ghost var from;
      hide Recycled, Victim, EvictFor, Move, Miss, Wired, Partition, Searched;
      idx, from := PrepareRecycled(cs);
      Launch(idx, from);
      Write(idx, ce[idx].(key := key, state := CsProbe));
      MissParts(old(st), key);
    }

    lemma MissParts(before: State, key: Key)
      requires Shape(before)
      ensures var x := Recycled(before);
              var filled := if before.ce[x].data.None? then EvictFor(before, x, 1) else before;
              && |Move(filled, x, Flight).ce| == |before.ce| && Move(filled, x, Flight).ce == filled.ce
              && Miss(before, key)
              == SetEntry(Move(filled, x, Flight), x, filled.ce[x].(key := key, state := CsProbe))
    {
    }

    /** The loop along `next` over the part `s` of a ring `a + s + b`; stops at an entry
        with the requested key. */
    method ScanForward(start: nat, count: nat, key: Key, ghost a: seq<nat>, ghost s: seq<nat>, ghost b: seq<nat>)
      returns (found: bool, idx: nat)
      requires next != prev && next.Length == prev.Length == ce.Length && Ring(next[..], prev[..], a + s + b)
      requires count == |s| && a + s + b != [] && start == HeadOr(s + b, a + s + b) && Below(s, ce.Length)
      ensures found ==> idx in s && idx < ce.Length && ce[idx].key == key
      ensures !found ==> idx == HeadOr(b, a + s + b) && forall j :: 0 <= j < |s| ==> ce[s[j]].key != key
    {
      var n := count;
      idx, found := start, false;
      while n > 0
        invariant 0 <= n <= count && idx == if n > 0 then s[count - n] else HeadOr(b, a + s + b)
        invariant forall j :: 0 <= j < count - n ==> ce[s[j]].key != key
      {
        if ce[idx].key == key {
          return true, idx;
        }
        assert (a + s + b)[|a| + (count - n)] == idx;
        LinksAt(next[..], prev[..], a + s + b, |a| + (count - n));
        idx := next[idx];
        n := n - 1;
      }
    }

    /** The loop along `prev` over the part `s` of a ring `a + s + b`. */
    method ScanBackward(start: nat, count: nat, key: Key, ghost a: seq<nat>, ghost s: seq<nat>, ghost b: seq<nat>)
      returns (found: bool, idx: nat)
      requires next != prev && next.Length == prev.Length == ce.Length && Ring(next[..], prev[..], a + s + b)
      requires count == |s| && a + s + b != [] && start == LastOr(a + s, a + s + b) && Below(s, ce.Length)
      ensures found ==> idx in s && idx < ce.Length && ce[idx].key == key
      ensures !found ==> idx == LastOr(a, a + s + b) && forall j :: 0 <= j < |s| ==> ce[s[j]].key != key
    {
      var n := count;
      idx, found := start, false;
      while n > 0
        invariant 0 <= n <= count && idx == if n > 0 then s[n - 1] else LastOr(a, a + s + b)
        invariant forall j :: n <= j < count ==> ce[s[j]].key != key
      {
        if ce[idx].key == key {
          return true, idx;
        }
        assert (a + s + b)[|a| + n - 1] == idx;
        LinksAt(next[..], prev[..], a + s + b, |a| + n - 1);
        idx := prev[idx];
        n := n - 1;
      }
    }

    /** The loop over the precious partition `s`, the first elements of the ring. */
    method ScanPrecious(start: nat, count: nat, key: Key, ghost s: seq<nat>, ghost l: seq<nat>)
      returns (found: bool, idx: nat, zprec: Option<nat>, nzprec: nat)
      requires next != prev && next.Length == prev.Length == ce.Length && Ring(next[..], prev[..], s + l)
      requires count == |s| && l != [] && start == (s + l)[0] && Below(s, ce.Length)
      ensures found ==> idx in s && idx < ce.Length && ce[idx].key == key
      ensures !found ==> idx == l[0] && forall j :: 0 <= j < count ==> ce[s[j]].key != key
      ensures !found ==> zprec == LastFree(ce[..], s) && nzprec == count - InUse(ce[..], s)
    {
      hide LastFree, InUse, Ring;
      var n := count;
      idx, found := start, false;
      ScanNothing(ce[..]);
      zprec, nzprec := None, 0;
      while n > 0
        invariant 0 <= n <= count && idx == (s + l)[count - n]
        invariant forall j :: 0 <= j < count - n ==> ce[s[j]].key != key
        invariant zprec == LastFree(ce[..], s[..count - n])
        invariant nzprec == count - n - InUse(ce[..], s[..count - n])
      {
        ghost var i := count - n;
        assert s[i] == (s + l)[i];
        if ce[idx].key == key {
          return true, idx, zprec, nzprec;
        }
        assert s[..i + 1] == s[..i] + [idx];
        ScanSnoc(ce[..], s[..i], idx);
        if ce[idx].refcnt == 0 {
          zprec := Some(idx);
          nzprec := nzprec + 1;
        }
        LinksAt(next[..], prev[..], s + l, i);
        idx := next[idx];
        n := n - 1;
      }
      assert s[..count] == s;
    }

    /** The loop over the probed partition `s`, the last elements of the ring. */
    method ScanProbed(start: nat, count: nat, key: Key, ghost l: seq<nat>, ghost s: seq<nat>)
      returns (found: bool, idx: nat, zprobe: Option<nat>, nzprobe: nat)
      requires next != prev && next.Length == prev.Length == ce.Length && Ring(next[..], prev[..], l + s)
      requires count == |s| && l != [] && start == Last(l + s) && Below(s, ce.Length)
      ensures found ==> idx in s && idx < ce.Length && ce[idx].key == key
      ensures !found ==> idx == Last(l) && forall j :: 0 <= j < count ==> ce[s[j]].key != key
      ensures !found ==> zprobe == FirstFree(ce[..], s) && nzprobe == count - InUse(ce[..], s)
    {
      hide FirstFree, InUse, Ring, ProbedFrom, Below;
      var n := count;
      idx, found := start, false;
      ProbedNone(ce[..], s, key);
      zprobe, nzprobe := None, 0;
      while n > 0
        invariant 0 <= n <= count && idx == (l + s)[|l| + n - 1] && ProbedFrom(ce[..], s, n, key, zprobe, nzprobe)
      {
        LinksAt(next[..], prev[..], l + s, |l| + n - 1);
        assert s[n - 1] == (l + s)[|l| + n - 1] == idx;
        if ce[idx].key == key {
          return true, idx, zprobe, nzprobe;
        }
        ProbedOne(ce[..], s, n, key, zprobe, nzprobe);
        if ce[idx].refcnt == 0 {
          zprobe := Some(idx);
          nzprobe := nzprobe + 1;
        }
        idx := prev[idx];
        n := n - 1;
      }
      ProbedAll(ce[..], s, key, zprobe, nzprobe);
    }

    /** A hit in the cache: the entry becomes the most recently used precious one. */
    method HitCached(idx: nat, probed: bool)
      requires View() == Some(st) && idx < 2 * cap && |st.Ring()| > 1
      requires if probed then idx in st.probe else idx in st.prec
      modifies this`split, this`hits, this`nprec, this`nprobe, this`st, next, prev
      ensures View() == Some(st) && st == Move(old(st), idx, Prec) && hits == old(hits) + 1
    {
      hide Move;
      ghost var from := if probed then Probe else Prec;
      OnRing(st, idx);
      if probed {
        nprobe := nprobe - 1;
        nprec := nprec + 1;
      }
      ReuseCachedEntry(idx, st.Ring(), st.flight);
      st := Move(st, idx, Prec);
      HitWired(old(next[..]), old(prev[..]), next[..], prev[..], old(split), split, inflight, old(st), idx, from);
    }

    /** A ghost hit; `inPrec` says in which of the ghost partitions. */
    method HitGhost(idx: nat, inPrec: bool, cs: Search)
      requires View() == Some(st) && Shape(st) && |st.flight| < st.cap && Searched(cs, st)
      requires idx < 2 * cap && if inPrec then idx in st.gprec else idx in st.gprobe
      requires st.Total() < st.cap || Victim(Adapt(st, idx), 0).Some?
      modifies this`split, this`nprobe, this`ngprobe, this`nprec, this`ngprec, this`inflight, this`ninflight,
               this`dprobe, this`st, next, prev, ce
      ensures View() == Some(st) && st == GhostHit(old(st), idx)
    {
      hide Move, ReclaimFor, Adapt, GhostHit, Ring, Rings, NoDup, Below, Victim;
      ghost var from := if inPrec then GhostPrec else GhostProbe;
      AdaptTarget(idx, inPrec);
      CacheRuns.ReclaimStays(st, idx, from);
      ReclaimData(idx, cs);
      UncountGhost(idx, inPrec, from);
      Launch(idx, from);
      Write(idx, ce[idx].(state := CsPrecious));
      GhostHitParts(old(st), idx);
    }

    lemma GhostHitParts(before: State, x: nat)
      requires Shape(before) && x < |before.ce| && before.Ghost(x)
      ensures var f := ReclaimFor(Adapt(before, x), x);
              GhostHit(before, x) == SetEntry(Move(f, x, Flight), x, f.ce[x].(state := CsPrecious))
      ensures |Move(ReclaimFor(Adapt(before, x), x), x, Flight).ce| == |before.ce|
      ensures Move(ReclaimFor(Adapt(before, x), x), x, Flight).ce == ReclaimFor(Adapt(before, x), x).ce
    {
    }

    /** A ghost that is about to leave its partition is not counted any more. */
    method UncountGhost(idx: nat, inPrec: bool, ghost from: Place)
      requires View() == Some(st) && from == (if inPrec then GhostPrec else GhostProbe) && idx in st.At(from)
      modifies this`ngprec, this`ngprobe
      ensures View(One(from == GhostProbe), One(from == GhostPrec)) == Some(st)
    {
      if inPrec {
        ngprec := ngprec - 1;
      } else {
        ngprobe := ngprobe - 1;
      }
    }

    /** The update of `dprobe` on a ghost hit. */
    method AdaptTarget(idx: nat, inPrec: bool)
      requires View() == Some(st) && Shape(st) && if inPrec then idx in st.gprec else idx in st.gprobe
      modifies this`dprobe, this`st
      ensures View() == Some(Adapt(old(st), idx))
      ensures Shape(st) && SameLists(old(st), st) && st.ce == old(st).ce
    {
      Apart(st, idx);
      if inPrec {
        var delta := if ngprobe > ngprec then ngprobe / ngprec else 1;
        dprobe := if dprobe > delta then dprobe - delta else 0;
      } else {
        var delta := if ngprec > ngprobe then ngprec / ngprobe else 1;
        dprobe := if dprobe + delta < cap then dprobe + delta else cap;
      }
      ghost var before := st;
      st := Adapt(st, idx);
      WiredSame(next[..], prev[..], split, inflight, before, st);
    }

    /** The scan of the precious ghosts. */
    method FindGhostPrec(key: Key, gprec: nat) returns (found: bool, idx: nat)
      requires View() == Some(st) && Structured(st)
      requires st.Ring() != [] && gprec == HeadOr(st.gprec + (st.unused + st.gprobe + st.probe), st.Ring())
      ensures found ==> idx in st.gprec && idx < 2 * cap && Lookup(st, key, GhostPrec) == Some(idx)
      ensures !found ==>
              idx == HeadOr(st.unused + st.gprobe + st.probe, st.Ring())
              && Lookup(st, key, GhostPrec) == None
    {
      ghost var b := st.unused + st.gprobe + st.probe;
      assert st.Ring() == st.prec + st.gprec + b;
      found, idx := ScanForward(gprec, ngprec, key, st.prec, st.gprec, b);
      if found {
        assert idx in st.At(GhostPrec);
        FoundKey(st, GhostPrec, idx, key);
      } else {
        NotFound(st, GhostPrec, key);
      }
    }

    /** The scan of the probed ghosts. */
    method FindGhostProbe(key: Key, gprobe: nat) returns (found: bool, idx: nat)
      requires View() == Some(st) && Structured(st)
      requires st.Ring() != [] && gprobe == LastOr((st.prec + st.gprec + st.unused) + st.gprobe, st.Ring())
      ensures found ==> idx in st.gprobe && idx < 2 * cap && Lookup(st, key, GhostProbe) == Some(idx)
      ensures !found ==> idx == LastOr(st.prec + st.gprec + st.unused, st.Ring()) && Lookup(st, key, GhostProbe) == None
    {
      ghost var a := st.prec + st.gprec + st.unused;
      assert st.Ring() == a + st.gprobe + st.probe;
      found, idx := ScanBackward(gprobe, ngprobe, key, a, st.gprobe, st.probe);
      if found {
        assert idx in st.At(GhostProbe);
        FoundKey(st, GhostProbe, idx, key);
      } else {
        NotFound(st, GhostProbe, key);
      }
    }

    /** The precious ghosts: a hit, or nothing changes. */
    method TryGhostPrec(key: Key, cs: Search) returns (found: bool, idx: nat)
      requires View() == Some(st) && Structured(st) && !Full(st) && Searched(cs, st)
      requires Lookup(st, key, Prec) == None && Lookup(st, key, Probe) == None && Lookup(st, key, Flight) == None
      modifies this`split, this`nprobe, this`ngprobe, this`nprec, this`ngprec, this`inflight, this`ninflight,
               this`dprobe, this`st, next, prev, ce
      ensures View() == Some(st) && (found ==> Answers(old(st), key, st, Some(idx)))
      ensures !found ==>
              st == old(st) && Lookup(st, key, GhostPrec) == None
              && idx == HeadOr(st.unused + st.gprobe + st.probe, st.Ring())
    {
      GhostsExist(st);
      found, idx := FindGhostPrec(key, cs.gprec);
      hide Move, GhostHit, Miss, Victim, Adapt, Answers, Ring, NoDup, FindKey, Full;
      if found {
        CacheRuns.CanReclaim(st, idx);
        HitGhost(idx, true, cs);
        AnswersGhost(old(st), key, idx);
      }
    }

    /** The probed ghosts: a hit, or nothing changes. */
    method TryGhostProbe(key: Key, cs: Search) returns (found: bool, idx: nat)
      requires View() == Some(st) && Structured(st) && !Full(st) && Searched(cs, st)
      requires Lookup(st, key, Prec) == None && Lookup(st, key, Probe) == None && Lookup(st, key, Flight) == None
      requires Lookup(st, key, GhostPrec) == None
      modifies this`split, this`nprobe, this`ngprobe, this`nprec, this`ngprec, this`inflight, this`ninflight,
               this`dprobe, this`st, next, prev, ce
      ensures View() == Some(st) && (found ==> Answers(old(st), key, st, Some(idx)))
      ensures !found ==>
              st == old(st) && Lookup(st, key, GhostProbe) == None
              && idx == LastOr(st.prec + st.gprec + st.unused, st.Ring())
    {
      GhostsExist(st);
      found, idx := FindGhostProbe(key, cs.gprobe);
      hide Move, GhostHit, Miss, Victim, Adapt, Answers, Ring, NoDup, FindKey, Full;
      if found {
        CacheRuns.CanReclaim(st, idx);
        HitGhost(idx, false, cs);
        AnswersGhost(old(st), key, idx);
      }
    }

    /** `get_ghost_or_missed_entry` */
    method GetGhostOrMissedEntry(key: Key, search: Search) returns (idx: nat)
      requires View() == Some(st) && Structured(st) && Defined(st, key) && !Full(st) && Searched(search, st)
      requires Lookup(st, key, Prec) == None && Lookup(st, key, Probe) == None && Lookup(st, key, Flight) == None
      modifies this`split, this`nprobe, this`ngprobe, this`nprec, this`ngprec, this`inflight, this`ninflight,
               this`dprobe, this`st, next, prev, ce
      ensures View() == Some(st) && Answers(old(st), key, st, Some(idx))
    {
      GhostsExist(st);
      var cs, found := search, false;
      found, idx := TryGhostPrec(key, cs);
      if !found {
        cs := cs.(eprec := idx);
        found, idx := TryGhostProbe(key, cs);
        if !found {
          hide Move, GhostHit, Miss, Victim, Adapt, Answers, Ring, NoDup, FindKey, Full;
          DefinedMiss(st, key);
          idx := GetMissedEntry(key, cs.(eprobe := idx));
          AnswersMiss(old(st), key);
        }
      }
    }

    /** The scan of the in-flight list `f`. */
    method ScanInflight(key: Key, ghost f: seq<nat>) returns (found: bool, idx: nat)
      requires next != prev && next.Length == prev.Length == ce.Length && Ring(next[..], prev[..], f)
      requires ninflight == |f| && (f != [] ==> inflight == f[0]) && Below(f, ce.Length)
      ensures found ==> idx in f && idx < ce.Length && ce[idx].key == key
      ensures !found ==> forall j :: 0 <= j < |f| ==> ce[f[j]].key != key
    {
      var n := ninflight;
      idx, found := inflight, false;
      while n > 0
        invariant 0 <= n <= |f| && (n > 0 ==> idx == f[|f| - n])
        invariant forall j :: 0 <= j < |f| - n ==> ce[f[j]].key != key
      {
        if ce[idx].key == key {
          return true, idx;
        }
        LinksAt(next[..], prev[..], f, |f| - n);
        idx := next[idx];
        n := n - 1;
      }
    }

    /** `get_inflight_entry` */
    method GetInflightEntry(key: Key) returns (found: bool, idx: nat)
      requires View() == Some(st) && Structured(st)
      modifies ce, this`st
      ensures found <==> Lookup(old(st), key, Flight).Some?
      ensures found ==> Lookup(old(st), key, Flight) == Some(idx) && idx < 2 * cap
      ensures found ==> View() == Some(st) && st == SetEntry(old(st), idx, old(st).ce[idx].(state := CsPrecious))
      ensures !found ==> View() == Some(st) && st == old(st)
    {
      found, idx := ScanInflight(key, st.flight);
      if found {
        assert idx in st.At(Flight);
        FoundKey(st, Flight, idx, key);
        Write(idx, ce[idx].(state := CsPrecious));
      } else {
        NotFound(st, Flight, key);
      }
    }

    /** The scan of the precious entries: a hit, or the one to evict. */
    method FindPrec(key: Key) returns (found: bool, idx: nat, zprec: Option<nat>, nzprec: nat)
      requires View() == Some(st) && Structured(st)
      ensures found ==> idx in st.prec && idx < 2 * cap && Lookup(st, key, Prec) == Some(idx)
      ensures !found ==> idx == (st.gprec + st.unused + st.gprobe + st.probe)[0] && Lookup(st, key, Prec) == None
      ensures !found ==> zprec == LastFree(st.ce, st.prec) && nzprec == |st.prec| - InUse(st.ce, st.prec)
    {
      GhostsExist(st);
      ghost var rest := st.gprec + st.unused + st.gprobe + st.probe;
      assert st.Ring() == st.prec + rest == st.Ring() + [];
      NextOfLast(next[..], prev[..], st.Ring(), []);
      found, idx, zprec, nzprec := ScanPrecious(next[split], nprec, key, st.prec, rest);
      if found {
        assert idx in st.At(Prec);
        FoundKey(st, Prec, idx, key);
      } else {
        NotFound(st, Prec, key);
      }
    }

    /** The scan of the probed entries: a hit, or the one to evict. */
    method FindProbe(key: Key) returns (found: bool, idx: nat, zprobe: Option<nat>, nzprobe: nat)
      requires View() == Some(st) && Structured(st)
      ensures found ==> idx in st.probe && idx < 2 * cap && Lookup(st, key, Probe) == Some(idx)
      ensures !found ==> idx == Last(st.prec + st.gprec + st.unused + st.gprobe) && Lookup(st, key, Probe) == None
      ensures !found ==> zprobe == FirstFree(st.ce, st.probe) && nzprobe == |st.probe| - InUse(st.ce, st.probe)
    {
      GhostsExist(st);
      ghost var rest := st.prec + st.gprec + st.unused + st.gprobe;
      assert st.Ring() == rest + st.probe;
      found, idx, zprobe, nzprobe := ScanProbed(split, nprobe, key, rest, st.probe);
      if found {
        assert idx in st.At(Probe);
        FoundKey(st, Probe, idx, key);
      } else {
        NotFound(st, Probe, key);
      }
    }

    /** A new in-flight entry, unless the cache is full. */
    method GetIfRoom(key: Key, cs: Search) returns (result: Option<nat>)
      requires View() == Some(st) && Structured(st) && Defined(st, key) && Searched(cs, st)
      requires Lookup(st, key, Prec) == None && Lookup(st, key, Probe) == None && Lookup(st, key, Flight) == None
      modifies this`split, this`nprobe, this`ngprobe, this`nprec, this`ngprec, this`inflight, this`ninflight,
               this`dprobe, this`st, next, prev, ce
      ensures View() == Some(st) && Answers(old(st), key, st, result)
    {
      assert View() == Some(st) ==>
             nprec == |st.prec| && nprobe == |st.probe| && ninflight == |st.flight| && cap == st.cap;
      CountInUse(cs, st);
      hide Answers, View, FindKey, InUse, FirstFree, LastFree, Structured, Defined, Full;
      var inuse := (nprec - cs.nzprec) + (nprobe - cs.nzprobe) + ninflight;
      if inuse >= cap {
        AnswersFull(st, key);
        return None;
      }
      var idx := GetGhostOrMissedEntry(key, cs);
      result := Some(idx);
    }

    /** The rest of `cache_get_entry_noref`, for a key that is not cached. */
    method GetUncached(key: Key, cs: Search) returns (result: Option<nat>)
      requires View() == Some(st) && Structured(st) && Defined(st, key) && Searched(cs, st)
      requires Lookup(st, key, Prec) == None && Lookup(st, key, Probe) == None
      modifies this`split, this`nprobe, this`ngprobe, this`nprec, this`ngprec, this`inflight, this`ninflight,
               this`dprobe, this`misses, this`st, next, prev, ce
      ensures View() == Some(st) && Answers(old(st), key, st, result)
      ensures misses == old(misses) + One(result.Some?)
    {
      hide Answers, View, FindKey, InUse, FirstFree, LastFree, Defined, Searched;
      var found, idx := GetInflightEntry(key);
      if found {
        AnswersFlight(old(st), key, idx);
        result := Some(idx);
      } else {
        result := GetIfRoom(key, cs);
        if result.None? {
          return;
        }
      }
      misses := misses + 1;
    }

    /** `cache_get_entry_noref` */
    method GetEntryNoref(key: Key) returns (result: Option<nat>)
      requires View() == Some(st) && Structured(st) && Defined(st, key)
      modifies this`split, this`nprobe, this`ngprobe, this`nprec, this`ngprec, this`inflight, this`ninflight,
               this`dprobe, this`hits, this`misses, this`st, next, prev, ce
      ensures View() == Some(st) && Answers(old(st), key, st, result)
      ensures var cached := Lookup(old(st), key, Prec).Some? || Lookup(old(st), key, Probe).Some?;
              hits == old(hits) + One(cached) && misses == old(misses) + One(!cached && result.Some?)
    {
      hide Answers, Move, View, FindKey;
      GhostsExist(st);
      var found, idx, zprec, nzprec := FindPrec(key);
      if found {
        HitCached(idx, false);
        AnswersCached(old(st), key, idx);
        result := Some(idx);
      } else {
        result := GetProbed(key, idx, zprec, nzprec);
      }
    }

    /** The search goes on behind the precious entries. */
    method GetProbed(key: Key, gprec: nat, zprec: Option<nat>, nzprec: nat) returns (result: Option<nat>)
      requires View() == Some(st) && Structured(st) && Defined(st, key) && Lookup(st, key, Prec) == None
      requires st.gprec + st.unused + st.gprobe + st.probe != []
      requires gprec == (st.gprec + st.unused + st.gprobe + st.probe)[0]
      requires zprec == LastFree(st.ce, st.prec) && nzprec == |st.prec| - InUse(st.ce, st.prec)
      modifies this`split, this`nprobe, this`ngprobe, this`nprec, this`ngprec, this`inflight, this`ninflight,
               this`dprobe, this`hits, this`misses, this`st, next, prev, ce
      ensures View() == Some(st) && Answers(old(st), key, st, result)
      ensures var cached := Lookup(old(st), key, Probe).Some?;
              hits == old(hits) + One(cached) && misses == old(misses) + One(!cached && result.Some?)
    {
      hide Answers, Move, View, FindKey;
      GhostsExist(st);
      var found, idx, zprobe, nzprobe := FindProbe(key);
      if found {
        HitCached(idx, true);
        AnswersCached(old(st), key, idx);
        result := Some(idx);
      } else {
        result := GetUncached(key, Search(gprec, 0, zprec, nzprec, idx, 0, zprobe, nzprobe));
      }
    }

    /** `cache_get_entry` */
    method GetEntry(key: Key) returns (result: Option<nat>)
      requires View() == Some(st) && Structured(st) && Defined(st, key)
      modifies this`split, this`nprobe, this`ngprobe, this`nprec, this`ngprec, this`inflight, this`ninflight,
               this`dprobe, this`hits, this`misses, this`st, next, prev, ce
      ensures View() == Some(st) && st == Get(old(st), key).0 && result == Get(old(st), key).1
      ensures var cached := Lookup(old(st), key, Prec).Some? || Lookup(old(st), key, Probe).Some?;
              hits == old(hits) + One(cached) && misses == old(misses) + One(!cached && result.Some?)
    {
      hide *;
      ghost var before := st;
      result := GetEntryNoref(key);
      AnswersMean(before, key, st, result);
      if result.Some? {
        AddRef(result.value);
      }
    }

    method AddRef(idx: nat)
      requires View() == Some(st) && idx < |st.ce|
      modifies ce, this`st
      ensures View() == Some(st) && st == SetEntry(old(st), idx, old(st).ce[idx].(refcnt := old(st).ce[idx].refcnt + 1))
    {
      hide Wired;
      Write(idx, ce[idx].(refcnt := ce[idx].refcnt + 1));
    }

    lemma AnswersMean(before: State, key: Key, after: State, result: Option<nat>)
      requires Structured(before) && Answers(before, key, after, result)
      ensures Get(before, key).1 == result
      ensures result.None? ==> Get(before, key).0 == after
      ensures result.Some? ==> var x := result.value;
        && x < |after.ce|
        && Get(before, key).0 == SetEntry(after, x, after.ce[x].(refcnt := after.ce[x].refcnt + 1))
    {
      hide Get;
    }

    /** Take entry `x` off the in-flight ring. */
    method UnlinkInflight(x: nat, ghost r: seq<nat>, ghost f: seq<nat>)
      requires Links(r, f) && x in f && x < 2 * cap && inflight == f[0] && ninflight > 0
      modifies this`inflight, this`ninflight, next, prev
      ensures Links(r, Del(f, x)) && ninflight == old(ninflight) - 1
      ensures Del(f, x) != [] ==> inflight == Del(f, x)[0]
    {
      HeadAfterDel(next[..], prev[..], f, x);
      ghost var n0, p0 := next[..], prev[..];
      ghost var a, b := SplitAt(f, x);
      DelFacts(f, x);
      ninflight := ninflight - 1;
      if inflight == x {
        inflight := next[x];
      }
      Remove(next, prev, x, a, b);
      RingFrame(n0, p0, next[..], prev[..], r);
    }

    /** `cache_insert` */
    method Insert(x: nat)
      requires View() == Some(st) && Structured(st) && CacheRuns.Held(st, x)
      modifies this`split, this`nprobe, this`nprec, this`inflight, this`ninflight, this`st, next, prev, ce
      ensures View() == Some(st) && st == CacheSpec.Insert(old(st), x)
    {
      CacheRuns.HeldPlace(st, x);
      if ce[x].state == CsValid {
        return;
      }
      var probe := ce[x].state == CsProbe;
      InsertMove(x, probe);
      Write(x, ce[x].(state := CsValid));
    }

    /** The links of an insertion: `x` goes between the two cached partitions. */
    method InsertLinks(x: nat, probe: bool, ghost r: seq<nat>, ghost f: seq<nat>)
      requires Links(r, f) && r != [] && split == Last(r) && x in f && x !in r && x < 2 * cap
      requires inflight == f[0] && ninflight > 0
      modifies this`split, this`inflight, this`ninflight, next, prev
      ensures Links(if probe then r + [x] else [x] + r, Del(f, x)) && ninflight == old(ninflight) - 1
      ensures split == if probe then x else old(split)
      ensures Del(f, x) != [] ==> inflight == Del(f, x)[0]
    {
      DelFacts(f, x);
      UnlinkInflight(x, r, f);
      LinkLast(x, split, r, Del(f, x));
      if probe {
        split := x;
      } else {
        Rotate(next[..], prev[..], r, [x]);
      }
    }

    method InsertMove(x: nat, probe: bool)
      requires View() == Some(st) && Sized(st) && Partition(st) && x < 2 * cap && x in st.flight
      modifies this`split, this`nprobe, this`nprec, this`inflight, this`ninflight, this`st, next, prev
      ensures View() == Some(Move(old(st), x, if probe then Probe else Prec))
    {
      hide Move, NoDup, Below;
      LandRing(st, x, if probe then Probe else Prec);
      InsertLinks(x, probe, st.Ring(), st.flight);
      InsertCount(x, probe, old(next[..]), old(prev[..]), old(split), old(inflight));
    }

    /** Count an entry whose links are in place already. */
    method InsertCount(x: nat, probe: bool, ghost n: seq<nat>, ghost p: seq<nat>, ghost split': nat,
                       ghost inflight': nat)
      requires Wired(n, p, split', inflight', st) && st.cap == cap && st.dprobe == dprobe && st.ce == ce[..]
      requires |n| == 2 * cap && x < 2 * cap && x in st.flight
      requires Links(if probe then st.Ring() + [x] else [x] + st.Ring(), Del(st.flight, x)) && ce.Length == 2 * cap
      requires split == (if probe then x else split') && (Del(st.flight, x) != [] ==> inflight == Del(st.flight, x)[0])
      requires nprec == |st.prec| && ngprec == |st.gprec| && nprobe == |st.probe| && ngprobe == |st.gprobe|
      requires ninflight == |st.flight| - 1
      modifies this`nprobe, this`nprec, this`st
      ensures View() == Some(Move(old(st), x, if probe then Probe else Prec))
    {
      hide Move, NoDup, Below;
      ghost var to := if probe then Probe else Prec;
      if probe {
        nprobe := nprobe + 1;
      } else {
        nprec := nprec + 1;
      }
      LastOfCons(x, st.Ring());
      LandWired(n, p, next[..], prev[..], split', split, inflight', inflight, st, x, to);
      hide Wired, Rings;
      st := Move(st, x, to);
    }

    /** `cache_put_entry` */
    method PutEntry(x: nat)
      requires View() == Some(st) && CacheRuns.Held(st, x)
      modifies this`st, ce
      ensures View() == Some(st) && st == Put(old(st), x)
    {
      Write(x, ce[x].(refcnt := ce[x].refcnt - 1));
    }

    /** `cache_discard` */
    method Discard(x: nat)
      requires View() == Some(st) && Structured(st) && CacheRuns.Held(st, x)
      modifies this`split, this`inflight, this`ninflight, this`st, next, prev, ce
      ensures View() == Some(st) && st == CacheSpec.Discard(old(st), x)
    {
      CacheRuns.HeldPlace(st, x);
      PutEntry(x);
      if ce[x].refcnt > 0 {
        return;
      }
      if ce[x].state == CsValid {
        return;
      }
      DiscardMove(x);
    }

    /** The links of a discarded entry `x` on a ring `a + b`, where `b` holds what is
        probed: `x` goes between `a` and `b`. */
    method DiscardLinks(x: nat, count: nat, ghost a: seq<nat>, ghost b: seq<nat>, ghost f: seq<nat>)
      requires Links(a + b, f) && a + b != [] && split == Last(a + b) && x in f && x !in a + b && x < 2 * cap
      requires inflight == f[0] && ninflight > 0 && count == |b|
      modifies this`split, this`inflight, this`ninflight, next, prev
      ensures Links(a + [x] + b, Del(f, x)) && ninflight == old(ninflight) - 1
      ensures split == Last(a + [x] + b)
      ensures Del(f, x) != [] ==> inflight == Del(f, x)[0]
    {
      DelFacts(f, x);
      UnlinkInflight(x, a + b, f);
      var eprobe := split;
      assert a + b + [] == a + b;
      if count == 0 {
        split := x;
        assert b == [] && a + b == a;
      } else {
        eprobe := WalkBack(split, count, a, b, []);
      }
      ghost var (a', b') := if a == [] then (b, a) else (a, b);
      assert a' + b' == a + b;
      LinkAfter(x, eprobe, a', b', Del(f, x));
      if a == [] {
        assert a' + [x] + b' == b + [x] && a + [x] + b == [x] + b;
        Rotate(next[..], prev[..], b, [x]);
      }
    }

    method DiscardMove(x: nat)
      requires View() == Some(st) && Sized(st) && Partition(st) && x < 2 * cap && x in st.flight
      modifies this`split, this`inflight, this`ninflight, this`st, next, prev
      ensures View() == Some(Move(old(st), x, Unused))
    {
      hide Move, NoDup, Below, LinkedAt, Partition, Del, RingList.Ring;
      ghost var a, b := st.prec + st.gprec + st.unused, st.gprobe + st.probe;
      assert st.Ring() == a + b;
      LandRing(st, x, Unused);
      DiscardLinks(x, nprobe + ngprobe, a, b, st.flight);
      st := Move(st, x, Unused);
      LandWired(old(next[..]), old(prev[..]), next[..], prev[..], old(split), split,
                old(inflight), inflight, old(st), x, Unused);
      hide Wired, Rings;
    }

    /** `cache_alloc`, for an allocation that succeeds. */
    constructor (n: nat)
      requires n > 0
      ensures cap == n && fresh(next) && fresh(prev) && fresh(ce)
      ensures View() == Some(st) && |st.ce| == 2 * n && st == Flushed(n, st.ce) && Valid(st)
      ensures hits == misses == 0
    {
      hide *;
      cap := n;
      next := new nat[2 * n];
      prev := new nat[2 * n];
      ce := new Entry[2 * n](_ => Entry(0, CsProbe, 0, None));
      hits, misses := 0, 0;
      new;
      Empty();
      CacheTheorems.FlushedValid(cap, st.ce);
    }

    /** `cache_flush` of a cache without an entry destructor. */
    method Flush()
      requires cap > 0 && next != prev && next.Length == prev.Length == ce.Length == 2 * cap
      modifies this`split, this`nprec, this`ngprec, this`nprobe, this`ngprobe, this`dprobe, this`ninflight, this`st,
               next, prev, ce
      ensures View() == Some(st) && st == Flushed(cap, old(ce[..])) && Valid(st)
    {
      hide *;
      ghost var before := ce[..];
      Empty();
      CacheTheorems.FlushedValid(cap, before);
    }

    /** Put all entries, unused, on the main ring. */
    method Empty()
      requires cap > 0 && next != prev && next.Length == prev.Length == ce.Length == 2 * cap
      modifies this`split, this`nprec, this`ngprec, this`nprobe, this`ngprobe, this`dprobe, this`ninflight, this`st,
               next, prev, ce
      ensures View() == Some(st) && st == Flushed(cap, old(ce[..]))
      ensures |st.ce| == 2 * cap && st == Flushed(cap, st.ce)
    {
      ghost var before := ce[..];
      LinkAll();
      split := 0;
      nprec, ngprec, nprobe, ngprobe, dprobe, ninflight := 0, 0, 0, 0, 0, 0;
      st := Flushed(cap, before);
      CacheTheorems.FlushedValid(cap, before);
      assert st.ce == ce[..];
      FlushedWired(next[..], prev[..], inflight, cap, before);
      FlushedTwice(cap, before);
      hide Wired, Structured, Valid, Sound, CacheTheorems.Calm;
    }

    static lemma FlushedTwice(cap: nat, ce: seq<Entry>)
      requires |ce| == 2 * cap
      ensures |Flushed(cap, ce).ce| == 2 * cap && Flushed(cap, Flushed(cap, ce).ce) == Flushed(cap, ce)
    {
      assert Flushed(cap, Flushed(cap, ce).ce).ce == Flushed(cap, ce).ce;
    }

    /** Link the entries in index order, from the last to the first, and give out the buffers. */
    method LinkAll()
      requires next != prev && next.Length == prev.Length == ce.Length == 2 * cap
      modifies next, prev, ce
      ensures forall j :: 0 <= j < 2 * cap ==> next[j] == (if j > 0 then j - 1 else 2 * cap - 1)
      ensures forall j :: 0 <= j < 2 * cap ==> prev[j] == (if j < 2 * cap - 1 then j + 1 else 0)
      ensures forall j :: 0 <= j < 2 * cap ==>
              ce[j] == old(ce[j]).(refcnt := 0, data := if j < cap then Some(j) else None)
    {
      ghost var before := ce[..];
      var n := 2 * cap;
      for i := 0 to n
        invariant forall j :: 0 <= j < i ==> next[j] == (if j > 0 then j - 1 else n - 1)
        invariant forall j :: 0 <= j < i ==> prev[j] == (if j < n - 1 then j + 1 else 0)
        invariant forall j :: 0 <= j < i ==> ce[j] == before[j].(refcnt := 0, data := if j < cap then Some(j) else None)
        invariant forall j :: i <= j < n ==> ce[j] == before[j]
      {
        next[i] := if i > 0 then i - 1 else n - 1;
        prev[i] := if i < n - 1 then i + 1 else 0;
        ce[i] := ce[i].(refcnt := 0, data := if i < cap then Some(i) else None);
      }
    }
  }
}
