/** The order of the cached partitions is the order of last use, so the evicted entry
    is the least recently used one that may be evicted. */
module CacheRecency {
  import opened CacheInvariant
  import opened CacheRuns
  import opened CacheSpec
  import opened Options
  import opened RingList

  ghost predicate Descending(used: seq<nat>, s: seq<nat>) {
    && Below(s, |used|)
    && forall i, j :: 0 <= i < j < |s| ==> used[s[i]] > used[s[j]]
  }

  ghost predicate Ascending(used: seq<nat>, s: seq<nat>) {
    && Below(s, |used|)
    && forall i, j :: 0 <= i < j < |s| ==> used[s[i]] < used[s[j]]
  }

  /** `used[i]` is the time of the last use of entry `i`: its last hit while cached, or
      its insertion into the cache. */
  ghost function UsedAfter(st: State, op: Op, used: seq<nat>, now: nat): seq<nat>
    requires Shape(st) && |used| == |st.ce| && Legal(st, op)
  {
    match op
    case OpGet(key) =>
      if Lookup(st, key, Prec).Some? then used[Lookup(st, key, Prec).value := now]
      else if Lookup(st, key, Probe).Some? then used[Lookup(st, key, Probe).value := now]
      else used
    case OpInsert(x) => if st.ce[x].state == CsValid then used else used[x := now]
    case OpPut(_) => used
    case OpDiscard(_) => used
  }

  /** The cached partitions are in order of last use, all before `now`. */
  ghost predicate Recent(st: State, used: seq<nat>, now: nat) {
    && |used| == |st.ce|
    && Descending(used, st.prec) && Ascending(used, st.probe)
    && forall i :: 0 <= i < |used| ==> used[i] < now
  }

  lemma {:induction false} DelIsSubsequence(s: seq<nat>, x: nat, i: nat, j: nat)
    returns (i': nat, j': nat)
    requires i < j < |Del(s, x)|
    ensures i <= i' < j' < |s| && s[i'] == Del(s, x)[i] && s[j'] == Del(s, x)[j]
  {
    if s[0] == x {
      return i + 1, j + 1;
    }
    if i == 0 {
      var _, k := DelIndex(s[1..], x, j - 1);
      return 0, k + 1;
    }
    i', j' := DelIsSubsequence(s[1..], x, i - 1, j - 1);
    i', j' := i' + 1, j' + 1;
  }

  lemma {:induction false} DelIndex(s: seq<nat>, x: nat, j: nat) returns (ok: bool, j': nat)
    requires j < |Del(s, x)|
    ensures ok && j' < |s| && s[j'] == Del(s, x)[j]
  {
    ok := true;
    if s[0] == x {
      j' := j + 1;
    } else if j == 0 {
      j' := 0;
    } else {
      ok, j' := DelIndex(s[1..], x, j - 1);
      j' := j' + 1;
    }
  }

  lemma DelKeepsDescending(used: seq<nat>, s: seq<nat>, x: nat)
    requires Descending(used, s)
    ensures Descending(used, Del(s, x))
  {
    DelBelow(s, x, |used|);
    var d := Del(s, x);
    forall i, j | 0 <= i < j < |d| ensures used[d[i]] > used[d[j]] {
      var i', j' := DelIsSubsequence(s, x, i, j);
      assert used[s[i']] > used[s[j']];
    }
  }

  lemma DelKeepsAscending(used: seq<nat>, s: seq<nat>, x: nat)
    requires Ascending(used, s)
    ensures Ascending(used, Del(s, x))
  {
    DelBelow(s, x, |used|);
    var d := Del(s, x);
    forall i, j | 0 <= i < j < |d| ensures used[d[i]] < used[d[j]] {
      var i', j' := DelIsSubsequence(s, x, i, j);
      assert used[s[i']] < used[s[j']];
    }
  }

  /** An entry that leaves the cached partitions does not disturb their order. */
  lemma LeaveKeepsRecent(st: State, x: nat, p: Place, used: seq<nat>, now: nat)
    requires Recent(st, used, now) && p != Prec && p != Probe
    ensures Recent(Move(st, x, p), used, now)
  {
    DelKeepsDescending(used, st.prec, x);
    DelKeepsAscending(used, st.probe, x);
  }

  lemma UseDescending(used: seq<nat>, s: seq<nat>, x: nat, now: nat)
    requires Descending(used, s) && x < |used| && x !in s
    requires forall i :: 0 <= i < |used| ==> used[i] < now
    ensures Descending(used[x := now], s) && Descending(used[x := now], [x] + s)
  {
    assert forall k :: 0 <= k < |s| ==> s[k] in s;
  }

  lemma UseAscending(used: seq<nat>, s: seq<nat>, x: nat, now: nat)
    requires Ascending(used, s) && x < |used| && x !in s
    requires forall i :: 0 <= i < |used| ==> used[i] < now
    ensures Ascending(used[x := now], s) && Ascending(used[x := now], s + [x])
  {
    assert forall k :: 0 <= k < |s| ==> s[k] in s;
  }

  /** An entry used now goes to the most recently used end. */
  lemma UseKeepsRecent(st: State, x: nat, p: Place, used: seq<nat>, now: nat)
    requires Recent(st, used, now) && Partition(st) && (p == Prec || p == Probe) && x < |st.ce|
    ensures Recent(Move(st, x, p), used[x := now], now + 1)
  {
    DelKeepsDescending(used, st.prec, x);
    DelKeepsAscending(used, st.probe, x);
    DelFacts(st.prec, x);
    DelFacts(st.probe, x);
    UseDescending(used, Del(st.prec, x), x, now);
    UseAscending(used, Del(st.probe, x), x, now);
  }

  lemma EvictKeepsRecent(st: State, x: nat, bias: nat, used: seq<nat>, now: nat)
    requires Shape(st) && x < |st.ce| && Recent(st, used, now)
    ensures Recent(EvictFor(st, x, bias), used, now)
  {
    if Victim(st, bias).Some? {
      var v := Victim(st, bias).value;
      LeaveKeepsRecent(st, v, if v in st.probe then GhostProbe else GhostPrec, used, now);
    }
  }

  /** Only the cached partitions and the number of entries matter. */
  lemma SameCachedRecent(st: State, r: State, used: seq<nat>, now: nat)
    requires Recent(st, used, now) && r.prec == st.prec && r.probe == st.probe && |r.ce| == |st.ce|
    ensures Recent(r, used, now)
  {
  }

  lemma RecentKeeps(st: State, r: State, used: seq<nat>, now: nat)
    requires Recent(st, used, now) && r.prec == st.prec && r.probe == st.probe && |r.ce| == |st.ce|
    ensures Recent(r, used, now + 1)
  {
  }

  lemma HitKeepsRecent(st: State, x: nat, used: seq<nat>, now: nat)
    requires Structured(st) && Recent(st, used, now) && x < |st.ce|
    ensures Recent(Ref(Move(st, x, Prec), x), used[x := now], now + 1)
  {
    UseKeepsRecent(st, x, Prec, used, now);
    hide Structured, Recent;
    SameCachedRecent(Move(st, x, Prec), Ref(Move(st, x, Prec), x), used[x := now], now + 1);
  }

  lemma GetKeepsRecent(st: State, key: Key, used: seq<nat>, now: nat)
    requires Structured(st) && Recent(st, used, now)
    ensures Recent(Get(st, key).0, UsedAfter(st, OpGet(key), used, now), now + 1)
  {
    assert Shape(st) && |used| == |st.ce|;
    hide Move, GhostHit, Miss, Recent, FindKey, Full, Structured, Shape, Sized, Recycled;
    if Lookup(st, key, Prec).Some? {
      HitKeepsRecent(st, Lookup(st, key, Prec).value, used, now);
    } else if Lookup(st, key, Probe).Some? {
      HitKeepsRecent(st, Lookup(st, key, Probe).value, used, now);
    } else if Lookup(st, key, Flight).Some? || Full(st) {
      RecentKeeps(st, Get(st, key).0, used, now);
    } else if Lookup(st, key, GhostPrec).Some? {
      GhostHitKeepsRecent(st, Lookup(st, key, GhostPrec).value, used, now);
    } else if Lookup(st, key, GhostProbe).Some? {
      GhostHitKeepsRecent(st, Lookup(st, key, GhostProbe).value, used, now);
    } else {
      MissKeepsRecent(st, key, used, now);
    }
  }

  lemma GhostHitKeepsRecent(st: State, x: nat, used: seq<nat>, now: nat)
    requires Structured(st) && Recent(st, used, now) && x < |st.ce| && st.Ghost(x)
    ensures Recent(Ref(GhostHit(st, x), x), used, now + 1)
  {
    var a := Adapt(st, x);
    if a.Total() == a.cap { EvictKeepsRecent(a, x, 0, used, now); }
    LeaveKeepsRecent(ReclaimFor(a, x), x, Flight, used, now);
  }

  lemma MissKeepsRecent(st: State, key: Key, used: seq<nat>, now: nat)
    requires Structured(st) && Recent(st, used, now)
    ensures Recent(Ref(Miss(st, key), Recycled(st)), used, now + 1)
  {
    var x := Recycled(st);
    EvictKeepsRecent(st, x, 1, used, now);
    LeaveKeepsRecent(if st.ce[x].data.None? then EvictFor(st, x, 1) else st, x, Flight, used, now);
  }

  lemma InsertKeepsRecent(st: State, x: nat, used: seq<nat>, now: nat)
    requires Structured(st) && Held(st, x) && Recent(st, used, now)
    ensures Recent(Insert(st, x), UsedAfter(st, OpInsert(x), used, now), now + 1)
  {
    var p := if st.ce[x].state == CsProbe then Probe else Prec;
    assert Shape(st) && |used| == |st.ce| && Partition(st);
    hide Move, Recent, Structured, Partition;
    if st.ce[x].state != CsValid {
      var m := Move(st, x, p);
      UseKeepsRecent(st, x, p, used, now);
      SameCachedRecent(m, SetEntry(m, x, st.ce[x].(state := CsValid)), used[x := now], now + 1);
    } else {
      RecentKeeps(st, st, used, now);
    }
  }

  lemma DiscardKeepsRecent(st: State, x: nat, used: seq<nat>, now: nat)
    requires Structured(st) && Held(st, x) && Recent(st, used, now)
    ensures Recent(Discard(st, x), used, now + 1)
  {
    RecentKeeps(st, Put(st, x), used, now);
    LeaveKeepsRecent(Put(st, x), x, Unused, used, now + 1);
  }

  lemma StepKeepsRecent(st: State, op: Op, used: seq<nat>, now: nat)
    requires Structured(st) && Legal(st, op) && DefinedOp(st, op) && Recent(st, used, now)
    ensures Recent(Step(st, op), UsedAfter(st, op, used, now), now + 1)
  {
    assert Shape(st) && |used| == |st.ce|;
    hide Recent, Structured, Get, Insert, Discard;
    match op
    case OpGet(key) => GetKeepsRecent(st, key, used, now);
    case OpInsert(x) => InsertKeepsRecent(st, x, used, now);
    case OpPut(x) => RecentKeeps(st, Put(st, x), used, now);
    case OpDiscard(x) => DiscardKeepsRecent(st, x, used, now);
  }

  /** Times of last use after the first `n` operations of a run. */
  ghost function Used(states: seq<State>, ops: seq<Op>, n: nat): (used: seq<nat>)
    requires Run(states, ops) && n <= |ops|
    requires forall k :: 0 <= k <= n ==> |states[k].ce| == |states[0].ce|
    ensures |used| == |states[0].ce|
  {
    if n == 0 then seq(|states[0].ce|, _ => 0)
    else UsedAfter(states[n - 1], ops[n - 1], Used(states, ops, n - 1), n)
  }

  /** All through a run that starts with empty partitions, they are kept in the
      order of last use. */
  lemma {:induction false} RunKeepsRecent(states: seq<State>, ops: seq<Op>, n: nat)
    requires Run(states, ops) && n <= |ops|
    requires states[0].prec == [] && states[0].probe == []
    requires forall k :: 0 <= k <= n ==> Structured(states[k]) && |states[k].ce| == |states[0].ce|
    requires forall k :: 0 <= k < n ==> DefinedOp(states[k], ops[k])
    ensures Recent(states[n], Used(states, ops, n), n + 1)
  {
    if n == 0 {
    } else {
      RunKeepsRecent(states, ops, n - 1);
      StepKeepsRecent(states[n - 1], ops[n - 1], Used(states, ops, n - 1), n);
      assert states[n - 1 + 1] == Step(states[n - 1], ops[n - 1]);
    }
  }

  lemma {:induction false} FirstFreeIndex(ce: seq<Entry>, s: seq<nat>) returns (k: nat)
    requires Below(s, |ce|) && FirstFree(ce, s).Some?
    ensures k < |s| && FirstFree(ce, s).value == s[k]
    ensures forall i :: 0 <= i < k ==> ce[s[i]].refcnt != 0
  {
    if ce[s[0]].refcnt == 0 {
      k := 0;
    } else {
      k := FirstFreeIndex(ce, s[1..]);
      forall i | 0 < i < k + 1 ensures ce[s[i]].refcnt != 0 { assert s[i] == s[1..][i - 1]; }
      k := k + 1;
    }
  }

  lemma {:induction false} LastFreeIndex(ce: seq<Entry>, s: seq<nat>) returns (k: nat)
    requires Below(s, |ce|) && LastFree(ce, s).Some?
    ensures k < |s| && LastFree(ce, s).value == s[k]
    ensures forall i :: k < i < |s| ==> ce[s[i]].refcnt != 0
  {
    if ce[s[|s| - 1]].refcnt == 0 {
      k := |s| - 1;
    } else {
      k := LastFreeIndex(ce, s[..|s| - 1]);
      forall i | k < i < |s| - 1 ensures ce[s[i]].refcnt != 0 { assert s[i] == s[..|s| - 1][i]; }
    }
  }

  /** The victim is the least recently used unreferenced entry of its partition, and
      `dprobe` decides between the partitions when both could give one. */
  lemma VictimIsOldest(st: State, bias: nat, used: seq<nat>, now: nat)
    requires Structured(st) && Recent(st, used, now) && Victim(st, bias).Some?
    ensures var v := Victim(st, bias).value;
      && v < |st.ce| && st.ce[v].refcnt == 0
      && (v in st.probe ==> forall u :: u in st.probe && st.ce[u].refcnt == 0 ==> used[v] <= used[u])
      && (v in st.prec ==> forall u :: u in st.prec && st.ce[u].refcnt == 0 ==> used[v] <= used[u])
      && ((exists u :: u in st.probe && st.ce[u].refcnt == 0) && (exists u :: u in st.prec && st.ce[u].refcnt == 0)
          ==> (v in st.probe <==> |st.probe| + bias > st.dprobe))
  {
    var v := Victim(st, bias).value;
    Apart(st, v);
    if FirstFree(st.ce, st.probe).Some? { var k := FirstFreeIndex(st.ce, st.probe); }
    if LastFree(st.ce, st.prec).Some? { var k := LastFreeIndex(st.ce, st.prec); }
  }
}
