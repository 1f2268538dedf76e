/** Circular doubly linked lists whose links are indices into an array.

    Both caches of the repository keep their entries on such rings: the entry cache
    (`src/kdumpfile/cache.c`) links `ce[]` by `next`/`prev` indices, and the read cache
    (`src/addrxlat/ctx.c`) links its slots.  A ring is described by the sequence of
    indices met when following `next`. */
module RingList {

  ghost predicate NoDup(s: seq<nat>) {
    forall i, j :: 0 <= i < j < |s| ==> s[i] != s[j]
  }

  function Succ(k: nat, n: nat): nat
    requires k < n
  {
    if k + 1 == n then 0 else k + 1
  }

  function Pred(k: nat, n: nat): nat
    requires k < n
  {
    if k == 0 then n - 1 else k - 1
  }

  ghost predicate Below(s: seq<nat>, bound: nat) {
    forall k :: 0 <= k < |s| ==> s[k] < bound
  }

  /** The links of the element at position `k`.  A predicate of its own, so that the verifier
      does not follow the links of a ring round and round. */
  ghost predicate LinkedAt(next: seq<nat>, prev: seq<nat>, s: seq<nat>, k: nat) {
    && k < |s| && s[k] < |next| && s[k] < |prev|
    && next[s[k]] == s[Succ(k, |s|)] && prev[s[k]] == s[Pred(k, |s|)]
  }

  /** Following `next` from `s[0]` visits exactly `s` and returns to `s[0]`, and `prev`
      goes the same way backwards. */
  ghost predicate Ring(next: seq<nat>, prev: seq<nat>, s: seq<nat>) {
    && |next| == |prev| && NoDup(s) && Below(s, |next|)
    && forall k :: 0 <= k < |s| ==> LinkedAt(next, prev, s, k)
  }

  /** The links of the element at position `k` of a ring. */
  lemma LinksAt(next: seq<nat>, prev: seq<nat>, s: seq<nat>, k: nat)
    requires Ring(next, prev, s) && k < |s|
    ensures s[k] < |next| == |prev| && next[s[k]] == s[Succ(k, |s|)] && prev[s[k]] == s[Pred(k, |s|)]
  {
    assert LinkedAt(next, prev, s, k);
  }

  lemma NoDupSwap(a: seq<nat>, b: seq<nat>)
    requires NoDup(a + b)
    ensures NoDup(b + a)
  {
    var s, t := a + b, b + a;
    forall i, j | 0 <= i < j < |t|
      ensures t[i] != t[j]
    {
      var i', j' := if i < |b| then i + |a| else i - |b|, if j < |b| then j + |a| else j - |b|;
      assert t[i] == s[i'] && t[j] == s[j'];
    }
  }

  /** A ring may be read from any of its elements. */
  lemma Rotate(next: seq<nat>, prev: seq<nat>, a: seq<nat>, b: seq<nat>)
    requires Ring(next, prev, a + b)
    ensures Ring(next, prev, b + a)
  {
    NoDupSwap(a, b);
    var s, t := a + b, b + a;
    forall k | 0 <= k < |t|
      ensures t[k] < |next| && LinkedAt(next, prev, t, k)
    {
      var k' := if k < |b| then k + |a| else k - |b|;
      assert t[k] == s[k'];
      assert LinkedAt(next, prev, s, k');
    }
  }

  /** Only the links of the members matter. */
  lemma RingFrame(next: seq<nat>, prev: seq<nat>, next': seq<nat>, prev': seq<nat>, s: seq<nat>)
    requires Ring(next, prev, s)
    requires |next'| == |prev'| == |next|
    requires forall i :: i in s ==> next'[i] == next[i] && prev'[i] == prev[i]
    ensures Ring(next', prev', s)
  {
    forall k | 0 <= k < |s| ensures LinkedAt(next', prev', s, k) {
      assert LinkedAt(next, prev, s, k) && s[k] in s;
    }
  }

  /** The links of a ring whose last element `x` was taken out or put in. */
  lemma AppendLinks(next: seq<nat>, prev: seq<nat>, next': seq<nat>, prev': seq<nat>, s: seq<nat>, x: nat)
    requires Ring(next, prev, s) && s != []
    requires x !in s && x < |next|
    requires next' == next[x := s[0]][s[|s| - 1] := x]
    requires prev' == prev[x := s[|s| - 1]][s[0] := x]
    ensures Ring(next', prev', s + [x])
  {
    var t := s + [x];
    forall k | 0 <= k < |t|
      ensures LinkedAt(next', prev', t, k)
    {
      if k < |s| {
        assert LinkedAt(next, prev, s, k);
      }
    }
  }

  lemma DropLastLinks(next: seq<nat>, prev: seq<nat>, next': seq<nat>, prev': seq<nat>, s: seq<nat>, x: nat)
    requires Ring(next, prev, s + [x]) && s != [] && Below(s, |next|)
    requires next' == next[s[|s| - 1] := s[0]]
    requires prev' == prev[s[0] := s[|s| - 1]]
    ensures Ring(next', prev', s)
  {
    var t := s + [x];
    assert NoDup(s) by {
      forall i, j | 0 <= i < j < |s| ensures s[i] != s[j] { assert t[i] != t[j]; }
    }
    assert |next'| == |prev'| == |next|;
    forall k | 0 <= k < |s|
      ensures LinkedAt(next', prev', s, k)
    {
      assert t[k] == s[k];
      assert LinkedAt(next, prev, t, k);
    }
  }

  /** A ring read from behind its element `x`. */
  lemma EndingAt(next: seq<nat>, prev: seq<nat>, a: seq<nat>, x: nat, b: seq<nat>)
    requires Ring(next, prev, a + [x] + b)
    ensures Ring(next, prev, (b + a) + [x]) && Below(b + a, |next|) && x < |next|
    ensures b + a != [] ==> next[x] == (b + a)[0] && prev[x] == (b + a)[|b + a| - 1]
    ensures b + a == [] ==> next[x] == prev[x] == x
  {
    Rotate(next, prev, a + [x], b);
    var s := b + a;
    var t := s + [x];
    assert b + (a + [x]) == t;
    assert forall k :: 0 <= k < |s| ==> s[k] == t[k];
    assert t[|s|] == x;
    assert LinkedAt(next, prev, t, |s|);
  }

  /** `add_entry_after`: put `idx` behind `insidx`, the last element of `a`. */
  method AddAfter(next: array<nat>, prev: array<nat>, idx: nat, insidx: nat, ghost a: seq<nat>, ghost b: seq<nat>)
    requires next != prev
    requires Ring(next[..], prev[..], a + b)
    requires a != [] && a[|a| - 1] == insidx
    requires idx < next.Length && idx !in a + b
    modifies next, prev
    ensures Ring(next[..], prev[..], a + [idx] + b)
    ensures forall i :: 0 <= i < next.Length && i !in a + [idx] + b ==>
            next[i] == old(next[i]) && prev[i] == old(prev[i])
  {
    ghost var n0, p0 := next[..], prev[..];
    Rotate(n0, p0, a, b);
    ghost var s := b + a;
    assert s[|s| - 1] == insidx;
    assert LinkedAt(n0, p0, s, |s| - 1) && LinkedAt(n0, p0, s, 0);
    var succ := next[insidx];
    next[idx] := next[insidx];
    next[insidx] := idx;
    prev[idx] := prev[succ];
    prev[succ] := idx;
    AppendLinks(n0, p0, next[..], prev[..], s, idx);
    assert s + [idx] == b + (a + [idx]);
    Rotate(next[..], prev[..], b, a + [idx]);
  }

  /** `add_entry_before`: put `idx` in front of `insidx`, the first element of `b`. */
  method AddBefore(next: array<nat>, prev: array<nat>, idx: nat, insidx: nat, ghost a: seq<nat>, ghost b: seq<nat>)
    requires next != prev
    requires Ring(next[..], prev[..], a + b)
    requires b != [] && b[0] == insidx
    requires idx < next.Length && idx !in a + b
    modifies next, prev
    ensures Ring(next[..], prev[..], a + [idx] + b)
    ensures forall i :: 0 <= i < next.Length && i !in a + [idx] + b ==>
            next[i] == old(next[i]) && prev[i] == old(prev[i])
  {
    ghost var n0, p0 := next[..], prev[..];
    Rotate(n0, p0, a, b);
    ghost var s := b + a;
    assert s[0] == insidx;
    assert LinkedAt(n0, p0, s, |s| - 1) && LinkedAt(n0, p0, s, 0);
    var pred := prev[insidx];
    next[idx] := next[pred];
    next[pred] := idx;
    prev[idx] := prev[insidx];
    prev[insidx] := idx;
    AppendLinks(n0, p0, next[..], prev[..], s, idx);
    assert s + [idx] == b + (a + [idx]);
    Rotate(next[..], prev[..], b, a + [idx]);
  }

  /** `remove_entry`: take `idx` out of its ring. */
  method Remove(next: array<nat>, prev: array<nat>, idx: nat, ghost a: seq<nat>, ghost b: seq<nat>)
    requires next != prev
    requires Ring(next[..], prev[..], a + [idx] + b)
    requires idx < next.Length
    modifies next, prev
    ensures Ring(next[..], prev[..], a + b)
    ensures forall i :: 0 <= i < next.Length && i !in a + b ==> next[i] == old(next[i]) && prev[i] == old(prev[i])
  {
    ghost var n0, p0 := next[..], prev[..];
    EndingAt(n0, p0, a, idx, b);
    ghost var s := b + a;
    var nextIdx := next[idx];
    prev[nextIdx] := prev[idx];
    var prevIdx := prev[idx];
    next[prevIdx] := next[idx];
    if s != [] {
      DropLastLinks(n0, p0, next[..], prev[..], s, idx);
      Rotate(next[..], prev[..], b, a);
    } else {
      assert a + b == [];
    }
  }

  /** `add_entry_before` the first element, which puts `idx` last. */
  method AddLast(next: array<nat>, prev: array<nat>, idx: nat, head: nat, ghost s: seq<nat>)
    requires next != prev
    requires Ring(next[..], prev[..], s)
    requires s != [] && s[0] == head
    requires idx < next.Length && idx !in s
    modifies next, prev
    ensures Ring(next[..], prev[..], s + [idx])
    ensures forall i :: 0 <= i < next.Length && i !in s + [idx] ==> next[i] == old(next[i]) && prev[i] == old(prev[i])
  {
    assert [] + s == s;
    AddBefore(next, prev, idx, head, [], s);
    assert [] + [idx] + s == [idx] + s;
    Rotate(next[..], prev[..], [idx], s);
  }

  /** A ring of one. */
  method MakeSingle(next: array<nat>, prev: array<nat>, idx: nat)
    requires next != prev && next.Length == prev.Length && idx < next.Length
    modifies next, prev
    ensures Ring(next[..], prev[..], [idx])
    ensures forall i :: 0 <= i < next.Length && i != idx ==> next[i] == old(next[i]) && prev[i] == old(prev[i])
  {
    next[idx], prev[idx] := idx, idx;
  }
}
