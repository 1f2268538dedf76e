/** The run-length index of page frame numbers (`struct pfn2idx_map` in
    `src/kdumpfile/elfdump.c`). */
module PfnIndex {

  const SPAN: nat := 0x1_0000_0000_0000_0000
  const MAX: nat := SPAN - 1

  /** The length of a range is a signed number of 64 bits. */
  const MAX_PAGES: nat := 0x7fff_ffff_ffff_ffff

  type Pfn = p: int | 0 <= p < SPAN

  /** `IDX_NONE`, which no index of a page is equal to */
  datatype Found = At(idx: nat) | IdxNone

  /** `struct pfn2idx_range`: `pfn` and `idx` are those of the last page. */
  datatype Range = Range(pfn: Pfn, idx: nat, len: int)

  /** `struct pfn2idx` */
  datatype Single = Single(pfn: Pfn, idx: nat)

  /** 64-bit arithmetic */
  function Wrap(x: int): Pfn { x % SPAN }

  lemma Fits(x: int)
    requires 0 <= x + SPAN && x < SPAN
    ensures Wrap(x) == if x < 0 then x + SPAN else x
  {
  }

  function Next(p: Pfn): Pfn { if p == MAX then 0 else p + 1 }

  function Previous(p: Pfn): Pfn { if p == 0 then MAX else p - 1 }

  lemma Neighbours(p: Pfn)
    ensures Wrap(p + 1) == Next(p) && Wrap(p - 1) == Previous(p)
  {
  }

  function Abs(x: int): nat { if x < 0 then -x else x }

  // ---------------------------------------------------------------------------
  // What an index says about a sequence of pages

  ghost predicate Distinct(s: seq<Pfn>) {
    forall i, j :: 0 <= i < j < |s| ==> s[i] != s[j]
  }

  /** Somewhere the numbers go from the first one to the last one, or back. */
  ghost predicate Wraps(s: seq<Pfn>) {
    exists j: nat :: WrapsAt(s, j)
  }

  ghost predicate WrapsAt(s: seq<Pfn>, j: nat) {
    j + 1 < |s| && ((s[j] == MAX && s[j + 1] == 0) || (s[j] == 0 && s[j + 1] == MAX))
  }

  ghost predicate Covers(r: Range, j: int) {
    r.idx - Abs(r.len) < j <= r.idx
  }

  ghost predicate Step(r: Range, s: seq<Pfn>, j: nat)
    requires j + 1 < |s|
  {
    s[j + 1] == if r.len > 0 then Next(s[j]) else Previous(s[j])
  }

  /** The pages that `r` covers follow each other in the way it says. */
  ghost predicate Describes(s: seq<Pfn>, r: Range) {
    && r.len != 0 && Abs(r.len) <= r.idx + 1 <= |s| && s[r.idx] == r.pfn
    && forall j: nat :: Covers(r, j) && j < r.idx ==> Step(r, s, j)
  }

  ghost predicate Apart(r: Range, q: Range) {
    forall j :: !(Covers(r, j) && Covers(q, j))
  }

  /** Ranges and singles that share out the first `n` pages. */
  ghost predicate Shared(s: seq<Pfn>, n: nat, rs: multiset<Range>, xs: multiset<Single>) {
    && n <= |s|
    && (forall r :: r in rs ==> rs[r] == 1 && Abs(r.len) >= 2 && r.idx < n && Describes(s, r))
    && (forall x :: x in xs ==> xs[x] == 1 && x.idx < n && s[x.idx] == x.pfn)
    && (forall r, q :: r in rs && q in rs && r != q ==> Apart(r, q))
    && (forall r, x :: r in rs && x in xs ==> !Covers(r, x.idx))
    && (forall j: nat :: j < n ==> Shown(j, rs, xs))
  }

  ghost predicate Shown(j: nat, rs: multiset<Range>, xs: multiset<Single>) {
    (exists r :: r in rs && Covers(r, j)) || (exists x :: x in xs && x.idx == j)
  }

  /** Neighbours that wrap are in the same range. */
  ghost predicate WrapsTogether(s: seq<Pfn>, n: nat, rs: multiset<Range>) {
    forall j: nat :: WrapsAt(s, j) && j < n ==> exists r :: r in rs && Covers(r, j) && Covers(r, j + 1)
  }

  /** What `pfn2idx_map_add` has built up so far; `cur` is the unfinished range, with the
      number of pages for its index. */
  ghost predicate Building(s: seq<Pfn>, rs: multiset<Range>, xs: multiset<Single>, cur: Range) {
    && cur.idx == |s| && Abs(cur.len) <= |s| && cur.len != -1 && (cur.len == 0 <==> s == [])
    && (s != [] ==> Describes(s, Unfinished(cur)))
    && Shared(s, |s| - Abs(cur.len), rs, xs)
    && (Distinct(s) ==> WrapsTogether(s, |s| - Abs(cur.len), rs))
  }

  ghost function Unfinished(cur: Range): Range {
    cur.(idx := if cur.idx > 0 then cur.idx - 1 else 0)
  }

  // ---------------------------------------------------------------------------
  // Searching

  /** The loop over the ranges in `pfn2idx_map_search` */
  function SearchRanges(rs: seq<Range>, i: nat, p: Pfn): Found
    requires i <= |rs|
    decreases |rs| - i
  {
    if i == |rs| then IdxNone
    else
      var r := rs[i];
      if r.len >= 0 then
        if p < Wrap(r.pfn - r.len + 1) then IdxNone
        else if p <= r.pfn then IndexOf(r.idx + p - r.pfn)
        else SearchRanges(rs, i + 1, p)
      else
        if p < r.pfn then IdxNone
        else if p <= Wrap(r.pfn - r.len - 1) then IndexOf(r.idx + r.pfn - p)
        else SearchRanges(rs, i + 1, p)
  }

  function IndexOf(idx: int): Found { At(Wrap(idx)) }

  /** The loop over the singles */
  function SearchSingles(xs: seq<Single>, i: nat, p: Pfn): Found
    requires i <= |xs|
    decreases |xs| - i
  {
    if i == |xs| || p < xs[i].pfn then IdxNone
    else if xs[i].pfn == p then At(xs[i].idx)
    else SearchSingles(xs, i + 1, p)
  }

  function Lookup(rs: seq<Range>, xs: seq<Single>, p: Pfn): Found {
    var found := SearchRanges(rs, 0, p);
    if found == IdxNone then SearchSingles(xs, 0, p) else found
  }

  /** The right answer for `p`: where it is in `s`, or that it is not there. */
  ghost predicate Right(s: seq<Pfn>, p: Pfn, found: Found) {
    match found
    case At(idx) => idx < |s| && s[idx] == p
    case IdxNone => p !in s
  }

  predicate SortedRanges(rs: seq<Range>) {
    forall i, j :: 0 <= i < j < |rs| ==> rs[i].pfn <= rs[j].pfn
  }

  predicate SortedSingles(xs: seq<Single>) {
    forall i, j :: 0 <= i < j < |xs| ==> xs[i].pfn <= xs[j].pfn
  }

  // ---------------------------------------------------------------------------
  // Without wrapping, a range is an interval of numbers

  /** The lowest and the highest number of a range, and the index of a number in it. */
  function Low(r: Range): int { if r.len > 0 then r.pfn - r.len + 1 else r.pfn }

  function High(r: Range): int { if r.len > 0 then r.pfn else r.pfn - r.len - 1 }

  function Place(r: Range, p: int): int { if r.len > 0 then r.idx + p - r.pfn else r.idx + r.pfn - p }

  ghost predicate NoWrapIn(s: seq<Pfn>, r: Range) {
    forall j: nat :: Covers(r, j) && j < r.idx ==> !WrapsAt(s, j)
  }

  lemma {:induction false} ValueAt(s: seq<Pfn>, r: Range, j: nat)
    requires Describes(s, r) && NoWrapIn(s, r) && Covers(r, j)
    ensures s[j] == if r.len > 0 then r.pfn - (r.idx - j) else r.pfn + (r.idx - j)
    decreases r.idx - j
  {
    if j == r.idx {
    } else {
      assert !WrapsAt(s, j);
      assert Step(r, s, j);
      ValueAt(s, r, j + 1);
    }
  }

  /** A range holds exactly the numbers of its interval, where it says. */
  lemma IsInterval(s: seq<Pfn>, r: Range)
    requires Describes(s, r) && NoWrapIn(s, r)
    ensures 0 <= Low(r) <= r.pfn <= High(r) < SPAN
    ensures forall p :: Low(r) <= p <= High(r) ==>
            Covers(r, Place(r, p)) && 0 <= Place(r, p) < |s| && s[Place(r, p)] == p
    ensures forall j: nat :: Covers(r, j) ==> Low(r) <= s[j] <= High(r)
  {
    ValueAt(s, r, r.idx - Abs(r.len) + 1);
    forall p | Low(r) <= p <= High(r)
      ensures Covers(r, Place(r, p)) && 0 <= Place(r, p) < |s| && s[Place(r, p)] == p
    {
      ValueAt(s, r, Place(r, p));
    }
    forall j: nat | Covers(r, j) ensures Low(r) <= s[j] <= High(r) { ValueAt(s, r, j); }
  }

  lemma InOneOnly(s: seq<Pfn>, r: Range, q: Range, p: int)
    requires Distinct(s) && !Wraps(s) && Describes(s, r) && Describes(s, q) && Apart(r, q)
    ensures !(Low(r) <= p <= High(r) && Low(q) <= p <= High(q))
  {
    IsInterval(s, r);
    IsInterval(s, q);
    var j, k := Place(r, p), Place(q, p);
    assert Low(r) <= p <= High(r) ==> Covers(r, j) && s[j] == p;
    assert Low(q) <= p <= High(q) ==> Covers(q, k) && s[k] == p;
    assert !(Covers(r, j) && Covers(q, j));
  }

  lemma IntervalsApart(s: seq<Pfn>, r: Range, q: Range)
    requires Distinct(s) && !Wraps(s) && Describes(s, r) && Describes(s, q) && Apart(r, q) && r.pfn <= q.pfn
    ensures High(r) < Low(q)
  {
    IsInterval(s, r);
    IsInterval(s, q);
    InOneOnly(s, r, q, Low(q));
    InOneOnly(s, r, q, r.pfn);
  }

  // ---------------------------------------------------------------------------
  // The searches

  lemma OncePerElement<T>(s: seq<T>, i: nat, j: nat)
    requires i < j < |s| && multiset(s)[s[i]] <= 1
    ensures s[i] != s[j]
  {
    assert s == s[..j] + s[j..];
    assert s[i] in s[..j] && s[j] in s[j..];
    assert multiset(s) == multiset(s[..j]) + multiset(s[j..]);
    assert multiset(s[..j])[s[i]] > 0 && multiset(s[j..])[s[j]] > 0;
  }

  ghost predicate Finished(s: seq<Pfn>, rs: seq<Range>, xs: seq<Single>) {
    && |s| <= MAX_PAGES && SortedRanges(rs) && SortedSingles(xs) && Shared(s, |s|, multiset(rs), multiset(xs))
    && (Distinct(s) ==> WrapsTogether(s, |s|, multiset(rs)))
  }

  lemma RangeAt(s: seq<Pfn>, rs: seq<Range>, xs: seq<Single>, i: nat)
    requires Finished(s, rs, xs) && i < |rs|
    ensures rs[i] in multiset(rs) && Describes(s, rs[i]) && Abs(rs[i].len) >= 2
  {
  }

  /** In a finished index the ranges are in the order of their intervals. */
  lemma InOrder(s: seq<Pfn>, rs: seq<Range>, xs: seq<Single>, i: nat, j: nat)
    requires Finished(s, rs, xs) && Distinct(s) && !Wraps(s) && i < j < |rs|
    ensures High(rs[i]) < Low(rs[j])
  {
    RangeAt(s, rs, xs, i);
    RangeAt(s, rs, xs, j);
    OncePerElement(rs, i, j);
    IntervalsApart(s, rs[i], rs[j]);
  }

  /** The early exits lose nothing. */
  lemma {:induction false} RangesSearched(s: seq<Pfn>, rs: seq<Range>, xs: seq<Single>, i: nat, p: Pfn)
    requires Finished(s, rs, xs) && Distinct(s) && !Wraps(s) && i <= |rs|
    ensures match SearchRanges(rs, i, p)
            case At(idx) => idx < |s| && s[idx] == p
            case IdxNone => forall k :: i <= k < |rs| ==> !(Low(rs[k]) <= p <= High(rs[k]))
    decreases |rs| - i
  {
    if i == |rs| {
    } else {
      var r := rs[i];
      RangeAt(s, rs, xs, i);
      IsInterval(s, r);
      forall k | i < k < |rs| ensures High(r) < Low(rs[k]) { InOrder(s, rs, xs, i, k); }
      Fits(Low(r));
      Fits(High(r));
      hide Wrap;
      if p > High(r) {
        RangesSearched(s, rs, xs, i + 1, p);
      } else if p >= Low(r) {
        Fits(Place(r, p));
      }
    }
  }

  lemma {:induction false} SinglesSearched(s: seq<Pfn>, rs: seq<Range>, xs: seq<Single>, i: nat, p: Pfn)
    requires Finished(s, rs, xs) && i <= |xs|
    ensures match SearchSingles(xs, i, p)
            case At(idx) => idx < |s| && s[idx] == p
            case IdxNone => forall k :: i <= k < |xs| ==> xs[k].pfn != p
    decreases |xs| - i
  {
    if i < |xs| && xs[i].pfn == p {
      assert xs[i] in multiset(xs);
    } else if i < |xs| && p >= xs[i].pfn {
      SinglesSearched(s, rs, xs, i + 1, p);
    }
  }

  /** Every search in a finished index finds the position of the number, or that there is
      none. */
  lemma LookupRight(s: seq<Pfn>, rs: seq<Range>, xs: seq<Single>, p: Pfn)
    requires Finished(s, rs, xs) && Distinct(s) && !Wraps(s)
    ensures Right(s, p, Lookup(rs, xs, p))
  {
    RangesSearched(s, rs, xs, 0, p);
    SinglesSearched(s, rs, xs, 0, p);
    if Lookup(rs, xs, p) == IdxNone {
      forall j: nat | j < |s| ensures s[j] != p {
        assert Shown(j, multiset(rs), multiset(xs));
        if r :| r in multiset(rs) && Covers(r, j) {
          var k :| 0 <= k < |rs| && rs[k] == r;
          IsInterval(s, r);
        } else {
          var x :| x in multiset(xs) && x.idx == j;
          var k :| 0 <= k < |xs| && xs[k] == x;
        }
      }
    }
  }

  // ---------------------------------------------------------------------------
  // With wrapping, searches go wrong

  /** Behind the place where the numbers wrap they are counted from there. */
  lemma {:induction false} AfterWrap(s: seq<Pfn>, r: Range, j: nat, k: nat)
    requires Describes(s, r) && |s| <= MAX_PAGES && WrapsAt(s, j) && Covers(r, j) && j < k <= r.idx
    ensures s[k] == if r.len > 0 then k - (j + 1) else MAX - (k - (j + 1))
    decreases k
  {
    assert Step(r, s, j);
    if k > j + 1 {
      assert Step(r, s, k - 1);
      AfterWrap(s, r, j, k - 1);
    }
  }

  /** No range claims the number zero when it is next to the last number. */
  lemma {:induction false} ZeroNotClaimed(s: seq<Pfn>, rs: seq<Range>, xs: seq<Single>, i: nat, j: nat, w: Range)
    requires Finished(s, rs, xs) && Distinct(s) && i <= |rs| && WrapsAt(s, j)
    requires w in multiset(rs) && Covers(w, j) && Covers(w, j + 1)
    ensures SearchRanges(rs, i, 0) == IdxNone
    decreases |rs| - i
  {
    hide Finished, Distinct, WrapsAt, Covers, Wrap;
    if i == |rs| {
    } else {
      ZeroNotIn(s, rs, xs, i, j, w);
      ZeroNotClaimed(s, rs, xs, i + 1, j, w);
    }
  }

  lemma ZeroNotIn(s: seq<Pfn>, rs: seq<Range>, xs: seq<Single>, i: nat, j: nat, w: Range)
    requires Finished(s, rs, xs) && Distinct(s) && i < |rs| && WrapsAt(s, j)
    requires w in multiset(rs) && Covers(w, j) && Covers(w, j + 1)
    ensures rs[i].len != 0
    ensures if rs[i].len > 0 then 0 < Wrap(rs[i].pfn - rs[i].len + 1) else 0 < rs[i].pfn
  {
    var r := rs[i];
    RangeAt(s, rs, xs, i);
    hide Distinct;
    if r == w {
      AfterWrap(s, r, j, r.idx);
      if r.len > 0 { Fits(r.pfn - r.len + 1); }
    } else {
      ZeroElsewhere(s, r, w, j);
    }
  }

  lemma ZeroElsewhere(s: seq<Pfn>, r: Range, w: Range, j: nat)
    requires Describes(s, r) && Distinct(s) && Apart(r, w) && WrapsAt(s, j) && Covers(w, j) && Covers(w, j + 1)
    ensures r.len > 0 ==> Wrap(r.pfn - r.len + 1) > 0
    ensures r.len < 0 ==> r.pfn > 0
  {
    var z := if s[j] == 0 then j else j + 1;
    assert s[z] == 0 && !Covers(r, z);
    assert NoWrapIn(s, r) by {
      forall k: nat | Covers(r, k) && k < r.idx ensures !WrapsAt(s, k) {
        assert Covers(r, k + 1);
        assert k != z && k + 1 != z;
      }
    }
    IsInterval(s, r);
    Fits(Low(r));
    var k := Place(r, 0);
    assert 0 <= k < |s| && s[k] == 0 ==> k == z;
  }

  /** When the first and the last number are neighbours, zero is not found. */
  lemma ZeroNotFound(s: seq<Pfn>, rs: seq<Range>, xs: seq<Single>)
    requires Finished(s, rs, xs) && Distinct(s) && Wraps(s)
    ensures 0 in s && Lookup(rs, xs, 0) == IdxNone
  {
    var j: nat :| WrapsAt(s, j);
    var w :| w in multiset(rs) && Covers(w, j) && Covers(w, j + 1);
    var z := if s[j] == 0 then j else j + 1;
    assert s[z] == 0;
    ZeroNotClaimed(s, rs, xs, 0, j, w);
    if xs != [] {
      assert xs[0] in multiset(xs);
      assert xs[0].idx != z;
    }
  }

  /** Of distinct numbers, every search is right exactly when no neighbours wrap. */
  lemma AllRightIffNoWrap(s: seq<Pfn>, rs: seq<Range>, xs: seq<Single>)
    requires Finished(s, rs, xs) && Distinct(s)
    ensures (forall p: Pfn :: Right(s, p, Lookup(rs, xs, p))) <==> !Wraps(s)
  {
    if Wraps(s) {
      ZeroNotFound(s, rs, xs);
      assert !Right(s, 0, Lookup(rs, xs, 0));
    } else {
      forall p: Pfn ensures Right(s, p, Lookup(rs, xs, p)) { LookupRight(s, rs, xs, p); }
    }
  }

  /** The last and the first number in a row make one range, in which neither is found. */
  lemma WrappingExample()
    ensures var s, rs := [MAX, 0], [Range(0, 1, 2)];
      && Distinct(s) && WrapsAt(s, 0) && Finished(s, rs, [])
      && Lookup(rs, [], MAX) == IdxNone && Lookup(rs, [], 0) == IdxNone
  {
    var s, r := [MAX, 0], Range(0, 1, 2);
    assert WrapsAt(s, 0);
    Neighbours(0);
    assert Describes(s, r) by {
      forall j: nat | Covers(r, j) && j < r.idx ensures Step(r, s, j) { assert j == 0; }
    }
    assert Covers(r, 0) && Covers(r, 1);
    assert r in multiset([r]);
    forall j: nat | WrapsAt(s, j) ensures j == 0 { }
    forall j: nat | j < 2 ensures Shown(j, multiset([r]), multiset([])) {
      assert r in multiset([r]) && Covers(r, j);
    }
    assert SearchRanges([r], 1, MAX) == IdxNone;
  }

  // ---------------------------------------------------------------------------
  // Building the index

  /** The unfinished range takes one more page. */
  lemma Extend(s: seq<Pfn>, rs: multiset<Range>, xs: multiset<Single>, cur: Range, pfn: Pfn, len: int)
    requires Building(s, rs, xs, cur) && cur.len != 0 && Abs(len) == Abs(cur.len) + 1
    requires (len > 0 && cur.len > 0 && pfn == Next(cur.pfn))
             || (len < 0 && (cur.len < 0 || cur.len == 1) && pfn == Previous(cur.pfn))
    ensures Building(s + [pfn], rs, xs, Range(pfn, cur.idx + 1, len))
  {
    var t, n := s + [pfn], |s| - Abs(cur.len);
    var u, v := Unfinished(cur), Unfinished(Range(pfn, cur.idx + 1, len));
    assert t[..|s|] == s;
    forall j: nat | Covers(v, j) && j < v.idx ensures Step(v, t, j) {
      if j < u.idx { assert Covers(u, j) && Step(u, s, j); }
    }
    Longer(s, pfn, n, rs, xs);
  }

  /** Another page does not change what is said about the first `n`. */
  lemma Longer(s: seq<Pfn>, pfn: Pfn, n: nat, rs: multiset<Range>, xs: multiset<Single>)
    requires Shared(s, n, rs, xs) && (Distinct(s) ==> WrapsTogether(s, n, rs)) && n < |s|
    ensures Shared(s + [pfn], n, rs, xs) && (Distinct(s + [pfn]) ==> WrapsTogether(s + [pfn], n, rs))
  {
    var t := s + [pfn];
    forall r | r in rs ensures Describes(t, r) {
      assert Describes(s, r);
      forall j: nat | Covers(r, j) && j < r.idx ensures Step(r, t, j) { assert Step(r, s, j); }
    }
    if Distinct(t) {
      forall i, j | 0 <= i < j < |s| ensures s[i] != s[j] { assert t[i] != t[j]; }
      forall j: nat | WrapsAt(t, j) && j < n ensures WrapsAt(s, j) { }
    }
  }

  /** Where a new range begins, the numbers do not wrap: the range before would have taken
      the page, or the page is there already. */
  lemma NoWrapBetween(s: seq<Pfn>, cur: Range, pfn: Pfn)
    requires s != [] && cur.len != 0 && cur.len != -1 && cur.idx == |s| && Describes(s, Unfinished(cur))
    requires !(cur.len > 0 && pfn == Next(cur.pfn)) && !((cur.len < 0 || cur.len == 1) && pfn == Previous(cur.pfn))
    ensures Distinct(s + [pfn]) ==> !WrapsAt(s + [pfn], |s| - 1)
  {
    var t, last := s + [pfn], |s| - 1;
    assert t[last] == s[last] == cur.pfn && t[|s|] == pfn;
    if Abs(cur.len) >= 2 {
      assert Covers(Unfinished(cur), last - 1) && Step(Unfinished(cur), s, last - 1);
      assert t[last - 1] == s[last - 1];
      assert Distinct(t) ==> t[last - 1] != t[|s|];
    }
  }

  /** All pages of `s` are shared out. */
  ghost predicate Whole(s: seq<Pfn>, rs: multiset<Range>, xs: multiset<Single>) {
    Shared(s, |s|, rs, xs) && (Distinct(s) ==> WrapsTogether(s, |s|, rs))
  }

  /** The unfinished range is added to the index. */
  lemma CloseRange(s: seq<Pfn>, rs: multiset<Range>, xs: multiset<Single>, cur: Range)
    requires Building(s, rs, xs, cur) && s != [] && Abs(cur.len) >= 2
    ensures Whole(s, rs + multiset{Unfinished(cur)}, xs)
  {
    var r, n := Unfinished(cur), |s| - Abs(cur.len);
    var rs' := rs + multiset{r};
    assert r !in rs;
    assert forall q :: q in rs' <==> q in rs || q == r;
    forall j: nat | j < |s| ensures Shown(j, rs', xs) {
      if j < n { assert Shown(j, rs, xs); } else { assert Covers(r, j); }
    }
    if Distinct(s) {
      forall j: nat | WrapsAt(s, j) && j < |s| ensures exists q :: q in rs' && Covers(q, j) && Covers(q, j + 1) {
        if j < n {
          var q :| q in rs && Covers(q, j) && Covers(q, j + 1);
          assert q in rs';
        } else {
          assert r in rs' && Covers(r, j) && Covers(r, j + 1);
        }
      }
    }
  }

  /** A range of a single page becomes a single. */
  lemma CloseSingle(s: seq<Pfn>, rs: multiset<Range>, xs: multiset<Single>, cur: Range)
    requires Building(s, rs, xs, cur) && s != [] && Abs(cur.len) < 2
    ensures Whole(s, rs, xs + multiset{Single(cur.pfn, cur.idx - 1)})
  {
    var x, n := Single(cur.pfn, cur.idx - 1), |s| - 1;
    var xs' := xs + multiset{x};
    assert x !in xs;
    assert forall y :: y in xs' <==> y in xs || y == x;
    forall j: nat | j < |s| ensures Shown(j, rs, xs') {
      if j < n { assert Shown(j, rs, xs); } else { assert x in xs' && x.idx == j; }
    }
  }

  /** And a new one begins with the next page. */
  lemma BeginNew(s: seq<Pfn>, rs: multiset<Range>, xs: multiset<Single>, pfn: Pfn)
    requires Whole(s, rs, xs)
    requires s != [] && Distinct(s + [pfn]) ==> !WrapsAt(s + [pfn], |s| - 1)
    ensures Building(s + [pfn], rs, xs, Range(pfn, |s| + 1, 1))
  {
    var t := s + [pfn];
    forall r | r in rs ensures Describes(t, r) {
      assert Describes(s, r);
      forall j: nat | Covers(r, j) && j < r.idx ensures Step(r, t, j) { assert Step(r, s, j); }
    }
    if Distinct(t) {
      forall i, j | 0 <= i < j < |s| ensures s[i] != s[j] { assert t[i] != t[j]; }
      forall j: nat | WrapsAt(t, j) && j < |s| ensures WrapsAt(s, j) { }
    }
  }

  // ---------------------------------------------------------------------------
  // Sorting (`qsort` in the source)

  function Insert<T>(x: T, s: seq<T>, key: T -> nat): (r: seq<T>)
    ensures multiset(r) == multiset(s) + multiset{x}
  {
    if s == [] then [x]
    else if key(x) <= key(s[0]) then [x] + s
    else
      assert s == [s[0]] + s[1..];
      [s[0]] + Insert(x, s[1..], key)
  }

  function Sort<T>(s: seq<T>, key: T -> nat): (r: seq<T>)
    ensures multiset(r) == multiset(s)
  {
    if s == [] then [] else
      assert s == [s[0]] + s[1..];
      Insert(s[0], Sort(s[1..], key), key)
  }

  ghost predicate Sorted<T>(s: seq<T>, key: T -> nat) {
    forall i, j :: 0 <= i < j < |s| ==> key(s[i]) <= key(s[j])
  }

  lemma {:induction false} InsertSorts<T>(x: T, s: seq<T>, key: T -> nat)
    requires Sorted(s, key)
    ensures Sorted(Insert(x, s, key), key)
  {
    if s != [] && key(x) > key(s[0]) {
      InsertSorts(x, s[1..], key);
      var r := Insert(x, s[1..], key);
      forall i | 0 <= i < |r| ensures key(s[0]) <= key(r[i]) {
        assert r[i] in multiset(r);
        assert s == [s[0]] + s[1..];
        assert r[i] == x || r[i] in s[1..];
      }
    }
  }

  lemma {:induction false} SortSorts<T>(s: seq<T>, key: T -> nat)
    ensures Sorted(Sort(s, key), key)
  {
    if s == [] {
    } else {
      SortSorts(s[1..], key);
      InsertSorts(s[0], Sort(s[1..], key), key);
    }
  }

  // ---------------------------------------------------------------------------
  // The index

  datatype Status = Ok | System

  /** `struct pfn2idx_map` */
  function SortRanges(rs: seq<Range>): seq<Range> { Sort(rs, (r: Range) => r.pfn) }

  function SortSingles(xs: seq<Single>): seq<Single> { Sort(xs, (x: Single) => x.pfn) }

  lemma RangesSort(rs: seq<Range>)
    ensures SortedRanges(SortRanges(rs)) && multiset(SortRanges(rs)) == multiset(rs)
  {
    SortSorts(rs, (r: Range) => r.pfn);
    hide Sort;
  }

  lemma SinglesSort(xs: seq<Single>)
    ensures SortedSingles(SortSingles(xs)) && multiset(SortSingles(xs)) == multiset(xs)
  {
    SortSorts(xs, (x: Single) => x.pfn);
    hide Sort;
  }

  lemma SortedFinishes(s: seq<Pfn>, rs: seq<Range>, xs: seq<Single>)
    requires |s| <= MAX_PAGES && Whole(s, multiset(rs), multiset(xs))
    ensures Finished(s, SortRanges(rs), SortSingles(xs))
  {
    hide Shared, WrapsTogether, SortRanges, SortSingles, SortedRanges, SortedSingles, Distinct;
    RangesSort(rs);
    SinglesSort(xs);
  }

  lemma MayBegin(s: seq<Pfn>, rs: multiset<Range>, xs: multiset<Single>, cur: Range, pfn: Pfn)
    requires Building(s, rs, xs, cur)
    requires s != [] ==> !(cur.len > 0 && pfn == Next(cur.pfn))
    requires s != [] ==> !((cur.len < 0 || cur.len == 1) && pfn == Previous(cur.pfn))
    ensures cur.idx == |s|
    ensures s != [] && Distinct(s + [pfn]) ==> !WrapsAt(s + [pfn], |s| - 1)
  {
    if s != [] { NoWrapBetween(s, cur, pfn); }
    hide Shared, WrapsTogether, Distinct, WrapsAt, Next, Previous;
  }

  class Map {
    var ranges: seq<Range>
    var singles: seq<Single>
    /** The pages that have been added. */
    ghost var s: seq<Pfn>

    ghost predicate Valid(cur: Range)
      reads this
    {
      Building(s, multiset(ranges), multiset(singles), cur) && |s| <= MAX_PAGES
    }

    ghost predicate Done()
      reads this
    {
      Finished(s, ranges, singles)
    }

    /** `pfn2idx_map_start`; the number in `first` is never looked at. */
    method Start(first: Pfn) returns (cur: Range)
      modifies this
      ensures Valid(cur) && s == []
    {
      ranges, singles, s := [], [], [];
      cur := Range(first, 0, 0);
    }

    /** `pfn2idx_map_addrange`, when memory suffices or not */
    method AddRange(range: Range) returns (status: Status)
      requires Valid(range)
      modifies this`ranges, this`singles
      ensures status == Ok ==> Whole(s, multiset(ranges), multiset(singles))
      ensures status != Ok ==> ranges == old(ranges) && singles == old(singles)
    {
      var memory: bool := *;
      status := Ok;
      if range.len == 0 {
        return;
      }
      if !memory {
        return System;
      }
      hide Whole, Building;
      if range.len > 1 || range.len < -1 {
        PushRange(range);
      } else {
        PushSingle(range);
      }
    }

    method PushRange(range: Range)
      requires Valid(range) && Abs(range.len) > 1
      modifies this`ranges
      ensures Whole(s, multiset(ranges), multiset(singles))
    {
      CloseRange(s, multiset(ranges), multiset(singles), range);
      assert range.idx > 0;
      AddedOne(ranges, range.(idx := range.idx - 1));
      hide Whole, Building;
      ranges := ranges + [range.(idx := range.idx - 1)];
    }

    method PushSingle(range: Range)
      requires Valid(range) && Abs(range.len) == 1
      modifies this`singles
      ensures Whole(s, multiset(ranges), multiset(singles))
    {
      CloseSingle(s, multiset(ranges), multiset(singles), range);
      assert range.idx > 0;
      AddedOne(singles, Single(range.pfn, range.idx - 1));
      hide Whole, Building;
      singles := singles + [Single(range.pfn, range.idx - 1)];
    }

    static lemma AddedOne<T>(s: seq<T>, x: T)
      ensures multiset(s + [x]) == multiset(s) + multiset{x}
    {
    }

    /** The page begins a new range. */
    method NewRange(range: Range, pfn: Pfn) returns (status: Status, next: Range)
      requires Valid(range) && |s| < MAX_PAGES
      requires s != [] ==> !(range.len > 0 && pfn == Next(range.pfn))
      requires s != [] ==> !((range.len < 0 || range.len == 1) && pfn == Previous(range.pfn))
      modifies this
      ensures status == Ok ==> Valid(next) && s == old(s) + [pfn]
      ensures status != Ok ==> Valid(range) && s == old(s)
    {
      next := range;
      hide Whole, Building, Next, Previous, WrapsAt, Distinct;
      MayBegin(s, multiset(ranges), multiset(singles), range, pfn);
      status := AddRange(range);
      if status != Ok {
        return;
      }
      BeginNew(s, multiset(ranges), multiset(singles), pfn);
      s := s + [pfn];
      next := Range(pfn, range.idx + 1, 1);
    }

    /** `pfn2idx_map_add` */
    method Add(range: Range, pfn: Pfn) returns (status: Status, next: Range)
      requires Valid(range) && |s| < MAX_PAGES
      modifies this
      ensures status == Ok ==> Valid(next) && s == old(s) + [pfn]
      ensures status != Ok ==> Valid(range) && s == old(s)
    {
      var len := range.len;
      status := Ok;
      Neighbours(range.pfn);
      assert range.idx == |s| && (s != [] ==> len != 0 && len != -1 && Describes(s, Unfinished(range)));
      hide Wrap, Next, Previous, Whole, Building, Distinct, Describes;
      if len > 0 && pfn == Wrap(range.pfn + 1) {
        len := len + 1;
      } else if len < 0 && pfn == Wrap(range.pfn - 1) {
        len := len - 1;
      } else if len == 1 && pfn == Wrap(range.pfn - 1) {
        len := -2;
      } else {
        status, next := NewRange(range, pfn);
        return;
      }
      Extend(s, multiset(ranges), multiset(singles), range, pfn, len);
      s := s + [pfn];
      next := Range(pfn, range.idx + 1, len);
    }

    /** `pfn2idx_map_end` */
    method End(range: Range) returns (status: Status)
      requires Valid(range)
      modifies this`ranges, this`singles
      ensures status == Ok ==> Done()
    {
      assert |s| <= MAX_PAGES;
      hide Shared, WrapsTogether, Building, Sort;
      status := AddRange(range);
      hide Valid;
      if status == Ok {
        SortedFinishes(s, ranges, singles);
        hide Finished, Whole;
        ranges := SortRanges(ranges);
        singles := SortSingles(singles);
      }
    }

    /** `pfn2idx_map_search` */
    method Search(p: Pfn) returns (found: Found)
      requires Done()
      ensures found == Lookup(ranges, singles, p)
      ensures Distinct(s) && !Wraps(s) ==> Right(s, p, found)
    {
      if Distinct(s) && !Wraps(s) { LookupRight(s, ranges, singles, p); }
      hide Wrap, Right, Finished, Distinct, Wraps;
      found := FindRange(p);
      if found == IdxNone {
        found := FindSingle(p);
      }
    }

    method FindRange(p: Pfn) returns (found: Found)
      ensures found == SearchRanges(ranges, 0, p)
    {
      hide Wrap;
      var i := 0;
      while i < |ranges|
        invariant 0 <= i <= |ranges| && SearchRanges(ranges, 0, p) == SearchRanges(ranges, i, p)
      {
        var r := ranges[i];
        if r.len >= 0 {
          if p < Wrap(r.pfn - r.len + 1) {
            break;
          }
          if p <= r.pfn {
            return At(Wrap(r.idx + p - r.pfn));
          }
        } else {
          if p < r.pfn {
            break;
          }
          if p <= Wrap(r.pfn - r.len - 1) {
            return At(Wrap(r.idx + r.pfn - p));
          }
        }
        i := i + 1;
      }
      found := IdxNone;
    }

    method FindSingle(p: Pfn) returns (found: Found)
      ensures found == SearchSingles(singles, 0, p)
    {
      var i := 0;
      while i < |singles| && p >= singles[i].pfn
        invariant 0 <= i <= |singles| && SearchSingles(singles, 0, p) == SearchSingles(singles, i, p)
      {
        if singles[i].pfn == p {
          return At(singles[i].idx);
        }
        i := i + 1;
      }
      found := IdxNone;
    }
  }
}
