/** Address translation maps (`src/addrxlat/map.c`).

    A map is a run-length encoding of a total function from 64-bit addresses to
    translation methods.  `Search` gives the function an encoding stands for;
    everything the in-place editing in `Map.Set` promises is stated through it. */
module AddrMap {

  const ADDR_SPAN: nat := 0x1_0000_0000_0000_0000
  const ADDR_MAX: nat := ADDR_SPAN - 1

  /** `addrxlat_addr_t`.  A value assigned to a variable of this type is proved to
      be in range, so no step of the model relies on 64-bit wrap-around. */
  type Addr = a: int | 0 <= a < ADDR_SPAN

  /** `ADDRXLAT_SYS_METH_NONE` */
  const METH_NONE: int := -1

  datatype Range = Range(endoff: Addr, meth: int)

  datatype Status = Ok | NoMem

  /** Number of addresses covered by a list of ranges. */
  ghost function Span(rs: seq<Range>): nat {
    if rs == [] then 0 else rs[0].endoff + 1 + Span(rs[1..])
  }

  /** The method that an encoding assigns to address `q`. */
  function Search(rs: seq<Range>, q: nat): int {
    if rs == [] then METH_NONE
    else if q <= rs[0].endoff then rs[0].meth
    else Search(rs[1..], q - rs[0].endoff - 1)
  }

  ghost predicate NoEqualNeighbours(rs: seq<Range>) {
    forall i :: 0 < i < |rs| ==> rs[i - 1].meth != rs[i].meth
  }

  /** What every map built by `Map.Set` looks like: nothing at all, or the whole
      address space cut into maximal runs. */
  ghost predicate Canonical(rs: seq<Range>) {
    rs == [] || (Span(rs) == ADDR_SPAN && NoEqualNeighbours(rs))
  }

  // ---------------------------------------------------------------------------
  // Encodings as functions

  lemma {:induction false} SpanConcat(a: seq<Range>, b: seq<Range>)
    ensures Span(a + b) == Span(a) + Span(b)
  {
    if a == [] {
      assert a + b == b;
    } else {
      SpanConcat(a[1..], b);
      assert (a + b)[1..] == a[1..] + b;
    }
  }

  /** Searching a concatenation searches the half that holds the address. */
  lemma {:induction false} SearchConcat(a: seq<Range>, b: seq<Range>, q: nat)
    ensures Search(a + b, q) == if q < Span(a) then Search(a, q) else Search(b, q - Span(a))
  {
    if a == [] {
      assert a + b == b;
    } else {
      assert (a + b)[1..] == a[1..] + b;
      if q > a[0].endoff {
        SearchConcat(a[1..], b, q - a[0].endoff - 1);
      }
    }
  }

  lemma SpanOne(r: Range)
    ensures Span([r]) == r.endoff + 1
  {
    assert [r][1..] == [];
  }

  lemma SpanPrefixStep(rs: seq<Range>, i: nat)
    requires i < |rs|
    ensures Span(rs[..i + 1]) == Span(rs[..i]) + rs[i].endoff + 1
    ensures Span(rs[..i + 1]) <= Span(rs)
  {
    assert rs[..i + 1] == rs[..i] + [rs[i]];
    SpanConcat(rs[..i], [rs[i]]);
    SpanOne(rs[i]);
    assert rs == rs[..i + 1] + rs[i + 1..];
    SpanConcat(rs[..i + 1], rs[i + 1..]);
  }

  /** Range number `i` answers exactly for the addresses between its bounds. */
  lemma SearchAt(rs: seq<Range>, i: nat, q: nat)
    requires i < |rs|
    requires Span(rs[..i]) <= q < Span(rs[..i + 1])
    ensures Search(rs, q) == rs[i].meth
  {
    assert rs == rs[..i] + rs[i..];
    SearchConcat(rs[..i], rs[i..], q);
    SpanPrefixStep(rs, i);
  }

  /** Where the first range of `s` ends, `l` goes on with the same method and `s` does not. */
  lemma LongerDiffers(s: seq<Range>, l: seq<Range>)
    requires NoEqualNeighbours(s) && s != [] && l != [] && Span(s) == Span(l)
    requires s[0].endoff < l[0].endoff && s[0].meth == l[0].meth
    ensures var q := s[0].endoff + 1; q < Span(s) && Search(s, q) != Search(l, q)
  {
    var q := s[0].endoff + 1;
    assert Span(l) > q;
    assert s[1..] != [];
    assert Search(s, q) == Search(s[1..], 0) == s[1].meth;
    assert Search(l, q) == l[0].meth;
  }

  /** An encoding is determined by the function it stands for. */
  lemma {:induction false} CanonicalUniqueFrom(a: seq<Range>, b: seq<Range>)
    requires NoEqualNeighbours(a) && NoEqualNeighbours(b)
    requires Span(a) == Span(b)
    requires forall q: nat :: q < Span(a) ==> Search(a, q) == Search(b, q)
    ensures a == b
    decreases |a|
  {
    if a == [] || b == [] {
      assert a == b;
    } else {
      assert Search(a, 0) == a[0].meth && Search(b, 0) == b[0].meth;
      assert a[0].endoff == b[0].endoff by {
        if a[0].endoff < b[0].endoff {
          LongerDiffers(a, b);
        } else if b[0].endoff < a[0].endoff {
          LongerDiffers(b, a);
        }
      }
      forall q: nat | q < Span(a[1..])
        ensures Search(a[1..], q) == Search(b[1..], q)
      {
        assert Search(a, q + a[0].endoff + 1) == Search(b, q + a[0].endoff + 1);
      }
      CanonicalUniqueFrom(a[1..], b[1..]);
      assert a == [a[0]] + a[1..];
      assert b == [b[0]] + b[1..];
    }
  }

  /** Two non-empty maps with the same answers have identical range arrays. */
  lemma CanonicalUnique(a: seq<Range>, b: seq<Range>)
    requires Canonical(a) && Canonical(b)
    requires a != [] && b != []
    requires forall q: Addr :: Search(a, q) == Search(b, q)
    ensures a == b
  {
    forall q: nat | q < Span(a)
      ensures Search(a, q) == Search(b, q)
    {
      var addr: Addr := q;
      assert Search(a, addr) == Search(b, addr);
    }
    CanonicalUniqueFrom(a, b);
  }

  // ---------------------------------------------------------------------------
  // Updates and runs of updates

  /** A call of `addrxlat_map_set` whose range does not run past the last address. */
  datatype Update = Update(addr: Addr, endoff: Addr, meth: int) {
    ghost predicate Covers(q: nat) { addr <= q <= addr + endoff }
  }

  /** `after` is the canonical encoding of the function of `before`, changed to
      `u.meth` on the addresses of `u` and nowhere else. */
  ghost predicate IsSet(before: seq<Range>, u: Update, after: seq<Range>) {
    && after != [] && Canonical(after)
    && forall q: Addr :: Search(after, q) == if u.Covers(q) then u.meth else Search(before, q)
  }

  /** Reference meaning of a run of updates: the last one to cover `q` decides. */
  ghost function Painted(us: seq<Update>, q: nat): int {
    if us == [] then METH_NONE
    else if us[|us| - 1].Covers(q) then us[|us| - 1].meth
    else Painted(us[..|us| - 1], q)
  }

  /** `rs` can be the range list of a new map after the updates `us`. */
  ghost predicate Run(us: seq<Update>, rs: seq<Range>)
    decreases |us|, 1
  {
    if us == [] then rs == [] else exists before :: RunStep(us, before, rs)
  }

  /** `before` can be the range list just before the last update. */
  ghost predicate RunStep(us: seq<Update>, before: seq<Range>, rs: seq<Range>)
    requires us != []
    decreases |us|, 0
  {
    Run(us[..|us| - 1], before) && IsSet(before, us[|us| - 1], rs)
  }

  lemma RunOneMore(us: seq<Update>, u: Update, before: seq<Range>, after: seq<Range>)
    requires Run(us, before) && IsSet(before, u, after)
    ensures Run(us + [u], after)
  {
    var all := us + [u];
    assert all[..|all| - 1] == us && all[|all| - 1] == u;
    assert RunStep(all, before, after);
  }

  lemma {:induction false} RunMeaning(us: seq<Update>, rs: seq<Range>)
    requires Run(us, rs)
    ensures Canonical(rs)
    ensures rs == [] <==> us == []
    ensures forall q: Addr :: Search(rs, q) == Painted(us, q)
  {
    if us == [] {
    } else {
      var before :| RunStep(us, before, rs);
      RunMeaning(us[..|us| - 1], before);
    }
  }

  /** However they were built up, maps with the same meaning are the same array. */
  lemma RunsWithEqualMeaning(us: seq<Update>, vs: seq<Update>, a: seq<Range>, b: seq<Range>)
    requires Run(us, a) && Run(vs, b)
    requires us != [] && vs != []
    ensures a == b <==> forall q: Addr :: Painted(us, q) == Painted(vs, q)
  {
    RunMeaning(us, a);
    RunMeaning(vs, b);
    if forall q: Addr :: Painted(us, q) == Painted(vs, q) {
      CanonicalUnique(a, b);
    } else {
      var q: Addr :| Painted(us, q) != Painted(vs, q);
      assert Search(a, q) == Painted(us, q) && Search(b, q) == Painted(vs, q);
    }
  }

  // ---------------------------------------------------------------------------
  // Replacing the ranges `first..last` by at most three new ones

  predicate KeepLow(firstMeth: int, low: Addr, addr: Addr, meth: int) {
    low < addr && firstMeth != meth
  }

  predicate KeepHigh(lastMeth: int, high: Addr, end: Addr, meth: int) {
    end < high && lastMeth != meth
  }

  ghost function LowPart(firstMeth: int, low: Addr, addr: Addr, meth: int): seq<Range> {
    if KeepLow(firstMeth, low, addr, meth) then [Range(addr - low - 1, firstMeth)] else []
  }

  ghost function HighPart(lastMeth: int, high: Addr, end: Addr, meth: int): seq<Range> {
    if KeepHigh(lastMeth, high, end, meth) then [Range(high - end - 1, lastMeth)] else []
  }

  /** What replaces ranges that cover `[low, high]`, the first and last of them using
      `firstMeth` and `lastMeth`, when `[addr, end]` is set to `meth`. */
  ghost function Core(firstMeth: int, lastMeth: int, low: Addr, high: Addr,
                      addr: Addr, end: Addr, meth: int): seq<Range>
    requires low <= addr <= end <= high
  {
    var lo := if KeepLow(firstMeth, low, addr, meth) then addr else low;
    var hi := if KeepHigh(lastMeth, high, end, meth) then end else high;
    LowPart(firstMeth, low, addr, meth) + [Range(hi - lo, meth)] + HighPart(lastMeth, high, end, meth)
  }

  lemma CoreSpan(firstMeth: int, lastMeth: int, low: Addr, high: Addr, addr: Addr, end: Addr, meth: int)
    requires low <= addr <= end <= high
    ensures Span(Core(firstMeth, lastMeth, low, high, addr, end, meth)) == high - low + 1
  {
    var core := Core(firstMeth, lastMeth, low, high, addr, end, meth);
    var lowPart, highPart := LowPart(firstMeth, low, addr, meth), HighPart(lastMeth, high, end, meth);
    var mid := core[|lowPart|];
    SpanConcat(lowPart + [mid], highPart);
    SpanConcat(lowPart, [mid]);
    SpanOne(mid);
    if lowPart != [] { SpanOne(lowPart[0]); }
    if highPart != [] { SpanOne(highPart[0]); }
  }

  lemma CoreSearch(firstMeth: int, lastMeth: int, low: Addr, high: Addr, addr: Addr, end: Addr, meth: int,
                   q: nat)
    requires low <= addr <= end <= high
    requires low <= q <= high
    ensures Search(Core(firstMeth, lastMeth, low, high, addr, end, meth), q - low)
         == if q < addr then firstMeth else if q <= end then meth else lastMeth
  {
    var core := Core(firstMeth, lastMeth, low, high, addr, end, meth);
    var lowPart, highPart := LowPart(firstMeth, low, addr, meth), HighPart(lastMeth, high, end, meth);
    var mid := core[|lowPart|];
    SearchConcat(lowPart + [mid], highPart, q - low);
    SearchConcat(lowPart, [mid], q - low);
    SpanConcat(lowPart, [mid]);
    SpanOne(mid);
    if lowPart != [] { SpanOne(lowPart[0]); }
  }

  /** Where the two searches of `addrxlat_map_set` must end for the edit to be right:
      `first..last` spans `[low, high]`, no range strictly between its ends sticks out
      of `[addr, end]`, and no neighbour outside could be merged. */
  ghost predicate Located(rs: seq<Range>, first: nat, last: nat, low: Addr, high: Addr,
                          addr: Addr, end: Addr, meth: int)
  {
    && first <= last < |rs|
    && low == Span(rs[..first]) && high + 1 == Span(rs[..last + 1])
    && low <= addr <= end <= high
    && (addr < Span(rs[..first + 1]) || (addr == Span(rs[..first + 1]) && rs[first].meth == meth))
    && (Span(rs[..last]) <= end || (Span(rs[..last]) == end + 1 && rs[last].meth == meth))
    && (first > 0 && !KeepLow(rs[first].meth, low, addr, meth) ==> rs[first - 1].meth != meth)
    && (last + 1 < |rs| && !KeepHigh(rs[last].meth, high, end, meth) ==> rs[last + 1].meth != meth)
  }

  ghost function Splice(rs: seq<Range>, first: nat, last: nat, low: Addr, high: Addr,
                        addr: Addr, end: Addr, meth: int): seq<Range>
    requires first <= last < |rs|
    requires low <= addr <= end <= high
  {
    rs[..first] + Core(rs[first].meth, rs[last].meth, low, high, addr, end, meth) + rs[last + 1..]
  }

  lemma SpliceSpan(rs: seq<Range>, first: nat, last: nat, low: Addr, high: Addr,
                   addr: Addr, end: Addr, meth: int)
    requires Located(rs, first, last, low, high, addr, end, meth)
    ensures Span(Splice(rs, first, last, low, high, addr, end, meth)) == Span(rs)
  {
    var core := Core(rs[first].meth, rs[last].meth, low, high, addr, end, meth);
    CoreSpan(rs[first].meth, rs[last].meth, low, high, addr, end, meth);
    SpanConcat(rs[..first], core);
    SpanConcat(rs[..first] + core, rs[last + 1..]);
    assert rs == rs[..last + 1] + rs[last + 1..];
    SpanConcat(rs[..last + 1], rs[last + 1..]);
  }

  lemma SpliceNeighbours(rs: seq<Range>, first: nat, last: nat, low: Addr, high: Addr,
                         addr: Addr, end: Addr, meth: int)
    requires Located(rs, first, last, low, high, addr, end, meth)
    requires NoEqualNeighbours(rs)
    ensures NoEqualNeighbours(Splice(rs, first, last, low, high, addr, end, meth))
  {
    var out := Splice(rs, first, last, low, high, addr, end, meth);
    var n := |rs| - last - 1;
    forall i | 0 < i < |out|
      ensures out[i - 1].meth != out[i].meth
    {
      if i > |out| - n {
        assert out[i] == rs[i - |out| + |rs|];
        assert out[i - 1] == rs[i - 1 - |out| + |rs|];
      }
    }
  }

  /** The edit is a pointwise update of the encoded function. */
  lemma SplicePointwise(rs: seq<Range>, first: nat, last: nat, low: Addr, high: Addr,
                        addr: Addr, end: Addr, meth: int, q: nat)
    requires Located(rs, first, last, low, high, addr, end, meth)
    ensures Search(Splice(rs, first, last, low, high, addr, end, meth), q)
         == if addr <= q <= end then meth else Search(rs, q)
  {
    var core := Core(rs[first].meth, rs[last].meth, low, high, addr, end, meth);
    var pre, post := rs[..first], rs[last + 1..];
    CoreSpan(rs[first].meth, rs[last].meth, low, high, addr, end, meth);
    SpanConcat(pre, core);
    SearchConcat(pre + core, post, q);
    SearchConcat(pre, core, q);
    assert rs == rs[..last + 1] + post;
    SearchConcat(rs[..last + 1], post, q);
    if q < low {
      assert rs == pre + rs[first..];
      SearchConcat(pre, rs[first..], q);
    } else if q <= high {
      CoreSearch(rs[first].meth, rs[last].meth, low, high, addr, end, meth, q);
      if q < addr {
        SearchAt(rs, first, q);
      } else if q > end {
        SearchAt(rs, last, q);
      }
    }
  }

  /** The elements that make up `Splice`, by position; `mid` is where the new range goes. */
  lemma SpliceByIndex(rs: seq<Range>, out: seq<Range>, first: nat, last: nat, low: Addr, high: Addr,
                      addr: Addr, end: Addr, meth: int, mid: nat, post: nat, delta: int)
    requires first <= last < |rs|
    requires low <= addr <= end <= high
    requires mid == first + (if KeepLow(rs[first].meth, low, addr, meth) then 1 else 0)
    requires post == mid + 1 + (if KeepHigh(rs[last].meth, high, end, meth) then 1 else 0)
    requires |out| == post + |rs| - last - 1 && delta == |out| - |rs|
    requires forall i :: 0 <= i < first ==> out[i] == rs[i]
    requires mid != first ==> out[first] == Range(addr - low - 1, rs[first].meth)
    requires out[mid] == Range((if post != mid + 1 then end else high) - (if mid != first then addr else low), meth)
    requires post != mid + 1 ==> out[mid + 1] == Range(high - end - 1, rs[last].meth)
    requires forall i :: post <= i < |out| ==> out[i] == rs[i - delta]
    ensures out == Splice(rs, first, last, low, high, addr, end, meth)
  {
  }

  /** A located edit of `full`, which encodes the same function as `rs`, is a set. */
  lemma LocatedEdit(rs: seq<Range>, full: seq<Range>, out: seq<Range>, first: nat, last: nat,
                    low: Addr, high: Addr, addr: Addr, end: Addr, meth: int)
    requires Canonical(rs)
    requires full == if rs == [] then [Range(ADDR_MAX, METH_NONE)] else rs
    requires Located(full, first, last, low, high, addr, end, meth)
    requires out == Splice(full, first, last, low, high, addr, end, meth)
    ensures IsSet(rs, Update(addr, end - addr, meth), out)
  {
    if rs == [] { SpanOne(full[0]); }
    SpliceSpan(full, first, last, low, high, addr, end, meth);
    SpliceNeighbours(full, first, last, low, high, addr, end, meth);
    forall q: Addr
      ensures Search(out, q) == if addr <= q <= end then meth else Search(rs, q)
    {
      SplicePointwise(full, first, last, low, high, addr, end, meth, q);
      assert Search(full, q) == Search(rs, q);
    }
  }

  // ---------------------------------------------------------------------------
  // The map object

  class Map {
    /** The allocation; only the first `n` elements are in use. */
    var ranges: array<Range>
    var n: nat

    ghost function Ranges(): seq<Range>
      reads this, ranges
      requires n <= ranges.Length
    {
      ranges[..n]
    }

    ghost predicate Valid()
      reads this, ranges
    {
      n <= ranges.Length && Canonical(Ranges())
    }

    constructor ()
      ensures Valid() && fresh(ranges) && n == 0
    {
      ranges := new Range[0];
      n := 0;
    }

    /** `addrxlat_map_search` */
    method MethodAt(addr: Addr) returns (meth: int)
      requires Valid()
      ensures meth == Search(Ranges(), addr)
    {
      ghost var rs := Ranges();
      var raddr: nat, i := 0, 0;
      while i < n
        invariant i <= n
        invariant raddr == Span(rs[..i]) <= addr
      {
        SpanPrefixStep(rs, i);
        if addr <= raddr + ranges[i].endoff {
          SearchAt(rs, i, addr);
          return ranges[i].meth;
        }
        raddr := raddr + ranges[i].endoff + 1;
        i := i + 1;
      }
      assert rs[..n] == rs;
      return METH_NONE;
    }

    /** First affected range: the one that holds `addr`, or its predecessor when
        that ends right before `addr` and already uses `meth`. */
    method FindFirst(addr: Addr, meth: int) returns (first: nat, raddr: Addr)
      requires Valid() && n > 0
      ensures first < n
      ensures raddr == Span(Ranges()[..first]) <= addr
      ensures addr < Span(Ranges()[..first + 1])
           || (addr == Span(Ranges()[..first + 1]) && Ranges()[first].meth == meth)
      ensures first > 0 && (raddr == addr || Ranges()[first].meth == meth) ==> Ranges()[first - 1].meth != meth
    {
      ghost var rs := Ranges();
      first, raddr := 0, 0;
      assert rs[..n] == rs;
      while first < n
        invariant first <= n
        invariant raddr == Span(rs[..first]) <= addr
      {
        SpanPrefixStep(rs, first);
        if raddr + ranges[first].endoff >= addr {
          break;
        }
        raddr := raddr + ranges[first].endoff + 1;
        first := first + 1;
      }
      SpanPrefixStep(rs, first);
      if raddr != 0 && raddr == addr && ranges[first - 1].meth == meth {
        first := first - 1;
        SpanPrefixStep(rs, first);
        raddr := raddr - (ranges[first].endoff + 1);
      }
    }

    /** Last affected range: the first one to reach `end`, or its successor when that
        starts right after `end` and already uses `meth`. */
    method FindLast(first: nat, raddr: Addr, end: Addr, meth: int) returns (last: nat, rend: Addr)
      requires Valid() && first < n
      requires raddr == Span(Ranges()[..first]) <= end
      ensures first <= last < n
      ensures rend + 1 == Span(Ranges()[..last + 1])
      ensures end <= rend
      ensures Span(Ranges()[..last]) <= end
           || (Span(Ranges()[..last]) == end + 1 && Ranges()[last].meth == meth)
      ensures last + 1 < n && (rend == end || Ranges()[last].meth == meth) ==> Ranges()[last + 1].meth != meth
    {
      ghost var rs := Ranges();
      assert rs[..n] == rs;
      SpanPrefixStep(rs, first);
      last, rend := first, raddr + ranges[first].endoff;
      while last < n
        invariant first <= last < n
        invariant rend + 1 == Span(rs[..last + 1])
        invariant Span(rs[..last]) <= end
        decreases n - last
      {
        if rend >= end {
          break;
        }
        last := last + 1;
        SpanPrefixStep(rs, last);
        rend := rend + ranges[last].endoff + 1;
      }
      if last + 1 < n && rend == end && ranges[last + 1].meth == meth {
        last := last + 1;
        SpanPrefixStep(rs, last);
        rend := rend + ranges[last].endoff + 1;
      }
    }

    /** The `memmove` of `addrxlat_map_set`: move the ranges from `last` on by `delta` places. */
    method MoveTail(last: nat, delta: int)
      requires last < n <= ranges.Length
      requires 0 <= last + delta && n + delta <= ranges.Length
      modifies this`n, ranges
      ensures n == old(n) + delta
      ensures n <= ranges.Length && Ranges()[last + delta..] == old(Ranges()[last..])
      ensures forall i :: 0 <= i < last + delta && i < last ==> Ranges()[i] == old(Ranges()[i])
      ensures delta > 0 ==> Ranges()[last] == old(Ranges()[last])
    {
      forall k | 0 <= k < n - last {
        ranges[last + delta + k] := ranges[last + k];
      }
      n := n + delta;
    }

    /** Resize the ranges that stay at either end of `first..last` and write the new
        range between them; `raddr != addr` and `rend != end` say which ends stay. */
    method WriteCore(first: nat, last: nat, raddr: Addr, rend: Addr, addr: Addr, end: Addr,
                     extend: nat, meth: int)
      requires raddr <= addr <= end <= rend
      requires last == first + (if raddr != addr then 1 else 0) + (if rend != end then 1 else 0)
      requires last < n <= ranges.Length && end - addr + extend < ADDR_SPAN
      modifies ranges
      ensures forall i :: 0 <= i < n && !(first <= i <= last) ==> Ranges()[i] == old(Ranges())[i]
      ensures raddr != addr ==> Ranges()[first] == Range(addr - raddr - 1, old(Ranges())[first].meth)
      ensures rend != end ==> Ranges()[last] == Range(rend - end - 1, old(Ranges())[last].meth)
      ensures Ranges()[if raddr != addr then first + 1 else first] == Range(end - addr + extend, meth)
    {
      var newFirst, newLast := first, last;
      if raddr != addr {
        ranges[newFirst] := ranges[newFirst].(endoff := addr - raddr - 1);
        newFirst := newFirst + 1;
      }
      if rend != end {
        ranges[newLast] := ranges[newLast].(endoff := rend - end - 1);
        newLast := newLast - 1;
      }
      ranges[newFirst] := Range(end - addr + extend, meth);
    }

    /** The tail of `addrxlat_map_set`, once the array is large enough. */
    method Edit(first: nat, last: nat, delta: int, ghost low: Addr, ghost high: Addr,
                raddr: Addr, rend: Addr, addr: Addr, end: Addr, extend: nat, meth: int)
      requires first <= last < n <= ranges.Length
      requires low <= addr <= end <= high
      requires raddr == if Ranges()[first].meth == meth then addr else low
      requires rend == if Ranges()[last].meth == meth then end else high
      requires extend == (if Ranges()[first].meth == meth then addr - low else 0)
                       + (if Ranges()[last].meth == meth then high - end else 0)
      requires delta == 2 - (last - first) - (if addr == raddr then 1 else 0) - (if rend == end then 1 else 0)
      requires n + delta <= ranges.Length
      modifies this`n, ranges
      ensures n <= ranges.Length
      ensures Ranges() == Splice(old(Ranges()), first, last, low, high, addr, end, meth)
    {
      ghost var rs := Ranges();
      hide Splice, KeepLow, KeepHigh;
      MoveTail(last, delta);
      ghost var moved := Ranges();
      assert raddr != addr ==> moved[first] == rs[first];
      WriteCore(first, last + delta, raddr, rend, addr, end, extend, meth);
      EditedByIndex(rs, moved, Ranges(), first, last, delta, low, high, raddr, rend, addr, end, extend, meth);
    }

    /** What the move and the writes make of the ranges. */
    static lemma EditedByIndex(rs: seq<Range>, moved: seq<Range>, out: seq<Range>, first: nat, last: nat, delta: int,
                               low: Addr, high: Addr, raddr: Addr, rend: Addr, addr: Addr, end: Addr, extend: nat,
                               meth: int)
      requires first <= last < |rs| && low <= addr <= end <= high && last + delta >= 0
      requires raddr == if rs[first].meth == meth then addr else low
      requires rend == if rs[last].meth == meth then end else high
      requires extend == (if rs[first].meth == meth then addr - low else 0)
                       + (if rs[last].meth == meth then high - end else 0)
      requires delta == 2 - (last - first) - (if addr == raddr then 1 else 0) - (if rend == end then 1 else 0)
      requires |moved| == |out| == |rs| + delta
      requires moved[last + delta..] == rs[last..]
      requires forall i :: 0 <= i < first ==> moved[i] == rs[i]
      requires raddr != addr ==> moved[first] == rs[first]
      requires forall i :: 0 <= i < |out| && !(first <= i <= last + delta) ==> out[i] == moved[i]
      requires raddr != addr ==> out[first] == Range(addr - raddr - 1, moved[first].meth)
      requires rend != end ==> out[last + delta] == Range(rend - end - 1, moved[last + delta].meth)
      requires out[if raddr != addr then first + 1 else first] == Range(end - addr + extend, meth)
      ensures out == Splice(rs, first, last, low, high, addr, end, meth)
    {
      hide Splice;
      var mid := if raddr != addr then first + 1 else first;
      assert moved[last + delta] == moved[last + delta..][0] == rs[last];
      forall i | last + delta + 1 <= i < |out| ensures out[i] == rs[i - delta] {
        assert out[i] == moved[i] == moved[last + delta..][i - last - delta];
      }
      forall i | 0 <= i < first ensures out[i] == rs[i] {
        assert out[i] == moved[i];
      }
      SpliceByIndex(rs, out, first, last, low, high, addr, end, meth, mid, last + delta + 1, delta);
    }

    /** `addrxlat_map_set`; `memory` says whether a `realloc` would succeed. */
    method Set(addr: Addr, range: Range, memory: bool) returns (status: Status)
      requires Valid()
      requires addr + range.endoff < ADDR_SPAN
      modifies this, ranges
      ensures Valid()
      ensures ranges == old(ranges) || fresh(ranges)
      ensures status == Ok ==> IsSet(old(Ranges()), Update(addr, range.endoff, range.meth), Ranges())
      ensures status == NoMem ==> !memory && Ranges() == old(Ranges())
    {
      ghost var rs := Ranges();
      ghost var full := if n == 0 then [Range(ADDR_MAX, METH_NONE)] else rs;
      var end: Addr := addr + range.endoff;
      var first, last, delta := 0, 0, 0;
      var raddr: Addr, rend: Addr, extend := 0, 0, 0;
      ghost var low: Addr, high: Addr := 0, ADDR_MAX;
      if n != 0 {
        first, raddr := FindFirst(addr, range.meth);
        last, rend := FindLast(first, raddr, end, range.meth);
        low, high := raddr, rend;
        delta := 2 - (last - first);
        if ranges[first].meth == range.meth {
          extend, raddr := extend + (addr - raddr), addr;
        }
        if ranges[last].meth == range.meth {
          extend, rend := extend + (rend - end), end;
        }
      } else {
        delta := 3;
        if range.meth == METH_NONE {
          extend, raddr, rend := ADDR_MAX - (end - addr), addr, end;
        } else {
          rend := ADDR_MAX;
        }
        SpanOne(full[0]);
      }
      assert Located(full, first, last, low, high, addr, end, range.meth);

      if addr == raddr {
        delta := delta - 1;
      }
      if rend == end {
        delta := delta - 1;
      }
      if delta > 0 {
        if !memory {
          return NoMem;
        }
        delta := Grow(delta);
      }
      assert Ranges() == full;
      Edit(first, last, delta, low, high, raddr, rend, addr, end, extend, range.meth);
      LocatedEdit(rs, full, Ranges(), first, last, low, high, addr, end, range.meth);
      return Ok;
    }

    /** The `realloc` of `addrxlat_map_set`, which also gives an empty map its first
        range; returns how many places the tail still has to move. */
    method Grow(delta: int) returns (left: int)
      requires n <= ranges.Length && delta > 0
      modifies this
      ensures fresh(ranges) && n <= ranges.Length
      ensures left == if old(n) == 0 then delta - 1 else delta
      ensures n + left == ranges.Length
      ensures Ranges() == if old(n) == 0 then [Range(ADDR_MAX, METH_NONE)] else old(Ranges())
    {
      var newRanges := new Range[n + delta];
      forall i | 0 <= i < n {
        newRanges[i] := ranges[i];
      }
      left := delta;
      if n == 0 {
        n := 1;
        newRanges[0] := Range(ADDR_MAX, METH_NONE);
        left := left - 1;
      }
      ranges := newRanges;
    }
  }
}
