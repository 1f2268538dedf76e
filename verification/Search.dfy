/** The searches of `src/addrxlat/step.c` for mapped and unmapped addresses. */
module Search {
  import opened Bits
  import opened PageTable
  import opened Steps

  // ---------------------------------------------------------------------------
  // Blocks of addresses

  /** First address of the block of `a` that an entry at level `i` spans. */
  function Start(f: seq<nat>, a: nat, i: nat): nat
    requires i <= |f|
  {
    Clear(a, Width(f, i))
  }

  /** First address behind that block. */
  function End(f: seq<nat>, a: nat, i: nat): nat
    requires i <= |f|
  {
    Start(f, a, i) + Span(f, i)
  }

  lemma InBlock(f: seq<nat>, a: nat, b: nat, i: nat)
    requires i <= |f| && Start(f, a, i) <= b < End(f, a, i)
    ensures b / Span(f, i) == a / Span(f, i)
    ensures Start(f, b, i) == Start(f, a, i)
    ensures i < |f| ==> Field(f, b, i) == Field(f, a, i)
  {
    var s := Span(f, i);
    DivMod(a, s);
    ModUnique(b, s, a / s, b - Start(f, a, i));
  }

  lemma InOwnBlock(f: seq<nat>, a: nat, i: nat)
    requires i <= |f|
    ensures Start(f, a, i) <= a < End(f, a, i)
  {
  }

  /** Where the block of an entry lies in the block of its table. */
  lemma Nested(f: seq<nat>, a: nat, i: nat)
    requires i < |f|
    ensures Start(f, a, i) == Start(f, a, i + 1) + Span(f, i) * Field(f, a, i)
    ensures Start(f, a, i + 1) <= Start(f, a, i) && End(f, a, i) <= End(f, a, i + 1)
    ensures Field(f, a, i) < Pow2(f[i])
    ensures Start(f, a, i) == Start(f, a, i + 1) <==> Field(f, a, i) == 0
    ensures End(f, a, i) == End(f, a, i + 1) <==> Field(f, a, i) + 1 == Pow2(f[i])
  {
    var s, k, x := Span(f, i), Pow2(f[i]), Field(f, a, i);
    SpanStep(f, i);
    ModMul(a, s, k);
    Scale(s, x, k);
  }

  lemma Scale(s: nat, x: nat, k: nat)
    requires s > 0 && x < k
    ensures s * x >= 0 && (s * x == 0 <==> x == 0)
    ensures s * x + s <= s * k && (s * x + s == s * k <==> x + 1 == k)
  {
    Distribute(s, x, k - x);
    MulGrows(s, k - x);
    MulGrows(s, x);
    Distribute(s, 1, k - x - 1);
    MulGrows(s, k - x - 1);
  }

  /** The next block begins a multiple of its size into the enclosing block. */
  lemma FieldsAtStart(f: seq<nat>, e: nat, r: nat, q: nat)
    requires r <= |f| && e == q * Span(f, r)
    ensures forall i :: 0 <= i < r ==> Field(f, e, i) == 0
    ensures r < |f| ==> Field(f, e, r) == q % Pow2(f[r])
  {
    ModUnique(e, Span(f, r), q, 0);
    forall i | 0 <= i < r ensures Field(f, e, i) == 0 {
      FieldAtStart(f, e, r, q, i);
    }
  }

  lemma FieldAtStart(f: seq<nat>, e: nat, r: nat, q: nat, i: nat)
    requires i < r <= |f| && e == q * Span(f, r)
    ensures Field(f, e, i) == 0
  {
    WidthGrows(f, i + 1, r);
    var s, k, t := Span(f, i), Pow2(f[i]), Pow2(Width(f, r) - Width(f, i + 1));
    Pow2Sum(Width(f, i + 1), Width(f, r) - Width(f, i + 1));
    SpanStep(f, i);
    assert e == s * (k * (t * q)) by { assert Span(f, r) == s * k * t; Regroup3(q, s, k, t); }
    ModUnique(e, s, k * (t * q), 0);
    ModUnique(k * (t * q), k, t * q, 0);
  }

  lemma Regroup3(q: nat, s: nat, k: nat, t: nat)
    ensures q * (s * k * t) == s * (k * (t * q))
  {
  }

  lemma FieldAtEnd(f: seq<nat>, e: nat, r: nat, q: nat, i: nat)
    requires i < r <= |f| && q > 0 && e + 1 == q * Span(f, r)
    ensures Field(f, e, i) == Pow2(f[i]) - 1
  {
    WidthGrows(f, i + 1, r);
    var s, k, t := Span(f, i), Pow2(f[i]), Pow2(Width(f, r) - Width(f, i + 1));
    Pow2Sum(Width(f, i + 1), Width(f, r) - Width(f, i + 1));
    SpanStep(f, i);
    MulGrows(t, q);
    MulGrows(k, t * q);
    assert e + 1 == s * (k * (t * q)) by { assert Span(f, r) == s * k * t; Regroup3(q, s, k, t); }
    AllOnes(s, k * (t * q));
    LastOf(k, t * q);
  }

  lemma LastOf(k: nat, x: nat)
    requires k > 0 && x > 0
    ensures (k * x - 1) % k == k - 1
  {
    Distribute(k, x - 1, 1);
    ModUnique(k * x - 1, k, x - 1, k - 1);
  }

  /** The indices of the next entry of the same table. */
  lemma NextEntry(f: seq<nat>, a: nat, r: nat)
    requires 0 < r <= |f| && Field(f, a, r - 1) + 1 < Pow2(f[r - 1])
    ensures var e := End(f, a, r - 1);
            && Start(f, a, r) <= e < End(f, a, r)
            && forall i :: 0 <= i < r ==> Field(f, e, i) == if i == r - 1 then Field(f, a, i) + 1 else 0
  {
    var s, k := Span(f, r - 1), Pow2(f[r - 1]);
    var x, e := a / s, End(f, a, r - 1);
    Nested(f, a, r - 1);
    assert e == (x + 1) * s by { DivMod(a, s); Distribute(s, x, 1); }
    FieldsAtStart(f, e, r - 1, x + 1);
    assert x % k == Field(f, a, r - 1);
    hide *;
    AfterMod(x, k);
  }

  lemma AfterMod(x: nat, k: nat)
    requires k > 0 && x % k + 1 < k
    ensures (x + 1) % k == x % k + 1
  {
    DivMod(x, k);
    ModUnique(x + 1, k, x / k, x % k + 1);
  }

  /** The indices of the last address of the entry before. */
  lemma PreviousEntry(f: seq<nat>, a: nat, r: nat)
    requires 0 < r <= |f| && Field(f, a, r - 1) > 0
    ensures Start(f, a, r) < Start(f, a, r - 1) <= End(f, a, r)
    ensures var e := Start(f, a, r - 1) - 1;
            forall i :: 0 <= i < r ==> Field(f, e, i) == if i == r - 1 then Field(f, a, i) - 1 else Pow2(f[i]) - 1
  {
    var s, k := Span(f, r - 1), Pow2(f[r - 1]);
    var x, e := a / s, Start(f, a, r - 1) - 1;
    Nested(f, a, r - 1);
    assert x % k == Field(f, a, r - 1);
    assert x > 0;
    assert e >= 0 && e + 1 == x * s by { DivMod(a, s); MulGrows(s, x); }
    assert e / s == x - 1 by { AllOnes(s, x); }
    forall i | 0 <= i < r - 1 ensures Field(f, e, i) == Pow2(f[i]) - 1 { FieldAtEnd(f, e, r - 1, x, i); }
    assert Field(f, e, r - 1) == x % k - 1 by { BeforeMod(x, k); }
    hide *;
  }

  lemma BeforeMod(x: nat, k: nat)
    requires k > 0 && x > 0 && x % k > 0
    ensures (x - 1) % k == x % k - 1
  {
    DivMod(x, k);
    ModUnique(x - 1, k, x / k, x % k - 1);
  }

  // ---------------------------------------------------------------------------
  // What the searches promise

  /** Whether the table at `base` maps `a`; false for any other error than a missing entry. */
  ghost predicate Is(present: bool, p: Pgt, mem: Memory, base: FullAddr, level: nat, a: Addr)
    requires 0 < level <= |p.pf.fieldsz|
  {
    var result := Walk(p, mem, base, level, a);
    if present then result.Success? else result == Failure(NotPresent)
  }

  ghost predicate All(present: bool, p: Pgt, mem: Memory, base: FullAddr, level: nat, low: int, high: int)
    requires 0 < level <= |p.pf.fieldsz|
  {
    forall a: Addr :: low <= a < high ==> Is(present, p, mem, base, level, a)
  }

  /** How the entry `d` of level `r` decides for its whole block, unless it is a table. */
  ghost predicate Decides(d: Decoded, r: nat, present: bool) {
    match d
    case Table(_) => r == 1 && present
    case Leaf(_, _) => present
    case Failed(status) => status == NotPresent && !present
  }

  lemma SameEntry(p: Pgt, mem: Memory, base: FullAddr, r: nat, a: Addr, b: Addr)
    requires r < |p.pf.fieldsz| && Start(p.pf.fieldsz, a, r) <= b < End(p.pf.fieldsz, a, r)
    ensures Entry(p, mem, base, r, b) == Entry(p, mem, base, r, a)
  {
    assert Field(p.pf.fieldsz, b, r) == Field(p.pf.fieldsz, a, r) by { InBlock(p.pf.fieldsz, a, b, r); }
    hide Field, Start, End, Decode;
  }

  lemma EntryDecides(present: bool, p: Pgt, mem: Memory, base: FullAddr, r: nat, a: Addr, low: int, high: int)
    requires 0 < r < |p.pf.fieldsz| && Decides(Entry(p, mem, base, r, a), r, present)
    requires Start(p.pf.fieldsz, a, r) <= low && high <= End(p.pf.fieldsz, a, r)
    ensures All(present, p, mem, base, r + 1, low, high)
  {
    var level := r + 1;
    forall b: Addr | low <= b < high ensures Is(present, p, mem, base, level, b) {
      SameEntry(p, mem, base, r, a, b);
    }
  }

  /** A table behind an entry answers for the entry's block. */
  lemma TableAnswers(p: Pgt, mem: Memory, base: FullAddr, r: nat, a: Addr, b: Addr)
    requires 0 < r < |p.pf.fieldsz| && Entry(p, mem, base, r, a).Table?
    requires Start(p.pf.fieldsz, a, r) <= b < End(p.pf.fieldsz, a, r)
    ensures Walk(p, mem, base, r + 1, b) == Walk(p, mem, FullAddr(Entry(p, mem, base, r, a).base, p.target), r, b)
  {
    SameEntry(p, mem, base, r, a, b);
    hide Entry, Start, End, Span, Field, Width;
  }

  lemma TableAnswersAll(present: bool, p: Pgt, mem: Memory, base: FullAddr, r: nat, a: Addr, low: int, high: int)
    requires 0 < r < |p.pf.fieldsz| && Entry(p, mem, base, r, a).Table?
    requires Start(p.pf.fieldsz, a, r) <= low && high <= End(p.pf.fieldsz, a, r)
    requires All(present, p, mem, FullAddr(Entry(p, mem, base, r, a).base, p.target), r, low, high)
    ensures All(present, p, mem, base, r + 1, low, high)
  {
    var next := FullAddr(Entry(p, mem, base, r, a).base, p.target);
    var level := r + 1;
    forall b: Addr | low <= b < high ensures Is(present, p, mem, base, level, b) {
      TableAnswers(p, mem, base, r, a, b);
      assert Is(present, p, mem, next, r, b);
    }
  }

  lemma AllJoin(present: bool, p: Pgt, mem: Memory, base: FullAddr, level: nat, low: int, mid: int, high: int)
    requires 0 < level <= |p.pf.fieldsz|
    requires All(present, p, mem, base, level, low, mid) && All(present, p, mem, base, level, mid, high)
    ensures All(present, p, mem, base, level, low, high)
  {
  }

  function Min(a: int, b: int): int { if a <= b then a else b }

  function Max(a: int, b: int): int { if a >= b then a else b }

  /** An end of addresses as an address. */
  function Wrap(end: nat): nat { if end == ADDR_SPAN then 0 else end }

  /** Result of a search upwards through the table at `base`, from `first` to `limit`, for
      an address that is mapped (or not, as `present` says). */
  ghost predicate Upwards(present: bool, p: Pgt, mem: Memory, base: FullAddr, level: nat, first: Addr, limit: Addr,
                          status: Status, addr: Addr)
    requires 0 < level <= |p.pf.fieldsz|
  {
    var end := End(p.pf.fieldsz, first, level);
    match status
    case Ok =>
      && first <= addr <= limit && addr < end
      && All(!present, p, mem, base, level, first, addr) && Is(present, p, mem, base, level, addr)
    case NotPresent =>
      && All(!present, p, mem, base, level, first, Min(limit + 1, end))
      && ((addr > limit && limit < end) || addr == Wrap(end))
    case _ =>
      && first <= addr <= limit && addr < end
      && All(!present, p, mem, base, level, first, addr) && Walk(p, mem, base, level, addr) == Failure(status)
  }

  // ---------------------------------------------------------------------------
  // The searches

  /** A copy of the step state. */
  datatype Saved = Saved(base: FullAddr, remain: nat, elemsz: nat, idx: seq<Addr>)

  method Save(m: Machine) returns (s: Saved)
    ensures s == Saved(m.base, m.remain, m.elemsz, m.idx[..])
  {
    s := Saved(m.base, m.remain, m.elemsz, m.idx[..]);
  }

  method Restore(m: Machine, s: Saved)
    requires |s.idx| == m.idx.Length
    modifies m`base, m`remain, m`elemsz, m.idx
    ensures m.base == s.base && m.remain == s.remain && m.elemsz == s.elemsz && m.idx[..] == s.idx
  {
    m.base, m.remain, m.elemsz := s.base, s.remain, s.elemsz;
    forall i | 0 <= i < m.idx.Length {
      m.idx[i] := s.idx[i];
    }
  }

  /** `pf_table_span` */
  method TableSpan(pf: Form, level: nat) returns (ret: nat)
    requires pf.Wf() && level <= |pf.fieldsz|
    ensures ret == Span(pf.fieldsz, level) < ADDR_SPAN
  {
    ret := 1;
    var i := level;
    while i > 0
      invariant 0 <= i <= level && ret * Span(pf.fieldsz, i) == Span(pf.fieldsz, level)
    {
      i := i - 1;
      SpanStep(pf.fieldsz, i);
      Swap(ret, Pow2(pf.fieldsz[i]), Span(pf.fieldsz, i));
      ret := ret * Pow2(pf.fieldsz[i]);
    }
    SpanSmall(pf, level);
  }

  lemma Swap(a: nat, b: nat, c: nat)
    ensures a * b * c == a * (c * b)
  {
  }

  /** `(addr | tblmask) + 1`: the address behind the entry, which may wrap. */
  method Behind(pf: Form, a: Addr, i: nat, span: nat) returns (next: Addr)
    requires pf.Wf() && i <= |pf.fieldsz| && span == Span(pf.fieldsz, i)
    ensures next == Wrap(End(pf.fieldsz, a, i))
  {
    EndFits(pf, a, i);
    LastOfBlock(pf, a, i);
    hide Or, Span, End, Width;
    var last := Or(a, span - 1);
    ModWrap(last + 1);
    next := (last + 1) % ADDR_SPAN;
  }

  lemma LastOfBlock(pf: Form, a: Addr, i: nat)
    requires pf.Wf() && i <= |pf.fieldsz|
    ensures Or(a, Span(pf.fieldsz, i) - 1) + 1 == End(pf.fieldsz, a, i)
  {
    LowMask(a, Width(pf.fieldsz, i));
    hide Or, Width, Pow2;
  }

  lemma ModWrap(x: nat)
    requires x <= ADDR_SPAN
    ensures x % ADDR_SPAN == Wrap(x)
  {
  }

  lemma EndFits(pf: Form, a: Addr, i: nat)
    requires pf.Wf() && i <= |pf.fieldsz|
    ensures End(pf.fieldsz, a, i) <= ADDR_SPAN
  {
    var w := Width(pf.fieldsz, i);
    WidthGrows(pf.fieldsz, i, |pf.fieldsz|);
    Pow2Sum(w, 64 - w);
    Pow2Of63();
    assert Pow2(64) == 2 * Pow2(63);
    BlockFits(a, Pow2(w), Pow2(64 - w));
  }

  lemma BlockFits(a: nat, s: nat, t: nat)
    requires s > 0 && t > 0 && a < s * t
    ensures a - a % s + s <= s * t
  {
    DivMod(a, s);
    var q := a / s;
    if q >= t {
      MulLessEq(t, q, s);
    } else {
      MulLessEq(q + 1, t, s);
      Distribute(s, q, 1);
    }
  }

  /** The machine looks for `a` in the table at `base`, and `saved` says so too. */
  ghost predicate Ready(m: Machine, saved: Saved, base: FullAddr, level: nat, a: Addr)
    reads m`base, m`remain, m`elemsz, m.idx
  {
    && m.AtTable(a, level) && m.base == base
    && saved == Saved(m.base, m.remain, m.elemsz, m.idx[..])
  }

  /** The loop at the end of the upward searches: set the saved indices to those of the
      next entry, if the table has one. */
  method NextIndex(m: Machine, saved: Saved, ghost base: FullAddr, level: nat, ghost a: Addr)
    returns (next: Saved, more: bool)
    requires m.Ready() && 0 < level <= |m.F()| && |saved.idx| == m.idx.Length
    requires saved.remain == level && saved.base == base
    requires saved.elemsz == if level > 1 then EntrySize(m.p.pf.fmt) else 1
    requires forall i :: 0 <= i < level ==> saved.idx[i] == Field(m.F(), a, i)
    modifies m`base, m`remain, m`elemsz, m.idx
    ensures more <==> End(m.F(), a, level - 1) < End(m.F(), a, level)
    ensures more ==> End(m.F(), a, level - 1) < ADDR_SPAN && Start(m.F(), a, level) <= End(m.F(), a, level - 1)
    ensures more ==> Ready(m, next, base, level, End(m.F(), a, level - 1))
    ensures more ==> Field(m.F(), End(m.F(), a, level - 1), level - 1) == Field(m.F(), a, level - 1) + 1
    ensures |next.idx| == m.idx.Length
  {
    var idx := saved.idx;
    for i := 0 to level - 1
      invariant |idx| == |saved.idx|
      invariant forall j :: 0 <= j < |idx| ==> idx[j] == if j < i then 0 else saved.idx[j]
    {
      idx := idx[i := 0];
    }
    Nested(m.F(), a, level - 1);
    SpanSmall(m.p.pf, level - 1);
    more := idx[level - 1] + 1 < Pow2(m.F()[level - 1]);
    next := saved;
    if more {
      NextEntry(m.F(), a, level);
      EndFits(m.p.pf, a, level);
      next := saved.(idx := idx[level - 1 := idx[level - 1] + 1]);
      Restore(m, next);
    }
  }

  /** What a search upwards knows while it is about to try `addr`. */
  ghost predicate Searching(present: bool, p: Pgt, mem: Memory, base: FullAddr, level: nat,
                            first: Addr, limit: Addr, addr: Addr)
    requires 0 < level <= |p.pf.fieldsz|
  {
    var end := End(p.pf.fieldsz, first, level);
    && (addr <= limit ==> first <= addr < end)
    && (addr > limit ==> limit < end)
    && All(!present, p, mem, base, level, first, Min(addr, limit + 1))
  }

  /** What it knows when it is done with the entry for `addr` and goes on at `next`. */
  ghost predicate Passed(present: bool, p: Pgt, mem: Memory, base: FullAddr, level: nat, limit: Addr, addr: Addr,
                         next: Addr)
    requires 0 < level <= |p.pf.fieldsz|
  {
    var end := End(p.pf.fieldsz, addr, level - 1);
    && All(!present, p, mem, base, level, addr, Min(limit + 1, end))
    && ((next > limit && limit < end) || next == Wrap(end))
  }

  /** The entry decides, so its block is skipped. */
  lemma PassEntry(present: bool, p: Pgt, mem: Memory, base: FullAddr, r: nat, limit: Addr, addr: Addr, next: Addr)
    requires 0 < r < |p.pf.fieldsz| && Decides(Entry(p, mem, base, r, addr), r, !present)
    requires next == Wrap(End(p.pf.fieldsz, addr, r))
    ensures Passed(present, p, mem, base, r + 1, limit, addr, next)
  {
    InOwnBlock(p.pf.fieldsz, addr, r);
    EntryDecides(!present, p, mem, base, r, addr, addr, Min(limit + 1, End(p.pf.fieldsz, addr, r)));
  }

  /** The table behind the entry has been searched without success. */
  lemma PassTable(present: bool, p: Pgt, mem: Memory, base: FullAddr, r: nat, limit: Addr, addr: Addr, next: Addr)
    requires 0 < r < |p.pf.fieldsz| && Entry(p, mem, base, r, addr).Table?
    requires Upwards(present, p, mem, FullAddr(Entry(p, mem, base, r, addr).base, p.target), r, addr, limit,
                     NotPresent, next)
    ensures Passed(present, p, mem, base, r + 1, limit, addr, next)
  {
    InOwnBlock(p.pf.fieldsz, addr, r);
    TableAnswersAll(!present, p, mem, base, r, addr, addr, Min(limit + 1, End(p.pf.fieldsz, addr, r)));
  }

  /** The table behind the entry has the answer. */
  lemma FoundInTable(present: bool, p: Pgt, mem: Memory, base: FullAddr, r: nat, limit: Addr, addr: Addr,
                     status: Status, found: Addr)
    requires 0 < r < |p.pf.fieldsz| && Entry(p, mem, base, r, addr).Table? && status != NotPresent
    requires Upwards(present, p, mem, FullAddr(Entry(p, mem, base, r, addr).base, p.target), r, addr, limit,
                     status, found)
    ensures Upwards(present, p, mem, base, r + 1, addr, limit, status, found)
    ensures Walk(p, mem, base, r + 1, found)
         == Walk(p, mem, FullAddr(Entry(p, mem, base, r, addr).base, p.target), r, found)
  {
    InOwnBlock(p.pf.fieldsz, addr, r);
    Nested(p.pf.fieldsz, addr, r);
    TableAnswersAll(!present, p, mem, base, r, addr, addr, found);
    TableAnswers(p, mem, base, r, addr, found);
  }

  /** The walk for the very address decides. */
  lemma FoundHere(present: bool, p: Pgt, mem: Memory, base: FullAddr, level: nat, addr: Addr, limit: Addr,
                  status: Status)
    requires 0 < level <= |p.pf.fieldsz| && addr <= limit && status != NotPresent
    requires if status == Ok then Is(present, p, mem, base, level, addr)
             else Walk(p, mem, base, level, addr) == Failure(status)
    ensures Upwards(present, p, mem, base, level, addr, limit, status, addr)
  {
    InOwnBlock(p.pf.fieldsz, addr, level);
  }

  /** A search that began further down in the same table. */
  lemma FoundLater(present: bool, p: Pgt, mem: Memory, base: FullAddr, level: nat, first: Addr, limit: Addr, addr: Addr,
                   status: Status, found: Addr)
    requires 0 < level <= |p.pf.fieldsz| && status != NotPresent
    requires Upwards(present, p, mem, base, level, addr, limit, status, found)
    requires first <= addr < End(p.pf.fieldsz, first, level) && All(!present, p, mem, base, level, first, addr)
    ensures Upwards(present, p, mem, base, level, first, limit, status, found)
  {
    InOwnBlock(p.pf.fieldsz, first, level);
    InBlock(p.pf.fieldsz, first, addr, level);
    AllJoin(!present, p, mem, base, level, first, addr, found);
  }

  /** There is another entry behind the one for `addr`, at `e`. */
  lemma GoOn(present: bool, p: Pgt, mem: Memory, base: FullAddr, level: nat,
             first: Addr, limit: Addr, addr: Addr, next: Addr, e: Addr)
    requires 0 < level <= |p.pf.fieldsz| && first <= addr <= limit
    requires All(!present, p, mem, base, level, first, addr)
    requires Passed(present, p, mem, base, level, limit, addr, next)
    requires e == End(p.pf.fieldsz, addr, level - 1) && e < End(p.pf.fieldsz, first, level)
    ensures Searching(present, p, mem, base, level, first, limit, next)
    ensures next > addr && (next <= limit ==> next == e)
  {
    InOwnBlock(p.pf.fieldsz, addr, level - 1);
    hide Start, End, Span, Width, Is;
    AllJoin(!present, p, mem, base, level, first, addr, Min(limit + 1, e));
  }

  lemma Exhausted(present: bool, p: Pgt, mem: Memory, base: FullAddr, level: nat,
                  first: Addr, limit: Addr, addr: Addr, next: Addr)
    requires 0 < level <= |p.pf.fieldsz| && first <= addr <= limit && addr < End(p.pf.fieldsz, first, level)
    requires All(!present, p, mem, base, level, first, addr)
    requires Passed(present, p, mem, base, level, limit, addr, next)
    requires End(p.pf.fieldsz, addr, level - 1) == End(p.pf.fieldsz, first, level)
    ensures Upwards(present, p, mem, base, level, first, limit, NotPresent, next)
  {
    AllJoin(!present, p, mem, base, level, first, addr, Min(limit + 1, End(p.pf.fieldsz, addr, level - 1)));
  }

  /** What a step from the table at `base` has found out about the entry for `a`. */
  ghost predicate Tried(m: Machine, base: FullAddr, level: nat, a: Addr, status: Status)
    requires 0 < level <= |m.F()|
    reads m`base, m`remain, m`elemsz, m.idx
  {
    var result := Walk(m.p, m.mem, base, level, a);
    match status
    case Ok =>
      if m.remain > 1 then
        var d := Entry(m.p, m.mem, base, level - 1, a);
        m.remain == level - 1 && d.Table? && m.base == FullAddr(d.base, m.p.target) && m.AtTable(a, level - 1)
      else
        && result.Success? && (level > 1 ==> Decides(Entry(m.p, m.mem, base, level - 1, a), level - 1, true))
        && (m.remain == 0 ==> result == Success(m.base)) && (m.remain == 1 ==> m.Resolves(a, result))
    case NotPresent =>
      result == Failure(NotPresent) && level > 1 && Decides(Entry(m.p, m.mem, base, level - 1, a), level - 1, false)
    case _ => result == Failure(status)
  }

  method TryEntry(m: Machine, addr: Addr) returns (status: Status)
    requires m.AtTable(addr, m.remain)
    modifies m`base, m`remain, m`elemsz, m.idx
    ensures Tried(m, old(m.base), old(m.remain), addr, status)
  {
    ghost var base, level := m.base, m.remain;
    ghost var result := Walk(m.p, m.mem, base, level, addr);
    status := m.Step(addr, result);
    if level > 1 {
      TriedEntry(m, base, level, addr, status, Entry(m.p, m.mem, base, level - 1, addr));
    }
  }

  lemma TriedEntry(m: Machine, base: FullAddr, level: nat, a: Addr, status: Status, d: Decoded)
    requires 1 < level <= |m.F()| && d == Entry(m.p, m.mem, base, level - 1, a)
    requires m.Followed(d, a, level - 1, status)
    requires status == Ok ==> if m.remain > 0 then m.Resolves(a, Walk(m.p, m.mem, base, level, a))
                              else Walk(m.p, m.mem, base, level, a) == Success(m.base)
    requires status != Ok ==> Walk(m.p, m.mem, base, level, a) == Failure(status)
    ensures Tried(m, base, level, a, status)
  {
    EntryFails(m.p, m.mem, base, level - 1, a);
  }

  /** One turn of the loop in `lowest_mapped_tbl`: the entry for `addr`. */
  method TryLowestMapped(m: Machine, span: nat, addr: Addr, limit: Addr)
    returns (done: bool, status: Status, next: Addr)
    requires m.AtTable(addr, m.remain) && addr <= limit && span == Span(m.F(), m.remain - 1)
    modifies m`base, m`remain, m`elemsz, m.idx
    ensures done ==> status != NotPresent
                     && Upwards(true, m.p, m.mem, old(m.base), old(m.remain), addr, limit, status, next)
    ensures done && status == Ok ==> Walk(m.p, m.mem, old(m.base), old(m.remain), next) == Success(m.base)
    ensures !done ==> Passed(true, m.p, m.mem, old(m.base), old(m.remain), limit, addr, next)
    decreases m.remain, 0
  {
    ghost var base := m.base;
    var level := m.remain;
    ghost var result := Walk(m.p, m.mem, base, level, addr);
    next := addr;
    status := TryEntry(m, addr);
    hide Upwards, Passed, Walk, Entry, All, Start, End, Span, Width, Machine.Resolves;
    if status == Ok {
      if m.remain <= 1 {
        status := m.Step(addr, result);
        FoundHere(true, m.p, m.mem, base, level, addr, limit, status);
        return true, status, addr;
      }
      status, next := LowestMappedTbl(m, addr, limit);
      if status == NotPresent {
        PassTable(true, m.p, m.mem, base, level - 1, limit, addr, next);
      } else {
        FoundInTable(true, m.p, m.mem, base, level - 1, limit, addr, status, next);
      }
    } else if status == NotPresent {
      next := Behind(m.p.pf, addr, level - 1, span);
      PassEntry(true, m.p, m.mem, base, level - 1, limit, addr, next);
    } else {
      FoundHere(true, m.p, m.mem, base, level, addr, limit, status);
    }
    done := status != NotPresent;
  }

  /** `lowest_mapped_tbl` */
  method LowestMappedTbl(m: Machine, first: Addr, limit: Addr) returns (status: Status, addr: Addr)
    requires m.AtTable(first, m.remain)
    modifies m`base, m`remain, m`elemsz, m.idx
    ensures Upwards(true, m.p, m.mem, old(m.base), old(m.remain), first, limit, status, addr)
    ensures status == Ok ==> Walk(m.p, m.mem, old(m.base), old(m.remain), addr) == Success(m.base)
    decreases m.remain, 1
  {
    ghost var base := m.base;
    var level := m.remain;
    var span := TableSpan(m.p.pf, level - 1);
    var mystep := Save(m);
    addr := first;
    InOwnBlock(m.F(), first, level);
    while addr <= limit
      invariant Searching(true, m.p, m.mem, base, level, first, limit, addr)
      invariant addr <= limit ==> Ready(m, mystep, base, level, addr)
      decreases if addr <= limit then limit + 1 - addr else 0
    {
      ghost var cur := addr;
      var done;
      done, status, addr := TryLowestMapped(m, span, addr, limit);
      if done {
        FoundLater(true, m.p, m.mem, base, level, first, limit, cur, status, addr);
        return;
      }
      var more;
      mystep, more := NextIndex(m, mystep, base, level, cur);
      SameBlockEnd(m.F(), first, cur, level);
      if !more {
        Exhausted(true, m.p, m.mem, base, level, first, limit, cur, addr);
        return NotPresent, addr;
      }
      GoOn(true, m.p, m.mem, base, level, first, limit, cur, addr, End(m.F(), cur, level - 1));
    }
    status := NotPresent;
  }

  lemma SameBlockEnd(f: seq<nat>, first: nat, addr: nat, i: nat)
    requires 0 < i <= |f| && first <= addr < End(f, first, i)
    ensures End(f, addr, i) == End(f, first, i) && End(f, addr, i - 1) <= End(f, addr, i)
  {
    InOwnBlock(f, first, i);
    InBlock(f, first, addr, i);
    Nested(f, addr, i - 1);
  }

  /** A page, at the end of all tables, maps every address. */
  lemma PassPage(p: Pgt, mem: Memory, base: FullAddr, limit: Addr, addr: Addr, next: Addr)
    requires 0 < |p.pf.fieldsz| && next == Wrap(End(p.pf.fieldsz, addr, 0))
    ensures Passed(false, p, mem, base, 1, limit, addr, next)
  {
    InOwnBlock(p.pf.fieldsz, addr, 0);
  }

  /** One turn of the loop in `lowest_unmapped_tbl`. */
  method TryLowestUnmapped(m: Machine, span: nat, addr: Addr, limit: Addr)
    returns (done: bool, status: Status, next: Addr)
    requires m.AtTable(addr, m.remain) && addr <= limit && span == Span(m.F(), m.remain - 1)
    modifies m`base, m`remain, m`elemsz, m.idx
    ensures done ==> status != NotPresent
                     && Upwards(false, m.p, m.mem, old(m.base), old(m.remain), addr, limit, status, next)
    ensures !done ==> Passed(false, m.p, m.mem, old(m.base), old(m.remain), limit, addr, next)
    decreases m.remain, 0
  {
    ghost var base := m.base;
    var level := m.remain;
    status := TryEntry(m, addr);
    hide Upwards, Passed, Walk, Entry, All, Start, End, Span, Width, Machine.Resolves;
    next := addr;
    if status == NotPresent {
      FoundHere(false, m.p, m.mem, base, level, addr, limit, Ok);
      return true, Ok, addr;
    }
    if status != Ok {
      FoundHere(false, m.p, m.mem, base, level, addr, limit, status);
      return true, status, addr;
    }
    if m.remain > 1 {
      status, next := LowestUnmappedTbl(m, addr, limit);
      if status == NotPresent {
        PassTable(false, m.p, m.mem, base, level - 1, limit, addr, next);
      } else {
        FoundInTable(false, m.p, m.mem, base, level - 1, limit, addr, status, next);
      }
      done := status != NotPresent;
    } else {
      next := Behind(m.p.pf, addr, level - 1, span);
      if level == 1 {
        PassPage(m.p, m.mem, base, limit, addr, next);
      } else {
        PassEntry(false, m.p, m.mem, base, level - 1, limit, addr, next);
      }
      done := false;
    }
  }

  /** `lowest_unmapped_tbl` */
  method LowestUnmappedTbl(m: Machine, first: Addr, limit: Addr) returns (status: Status, addr: Addr)
    requires m.AtTable(first, m.remain)
    modifies m`base, m`remain, m`elemsz, m.idx
    ensures Upwards(false, m.p, m.mem, old(m.base), old(m.remain), first, limit, status, addr)
    decreases m.remain, 1
  {
    ghost var base := m.base;
    var level := m.remain;
    var span := TableSpan(m.p.pf, level - 1);
    var mystep := Save(m);
    addr := first;
    InOwnBlock(m.F(), first, level);
    while addr <= limit
      invariant Searching(false, m.p, m.mem, base, level, first, limit, addr)
      invariant addr <= limit ==> Ready(m, mystep, base, level, addr)
      decreases if addr <= limit then limit + 1 - addr else 0
    {
      ghost var cur := addr;
      var done;
      done, status, addr := TryLowestUnmapped(m, span, addr, limit);
      if done {
        FoundLater(false, m.p, m.mem, base, level, first, limit, cur, status, addr);
        return;
      }
      var more;
      mystep, more := NextIndex(m, mystep, base, level, cur);
      SameBlockEnd(m.F(), first, cur, level);
      if !more {
        Exhausted(false, m.p, m.mem, base, level, first, limit, cur, addr);
        break;
      }
      GoOn(false, m.p, m.mem, base, level, first, limit, cur, addr, End(m.F(), cur, level - 1));
    }
    status := NotPresent;
  }

  // ---------------------------------------------------------------------------
  // Downwards

  function WrapDown(start: nat): nat { if start == 0 then ADDR_SPAN - 1 else start - 1 }

  /** Result of a search downwards, from `first` to `limit`, for a mapped address. */
  ghost predicate Downwards(p: Pgt, mem: Memory, base: FullAddr, level: nat, first: Addr, limit: Addr,
                            status: Status, addr: Addr)
    requires 0 < level <= |p.pf.fieldsz|
  {
    var start := Start(p.pf.fieldsz, first, level);
    match status
    case Ok =>
      && limit <= addr <= first && addr >= start
      && All(false, p, mem, base, level, addr + 1, first + 1) && Is(true, p, mem, base, level, addr)
    case NotPresent =>
      && All(false, p, mem, base, level, Max(limit, start), first + 1)
      && ((addr < limit && start <= limit) || addr == WrapDown(start))
    case _ =>
      && limit <= addr <= first && addr >= start
      && All(false, p, mem, base, level, addr + 1, first + 1) && Walk(p, mem, base, level, addr) == Failure(status)
  }

  ghost predicate SearchingDown(p: Pgt, mem: Memory, base: FullAddr, level: nat, first: Addr, limit: Addr, addr: Addr)
    requires 0 < level <= |p.pf.fieldsz|
  {
    var start := Start(p.pf.fieldsz, first, level);
    && (addr >= limit ==> start <= addr <= first)
    && (addr < limit ==> start <= limit)
    && All(false, p, mem, base, level, Max(addr + 1, limit), first + 1)
  }

  ghost predicate PassedDown(p: Pgt, mem: Memory, base: FullAddr, level: nat, limit: Addr, addr: Addr, next: Addr)
    requires 0 < level <= |p.pf.fieldsz|
  {
    var start := Start(p.pf.fieldsz, addr, level - 1);
    && All(false, p, mem, base, level, Max(limit, start), addr + 1)
    && ((next < limit && start <= limit) || next == WrapDown(start))
  }

  lemma PassEntryDown(p: Pgt, mem: Memory, base: FullAddr, r: nat, limit: Addr, addr: Addr, next: Addr)
    requires 0 < r < |p.pf.fieldsz| && Decides(Entry(p, mem, base, r, addr), r, false)
    requires next == WrapDown(Start(p.pf.fieldsz, addr, r))
    ensures PassedDown(p, mem, base, r + 1, limit, addr, next)
  {
    InOwnBlock(p.pf.fieldsz, addr, r);
    EntryDecides(false, p, mem, base, r, addr, Max(limit, Start(p.pf.fieldsz, addr, r)), addr + 1);
  }

  lemma PassTableDown(p: Pgt, mem: Memory, base: FullAddr, r: nat, limit: Addr, addr: Addr, next: Addr)
    requires 0 < r < |p.pf.fieldsz| && Entry(p, mem, base, r, addr).Table?
    requires Downwards(p, mem, FullAddr(Entry(p, mem, base, r, addr).base, p.target), r, addr, limit, NotPresent, next)
    ensures PassedDown(p, mem, base, r + 1, limit, addr, next)
  {
    InOwnBlock(p.pf.fieldsz, addr, r);
    TableAnswersAll(false, p, mem, base, r, addr, Max(limit, Start(p.pf.fieldsz, addr, r)), addr + 1);
  }

  lemma FoundInTableDown(p: Pgt, mem: Memory, base: FullAddr, r: nat, limit: Addr, addr: Addr, status: Status,
                         found: Addr)
    requires 0 < r < |p.pf.fieldsz| && Entry(p, mem, base, r, addr).Table? && status != NotPresent
    requires Downwards(p, mem, FullAddr(Entry(p, mem, base, r, addr).base, p.target), r, addr, limit, status, found)
    ensures Downwards(p, mem, base, r + 1, addr, limit, status, found)
    ensures Walk(p, mem, base, r + 1, found)
         == Walk(p, mem, FullAddr(Entry(p, mem, base, r, addr).base, p.target), r, found)
  {
    InOwnBlock(p.pf.fieldsz, addr, r);
    Nested(p.pf.fieldsz, addr, r);
    TableAnswersAll(false, p, mem, base, r, addr, found + 1, addr + 1);
    TableAnswers(p, mem, base, r, addr, found);
  }

  lemma FoundHereDown(p: Pgt, mem: Memory, base: FullAddr, level: nat, addr: Addr, limit: Addr, status: Status)
    requires 0 < level <= |p.pf.fieldsz| && limit <= addr && status != NotPresent
    requires if status == Ok then Is(true, p, mem, base, level, addr)
             else Walk(p, mem, base, level, addr) == Failure(status)
    ensures Downwards(p, mem, base, level, addr, limit, status, addr)
  {
    InOwnBlock(p.pf.fieldsz, addr, level);
  }

  lemma FoundLaterDown(p: Pgt, mem: Memory, base: FullAddr, level: nat, first: Addr, limit: Addr, addr: Addr,
                       status: Status, found: Addr)
    requires 0 < level <= |p.pf.fieldsz| && status != NotPresent
    requires Downwards(p, mem, base, level, addr, limit, status, found)
    requires Start(p.pf.fieldsz, first, level) <= addr <= first && All(false, p, mem, base, level, addr + 1, first + 1)
    ensures Downwards(p, mem, base, level, first, limit, status, found)
  {
    InOwnBlock(p.pf.fieldsz, first, level);
    InBlock(p.pf.fieldsz, first, addr, level);
    AllJoin(false, p, mem, base, level, found + 1, addr + 1, first + 1);
  }

  /** There is another entry before the one for `addr`, and `e` is its last address. */
  lemma GoOnDown(p: Pgt, mem: Memory, base: FullAddr, level: nat, first: Addr, limit: Addr, addr: Addr, next: Addr,
                 e: Addr)
    requires 0 < level <= |p.pf.fieldsz| && limit <= addr <= first
    requires All(false, p, mem, base, level, addr + 1, first + 1)
    requires PassedDown(p, mem, base, level, limit, addr, next)
    requires e + 1 == Start(p.pf.fieldsz, addr, level - 1) && e >= Start(p.pf.fieldsz, first, level)
    ensures SearchingDown(p, mem, base, level, first, limit, next)
    ensures next < addr && (next >= limit ==> next == e)
  {
    InOwnBlock(p.pf.fieldsz, addr, level - 1);
    hide Start, End, Span, Width, Is;
    AllJoin(false, p, mem, base, level, Max(limit, e + 1), addr + 1, first + 1);
  }

  lemma ExhaustedDown(p: Pgt, mem: Memory, base: FullAddr, level: nat, first: Addr, limit: Addr, addr: Addr, next: Addr)
    requires 0 < level <= |p.pf.fieldsz| && limit <= addr <= first
    requires All(false, p, mem, base, level, addr + 1, first + 1)
    requires PassedDown(p, mem, base, level, limit, addr, next)
    requires Start(p.pf.fieldsz, addr, level - 1) == Start(p.pf.fieldsz, first, level)
    ensures Downwards(p, mem, base, level, first, limit, NotPresent, next)
  {
    AllJoin(false, p, mem, base, level, Max(limit, Start(p.pf.fieldsz, addr, level - 1)), addr + 1, first + 1);
  }

  /** `(addr & ~tblmask) - 1`: the address before the entry, which may wrap. */
  method Before(pf: Form, a: Addr, i: nat, span: nat) returns (next: Addr)
    requires pf.Wf() && i <= |pf.fieldsz| && span == Span(pf.fieldsz, i)
    ensures next == WrapDown(Start(pf.fieldsz, a, i))
  {
    LowMask(a, Width(pf.fieldsz, i));
    var start := AndNot(a, span - 1);
    next := if start == 0 then ADDR_SPAN - 1 else start - 1;
  }

  method LastIndices(pf: Form, before: seq<Addr>, n: nat) returns (idx: seq<Addr>)
    requires pf.Wf() && n <= |pf.fieldsz| && n <= |before|
    ensures |idx| == |before|
    ensures forall j :: 0 <= j < |idx| ==> idx[j] == if j < n then Pow2(pf.fieldsz[j]) - 1 else before[j]
  {
    idx := before;
    for i := 0 to n
      invariant |idx| == |before|
      invariant forall j :: 0 <= j < |idx| ==> idx[j] == if j < i then Pow2(pf.fieldsz[j]) - 1 else before[j]
    {
      SpanSmall(pf, i);
      idx := idx[i := Pow2(pf.fieldsz[i]) - 1];
    }
  }

  lemma EntryBefore(f: seq<nat>, a: nat, level: nat)
    requires 0 < level <= |f|
    ensures Field(f, a, level - 1) != 0 <==> Start(f, a, level - 1) > Start(f, a, level)
    ensures Field(f, a, level - 1) != 0 ==>
      forall i :: 0 <= i < level ==>
        Field(f, Start(f, a, level - 1) - 1, i) == if i == level - 1 then Field(f, a, i) - 1 else Pow2(f[i]) - 1
  {
    Nested(f, a, level - 1);
    if Field(f, a, level - 1) != 0 { PreviousEntry(f, a, level); }
    hide Pow2, Field, Start, Span, Width, End;
  }

  /** The saved indices of the last address of the entry before, if the table has one. */
  method StepBack(pf: Form, saved: Saved, level: nat, ghost a: Addr) returns (next: Saved, more: bool)
    requires pf.Wf() && 0 < level <= |pf.fieldsz| < |saved.idx|
    requires forall i :: 0 <= i < level ==> saved.idx[i] == Field(pf.fieldsz, a, i)
    ensures more <==> Start(pf.fieldsz, a, level - 1) > Start(pf.fieldsz, a, level)
    ensures next == saved.(idx := next.idx) && |next.idx| == |saved.idx|
    ensures more ==> forall i :: 0 <= i < level ==>
            next.idx[i] == Field(pf.fieldsz, Start(pf.fieldsz, a, level - 1) - 1, i)
  {
    EntryBefore(pf.fieldsz, a, level);
    hide Pow2, Field, Start, Span, Width, End;
    var idx := LastIndices(pf, saved.idx, level - 1);
    more := idx[level - 1] != 0;
    next := saved;
    if more {
      next := saved.(idx := idx[level - 1 := idx[level - 1] - 1]);
    }
  }

  /** The end of the loop in `highest_mapped_tbl`: go on with the entry before. */
  method PreviousIndex(m: Machine, saved: Saved, ghost base: FullAddr, level: nat, ghost a: Addr)
    returns (next: Saved, more: bool)
    requires m.Ready() && 0 < level <= |m.F()| && |saved.idx| == m.idx.Length
    requires saved.remain == level && saved.base == base
    requires saved.elemsz == if level > 1 then EntrySize(m.p.pf.fmt) else 1
    requires forall i :: 0 <= i < level ==> saved.idx[i] == Field(m.F(), a, i)
    modifies m`base, m`remain, m`elemsz, m.idx
    ensures more <==> Start(m.F(), a, level - 1) > Start(m.F(), a, level)
    ensures more ==> Ready(m, next, base, level, Start(m.F(), a, level - 1) - 1)
    ensures |next.idx| == m.idx.Length
  {
    hide Pow2, Field, Start, Span, Width, End;
    next, more := StepBack(m.p.pf, saved, level, a);
    if more {
      Restore(m, next);
    }
  }

  /** One turn of the loop in `highest_mapped_tbl`. */
  method TryHighestMapped(m: Machine, span: nat, addr: Addr, limit: Addr)
    returns (done: bool, status: Status, next: Addr)
    requires m.AtTable(addr, m.remain) && addr >= limit && span == Span(m.F(), m.remain - 1)
    modifies m`base, m`remain, m`elemsz, m.idx
    ensures done ==> status != NotPresent
                     && Downwards(m.p, m.mem, old(m.base), old(m.remain), addr, limit, status, next)
    ensures done && status == Ok ==> Walk(m.p, m.mem, old(m.base), old(m.remain), next) == Success(m.base)
    ensures !done ==> PassedDown(m.p, m.mem, old(m.base), old(m.remain), limit, addr, next)
    decreases m.remain, 0
  {
    ghost var base := m.base;
    var level := m.remain;
    ghost var result := Walk(m.p, m.mem, base, level, addr);
    next := addr;
    status := TryEntry(m, addr);
    hide Downwards, PassedDown, Walk, Entry, All, Start, End, Span, Width, WrapDown, Machine.Resolves;
    if status == Ok {
      if m.remain <= 1 {
        status := m.Step(addr, result);
        FoundHereDown(m.p, m.mem, base, level, addr, limit, status);
        return true, status, addr;
      }
      status, next := HighestMappedTbl(m, addr, limit);
      if status == NotPresent {
        PassTableDown(m.p, m.mem, base, level - 1, limit, addr, next);
      } else {
        FoundInTableDown(m.p, m.mem, base, level - 1, limit, addr, status, next);
      }
    } else if status == NotPresent {
      next := Before(m.p.pf, addr, level - 1, span);
      PassEntryDown(m.p, m.mem, base, level - 1, limit, addr, next);
    } else {
      FoundHereDown(m.p, m.mem, base, level, addr, limit, status);
    }
    done := status != NotPresent;
  }

  /** `highest_mapped_tbl` */
  method HighestMappedTbl(m: Machine, first: Addr, limit: Addr) returns (status: Status, addr: Addr)
    requires m.AtTable(first, m.remain)
    modifies m`base, m`remain, m`elemsz, m.idx
    ensures Downwards(m.p, m.mem, old(m.base), old(m.remain), first, limit, status, addr)
    ensures status == Ok ==> Walk(m.p, m.mem, old(m.base), old(m.remain), addr) == Success(m.base)
    decreases m.remain, 1
  {
    ghost var base := m.base;
    var level := m.remain;
    var span := TableSpan(m.p.pf, level - 1);
    var mystep := Save(m);
    addr := first;
    InOwnBlock(m.F(), first, level);
    while addr >= limit
      invariant SearchingDown(m.p, m.mem, base, level, first, limit, addr)
      invariant addr >= limit ==> Ready(m, mystep, base, level, addr)
      decreases if addr >= limit then addr - limit + 1 else 0
    {
      ghost var cur := addr;
      var done;
      done, status, addr := TryHighestMapped(m, span, addr, limit);
      if done {
        FoundLaterDown(m.p, m.mem, base, level, first, limit, cur, status, addr);
        return;
      }
      var more;
      mystep, more := PreviousIndex(m, mystep, base, level, cur);
      SameBlockStart(m.F(), first, cur, level);
      if !more {
        ExhaustedDown(m.p, m.mem, base, level, first, limit, cur, addr);
        return NotPresent, addr;
      }
      GoOnDown(m.p, m.mem, base, level, first, limit, cur, addr, Start(m.F(), cur, level - 1) - 1);
    }
    status := NotPresent;
  }

  lemma SameBlockStart(f: seq<nat>, first: nat, addr: nat, i: nat)
    requires 0 < i <= |f| && Start(f, first, i) <= addr <= first
    ensures Start(f, addr, i) == Start(f, first, i) && Start(f, addr, i) <= Start(f, addr, i - 1) <= addr
  {
    InOwnBlock(f, first, i);
    InBlock(f, first, addr, i);
    Nested(f, addr, i - 1);
  }

  // ---------------------------------------------------------------------------
  // Searches of the whole address space

  /** Both addresses can be walked, and from the same entries of the root table on; for
      the formats with sign extension that means the same half of the address space. */
  ghost predicate InReach(p: Pgt, low: Addr, high: Addr)
    requires p.pf.Wf()
  {
    var n := |p.pf.fieldsz|;
    Launches(p, low) && Launches(p, high) && Start(p.pf.fieldsz, low, n) == Start(p.pf.fieldsz, high, n)
  }

  lemma BetweenReached(p: Pgt, low: Addr, a: Addr, high: Addr)
    requires p.pf.Wf() && InReach(p, low, high) && low <= a <= high
    ensures InReach(p, low, a) && InReach(p, a, high)
  {
    var f, n := p.pf.fieldsz, |p.pf.fieldsz|;
    InOwnBlock(f, low, n);
    InOwnBlock(f, high, n);
    InBlock(f, low, a, n);
    assert Start(f, a, n) == Start(f, low, n);
    assert low % Span(f, n) == low - Start(f, low, n) && high % Span(f, n) == high - Start(f, low, n);
    assert a % Span(f, n) == a - Start(f, low, n);
    hide Span, Start, Width;
  }

  ghost predicate Maps(present: bool, p: Pgt, mem: Memory, a: Addr)
    requires p.pf.Wf()
  {
    if present then Translate(p, mem, a).Success? else Translate(p, mem, a) == Failure(NotPresent)
  }

  ghost predicate MapsAll(present: bool, p: Pgt, mem: Memory, low: int, high: int)
    requires p.pf.Wf()
  {
    forall a: Addr :: low <= a < high ==> Maps(present, p, mem, a)
  }

  /** `addr` is the lowest address from `low` to `limit` that is mapped (or not); or there is
      none; or the search stopped at the first one whose walk fails for another reason. */
  ghost predicate Lowest(present: bool, p: Pgt, mem: Memory, low: Addr, limit: Addr, status: Status, addr: Addr)
    requires p.pf.Wf()
  {
    match status
    case Ok => low <= addr <= limit && Maps(present, p, mem, addr) && MapsAll(!present, p, mem, low, addr)
    case NotPresent => MapsAll(!present, p, mem, low, limit + 1)
    case _ =>
      low <= addr <= limit && Translate(p, mem, addr) == Failure(status) && MapsAll(!present, p, mem, low, addr)
  }

  ghost predicate Highest(p: Pgt, mem: Memory, high: Addr, limit: Addr, status: Status, addr: Addr)
    requires p.pf.Wf()
  {
    match status
    case Ok => limit <= addr <= high && Maps(true, p, mem, addr) && MapsAll(false, p, mem, addr + 1, high + 1)
    case NotPresent => MapsAll(false, p, mem, limit, high + 1)
    case _ =>
      limit <= addr <= high && Translate(p, mem, addr) == Failure(status) && MapsAll(false, p, mem, addr + 1, high + 1)
  }

  lemma AllMaps(present: bool, p: Pgt, mem: Memory, first: Addr, last: Addr, low: int, high: int)
    requires p.pf.Wf() && InReach(p, first, last) && first <= low && high <= last + 1
    requires All(present, p, mem, p.root, |p.pf.fieldsz|, low, high)
    ensures MapsAll(present, p, mem, low, high)
  {
    forall a: Addr | low <= a < high ensures Maps(present, p, mem, a) {
      BetweenReached(p, first, a, last);
      assert Is(present, p, mem, p.root, |p.pf.fieldsz|, a);
    }
  }

  /** The addresses whose walk starts at the root table like that of `a`: all that the table
      spans, or one half of them for the formats with sign extension. */
  function HalfFirst(p: Pgt, a: Addr): (first: Addr)
    requires p.pf.Wf()
  {
    var f := p.pf.fieldsz;
    SpanSmall(p.pf, |f|);
    if p.pf.fmt == Arm then Start(f, a, |f|)
    else if a < Span(f, |f|) / 2 then 0 else ADDR_SPAN - Span(f, |f|) / 2
  }

  function HalfLast(p: Pgt, a: Addr): (last: Addr)
    requires p.pf.Wf()
  {
    var f := p.pf.fieldsz;
    SpanSmall(p.pf, |f|);
    EndFits(p.pf, a, |f|);
    if p.pf.fmt == Arm then End(f, a, |f|) - 1
    else if a < Span(f, |f|) / 2 then Span(f, |f|) / 2 - 1 else ADDR_SPAN - 1
  }

  lemma HalfRemainder(s: nat, h: nat, t: nat, b: Addr)
    requires h > 0 && s == 2 * h && s * t == ADDR_SPAN && t > 0
    ensures b < h ==> b % s == b
    ensures b >= ADDR_SPAN - h ==> b % s == b - (ADDR_SPAN - s)
    ensures b < h || b >= ADDR_SPAN - h <==> b == if b % s < h then b % s else b % s + (ADDR_SPAN - s)
  {
    if b < h {
      ModUnique(b, s, 0, b);
    } else if b >= ADDR_SPAN - h {
      Distribute(s, t - 1, 1);
      ModUnique(b, s, t - 1, b - (ADDR_SPAN - s));
    } else if b % s >= h {
      MulGrows(s, t);
    }
  }

  lemma SpanDivides(pf: Form)
    requires pf.Wf()
    ensures var s, h, t := Span(pf.fieldsz, |pf.fieldsz|), Span(pf.fieldsz, |pf.fieldsz|) / 2,
                           Pow2(64 - Width(pf.fieldsz, |pf.fieldsz|));
      h > 0 && s == 2 * h && s * t == ADDR_SPAN && t > 0
  {
    var w := Width(pf.fieldsz, |pf.fieldsz|);
    WidthGrows(pf.fieldsz, 1, |pf.fieldsz|);
    Pow2Sum(w, 64 - w);
    Pow2Of63();
    assert Pow2(64) == 2 * Pow2(63);
    assert Pow2(w) == 2 * Pow2(w - 1);
  }

  /** The walks of two addresses start alike if and only if they are in the same half. */
  lemma HalfIs(p: Pgt, a: Addr, b: Addr)
    requires p.pf.Wf() && Launches(p, a)
    ensures HalfFirst(p, a) <= a <= HalfLast(p, a)
    ensures InReach(p, a, b) <==> HalfFirst(p, a) <= b <= HalfLast(p, a)
    ensures InReach(p, b, a) <==> HalfFirst(p, a) <= b <= HalfLast(p, a)
  {
    var f, n := p.pf.fieldsz, |p.pf.fieldsz|;
    if p.pf.fmt == Arm {
      InOwnBlock(f, a, n);
      InOwnBlock(f, b, n);
      if HalfFirst(p, a) <= b <= HalfLast(p, a) { InBlock(f, a, b, n); }
    } else {
      var s, h, t := Span(f, n), Span(f, n) / 2, Pow2(64 - Width(f, n));
      SpanDivides(p.pf);
      HalfRemainder(s, h, t, a);
      HalfRemainder(s, h, t, b);
      assert s < ADDR_SPAN by { SpanSmall(p.pf, n); }
      hide Width, Pow2, Span;
    }
  }

  /** What a search upwards means for the half it starts in: `Lowest` up to the limit, or up to
      the end of the half when the limit is behind that.  An answer behind the half says that
      there is none in it. */
  ghost predicate LowestInHalf(present: bool, p: Pgt, mem: Memory, low: Addr, limit: Addr, status: Status, addr: Addr)
    requires p.pf.Wf()
  {
    var last: Addr := Min(limit, HalfLast(p, low));
    Lowest(present, p, mem, low, last, if addr > last then NotPresent else status, addr)
  }

  ghost predicate HighestInHalf(p: Pgt, mem: Memory, high: Addr, limit: Addr, status: Status, addr: Addr)
    requires p.pf.Wf()
  {
    var first: Addr := Max(limit, HalfFirst(p, high));
    Highest(p, mem, high, first, if addr < first then NotPresent else status, addr)
  }

  lemma UpwardsIsLowest(present: bool, p: Pgt, mem: Memory, low: Addr, limit: Addr, status: Status, addr: Addr)
    requires p.pf.Wf() && Launches(p, low)
    requires Upwards(present, p, mem, p.root, |p.pf.fieldsz|, low, limit, status, addr)
    ensures LowestInHalf(present, p, mem, low, limit, status, addr)
  {
    var n := |p.pf.fieldsz|;
    var end := HalfLast(p, low);
    HalfIs(p, low, end);
    InOwnBlock(p.pf.fieldsz, end, n);
    var last := Min(limit, end);
    hide Start, Span, Width, HalfLast, HalfFirst, Launches;
    if status == NotPresent || addr > last {
      AllMaps(!present, p, mem, low, end, low, last + 1);
    } else {
      AllMaps(!present, p, mem, low, end, low, addr);
      BetweenReached(p, low, addr, end);
    }
  }

  lemma DownwardsIsHighest(p: Pgt, mem: Memory, high: Addr, limit: Addr, status: Status, addr: Addr)
    requires p.pf.Wf() && Launches(p, high)
    requires Downwards(p, mem, p.root, |p.pf.fieldsz|, high, limit, status, addr)
    ensures HighestInHalf(p, mem, high, limit, status, addr)
  {
    var n := |p.pf.fieldsz|;
    var start := HalfFirst(p, high);
    HalfIs(p, high, start);
    InOwnBlock(p.pf.fieldsz, start, n);
    var first := Max(limit, start);
    hide Start, Span, Width, HalfLast, HalfFirst, Launches;
    if status == NotPresent || addr < first {
      AllMaps(false, p, mem, start, high, first, high + 1);
    } else {
      AllMaps(false, p, mem, start, high, addr + 1, high + 1);
      BetweenReached(p, start, addr, high);
    }
  }

  /** First address of the page of `a`. */
  function PageStart(p: Pgt, a: Addr): Addr
    requires p.pf.Wf()
  {
    Clear(a, p.pf.fieldsz[0])
  }

  /** `lowest_mapped` */
  method LowestMapped(m: Machine, from: Addr, limit: Addr) returns (status: Status, addr: Addr)
    requires m.Ready()
    modifies m`base, m`remain, m`elemsz, m.idx
    ensures var low := PageStart(m.p, from);
            && (!Launches(m.p, low) ==> Translate(m.p, m.mem, low) == Failure(status))
            && (Launches(m.p, low) ==> Upwards(true, m.p, m.mem, m.p.root, |m.F()|, low, limit, status, addr))
            && (Launches(m.p, low) ==> LowestInHalf(true, m.p, m.mem, low, limit, status, addr))
            && (Launches(m.p, low) && status == Ok && addr <= HalfLast(m.p, low) ==>
                Translate(m.p, m.mem, addr) == Success(m.base))
  {
    LowMask(from, m.F()[0]);
    addr := AndNot(from, Pow2(m.F()[0]) - 1);
    hide AndNot, Pow2, PageStart, Launches, Walk, Translate, Upwards, LowestInHalf, HalfLast;
    status := m.Launch(addr);
    if status != Ok {
      return;
    }
    status, addr := LowestFrom(m, addr, limit);
  }

  method LowestFrom(m: Machine, low: Addr, limit: Addr) returns (status: Status, addr: Addr)
    requires m.AtTable(low, |m.F()|) && m.remain == |m.F()| && m.base == m.p.root && Launches(m.p, low)
    modifies m`base, m`remain, m`elemsz, m.idx
    ensures Upwards(true, m.p, m.mem, m.p.root, |m.F()|, low, limit, status, addr)
    ensures LowestInHalf(true, m.p, m.mem, low, limit, status, addr)
    ensures status == Ok && addr <= HalfLast(m.p, low) ==> Translate(m.p, m.mem, addr) == Success(m.base)
  {
    hide Upwards, Walk, Translate, LowestInHalf, HalfLast, Launches;
    status, addr := LowestMappedTbl(m, low, limit);
    LowestAnswer(m.p, m.mem, low, limit, status, addr, m.base);
  }

  lemma LowestAnswer(p: Pgt, mem: Memory, low: Addr, limit: Addr, status: Status, addr: Addr, at: FullAddr)
    requires p.pf.Wf() && Launches(p, low)
    requires Upwards(true, p, mem, p.root, |p.pf.fieldsz|, low, limit, status, addr)
    requires status == Ok ==> Walk(p, mem, p.root, |p.pf.fieldsz|, addr) == Success(at)
    ensures LowestInHalf(true, p, mem, low, limit, status, addr)
    ensures status == Ok && addr <= HalfLast(p, low) ==> Translate(p, mem, addr) == Success(at)
  {
    assert status == Ok ==> low <= addr;
    UpwardsIsLowest(true, p, mem, low, limit, status, addr);
    hide Upwards, Walk, LowestInHalf, HalfLast, Launches, Translate;
    if status == Ok && addr <= HalfLast(p, low) { HalfWalks(p, mem, low, addr); }
  }

  lemma HalfWalks(p: Pgt, mem: Memory, a: Addr, b: Addr)
    requires p.pf.Wf() && Launches(p, a) && (a <= b <= HalfLast(p, a) || HalfFirst(p, a) <= b <= a)
    ensures Translate(p, mem, b) == Walk(p, mem, p.root, |p.pf.fieldsz|, b)
  {
    HalfIs(p, a, b);
  }

  /** `lowest_unmapped` */
  method LowestUnmapped(m: Machine, from: Addr, limit: Addr) returns (status: Status, addr: Addr)
    requires m.Ready()
    modifies m`base, m`remain, m`elemsz, m.idx
    ensures var low := PageStart(m.p, from);
            && (!Launches(m.p, low) ==> Translate(m.p, m.mem, low) == Failure(status))
            && (Launches(m.p, low) ==> Upwards(false, m.p, m.mem, m.p.root, |m.F()|, low, limit, status, addr))
            && (Launches(m.p, low) ==> LowestInHalf(false, m.p, m.mem, low, limit, status, addr))
  {
    LowMask(from, m.F()[0]);
    addr := AndNot(from, Pow2(m.F()[0]) - 1);
    ghost var low := addr;
    status := m.Launch(addr);
    if status != Ok {
      return;
    }
    status, addr := LowestUnmappedTbl(m, addr, limit);
    hide Upwards, Walk, Lowest, LowestInHalf, Start, HalfFirst, Launches, Span, Width;
    UpwardsIsLowest(false, m.p, m.mem, low, limit, status, addr);
  }

  lemma PageEndFits(p: Pgt, a: Addr)
    requires p.pf.Wf()
    ensures Or(a, Pow2(p.pf.fieldsz[0]) - 1) == PageStart(p, a) + Pow2(p.pf.fieldsz[0]) - 1 < ADDR_SPAN
  {
    LowMask(a, p.pf.fieldsz[0]);
    EndFits(p.pf, a, 1);
    assert Width(p.pf.fieldsz, 1) == p.pf.fieldsz[0];
  }

  /** Last address of the page of `a`. */
  function PageEnd(p: Pgt, a: Addr): Addr
    requires p.pf.Wf()
  {
    PageEndFits(p, a);
    PageStart(p, a) + Pow2(p.pf.fieldsz[0]) - 1
  }

  /** `highest_mapped` */
  method HighestMapped(m: Machine, from: Addr, limit: Addr) returns (status: Status, addr: Addr)
    requires m.Ready()
    modifies m`base, m`remain, m`elemsz, m.idx
    ensures var high := PageEnd(m.p, from);
            && (!Launches(m.p, high) ==> Translate(m.p, m.mem, high) == Failure(status))
            && (Launches(m.p, high) ==> Downwards(m.p, m.mem, m.p.root, |m.F()|, high, limit, status, addr))
            && (Launches(m.p, high) ==> HighestInHalf(m.p, m.mem, high, limit, status, addr))
            && (Launches(m.p, high) && status == Ok && addr >= HalfFirst(m.p, high) ==>
                Translate(m.p, m.mem, addr) == Success(m.base))
  {
    PageEndFits(m.p, from);
    addr := Or(from, Pow2(m.F()[0]) - 1);
    hide Or, Pow2, PageEnd, Launches, Walk, Translate, Downwards, HighestInHalf, HalfFirst;
    status := m.Launch(addr);
    if status != Ok {
      return;
    }
    status, addr := HighestFrom(m, addr, limit);
  }

  /** The search behind the launch. */
  method HighestFrom(m: Machine, high: Addr, limit: Addr) returns (status: Status, addr: Addr)
    requires m.AtTable(high, |m.F()|) && m.remain == |m.F()| && m.base == m.p.root && Launches(m.p, high)
    modifies m`base, m`remain, m`elemsz, m.idx
    ensures Downwards(m.p, m.mem, m.p.root, |m.F()|, high, limit, status, addr)
    ensures HighestInHalf(m.p, m.mem, high, limit, status, addr)
    ensures status == Ok && addr >= HalfFirst(m.p, high) ==> Translate(m.p, m.mem, addr) == Success(m.base)
  {
    hide Downwards, Walk, Translate, HighestInHalf, HalfFirst, Launches;
    status, addr := HighestMappedTbl(m, high, limit);
    HighestAnswer(m.p, m.mem, high, limit, status, addr, m.base);
  }

  lemma HighestAnswer(p: Pgt, mem: Memory, high: Addr, limit: Addr, status: Status, addr: Addr, at: FullAddr)
    requires p.pf.Wf() && Launches(p, high)
    requires Downwards(p, mem, p.root, |p.pf.fieldsz|, high, limit, status, addr)
    requires status == Ok ==> Walk(p, mem, p.root, |p.pf.fieldsz|, addr) == Success(at)
    ensures HighestInHalf(p, mem, high, limit, status, addr)
    ensures status == Ok && addr >= HalfFirst(p, high) ==> Translate(p, mem, addr) == Success(at)
  {
    assert status == Ok ==> addr <= high;
    DownwardsIsHighest(p, mem, high, limit, status, addr);
    hide Downwards, Walk, HighestInHalf, HalfFirst, Launches, Translate;
    if status == Ok && addr >= HalfFirst(p, high) { HalfWalks(p, mem, high, addr); }
  }
}
