/** The step machine of `src/addrxlat/step.c`: it does what `PageTable.Walk` says. */
module Steps {
  import opened Bits
  import opened PageTable

  // ---------------------------------------------------------------------------
  // Indices that belong to one address

  /** The bits of `a` from field `i` up to field `r`, and `extra` more. */
  ghost function Part(f: seq<nat>, a: nat, i: nat, r: nat, extra: nat): nat
    requires i <= r <= |f|
  {
    WidthGrows(f, i, r); High(a, Width(f, i)) % Pow2(Width(f, r) - Width(f, i) + extra)
  }

  lemma PartStep(f: seq<nat>, a: nat, i: nat, r: nat, extra: nat)
    requires i < r <= |f|
    ensures Part(f, a, i, r, extra) == Field(f, a, i) + Shl(Part(f, a, i + 1, r, extra), f[i])
  {
    WidthGrows(f, i + 1, r);
    var x := High(a, Width(f, i));
    var rest := Width(f, r) - Width(f, i + 1) + extra;
    Pow2Sum(f[i], rest);
    ModMul(x, Pow2(f[i]), Pow2(rest));
    Pow2Sum(Width(f, i), f[i]);
    ModMul(a, Span(f, i), Pow2(f[i]));
  }

  lemma PartWhole(f: seq<nat>, a: nat, r: nat, extra: nat)
    requires r <= |f|
    ensures Part(f, a, 0, r, extra) == Offset(f, a, r, extra)
  {
    assert Pow2(0) == 1;
  }

  lemma PartBound(f: seq<nat>, a: nat, i: nat, r: nat, extra: nat)
    requires i <= r <= |f|
    ensures Width(f, i) <= Width(f, r) && Part(f, a, i, r, extra) < Pow2(Width(f, r) - Width(f, i) + extra)
  {
    WidthGrows(f, i, r);
  }

  /** The top field with bits of the next one above it. */
  lemma PartOverlap(f: seq<nat>, a: nat, i: nat, bits: nat)
    requires i + 1 < |f| && bits <= f[i + 1]
    ensures Part(f, a, i, i + 1, bits) == Field(f, a, i) + Shl(Low(Field(f, a, i + 1), bits), f[i])
  {
    PartStep(f, a, i, i + 1, bits);
    var x := High(a, Width(f, i + 1));
    var more := f[i + 1] - bits;
    Pow2Sum(bits, more);
    ModMul(x, Pow2(bits), Pow2(more));
    ModUnique(Field(f, a, i + 1), Pow2(bits), (x / Pow2(bits)) % Pow2(more), x % Pow2(bits));
  }

  /** Shifted up, higher parts leave room for the next field. */
  lemma LeavesRoom(f: seq<nat>, a: nat, i: nat, r: nat, extra: nat)
    requires i + 1 <= r <= |f|
    ensures Shl(Part(f, a, i + 1, r, extra), f[i]) % Pow2(f[i]) == 0 && Field(f, a, i) < Pow2(f[i])
  {
    var x := Part(f, a, i + 1, r, extra);
    ModUnique(Shl(x, f[i]), Pow2(f[i]), x, 0);
  }

  /** The index at level `i` of an address whose top index, at `r - 1`, has extra bits. */
  ghost function IndexAt(f: seq<nat>, a: nat, i: nat, r: nat, extra: nat): nat
    requires i < r <= |f|
  {
    if i == r - 1 then Part(f, a, i, r, extra) else Field(f, a, i)
  }

  /** What `pgt_huge_page` has collected from the indices above `i`. */
  ghost function Collected(f: seq<nat>, a: nat, i: nat, r: nat, extra: nat): nat
    requires i < r <= |f|
  {
    if i == r - 1 then 0 else Shl(Part(f, a, i + 1, r, extra), f[i])
  }

  lemma Collect(f: seq<nat>, a: nat, i: nat, r: nat, extra: nat)
    requires i < r <= |f|
    ensures var x, y := Collected(f, a, i, r, extra), IndexAt(f, a, i, r, extra);
            Or(x, y) == Or(y, x) == Part(f, a, i, r, extra)
  {
    var x, y := Collected(f, a, i, r, extra), IndexAt(f, a, i, r, extra);
    OrCommutes(x, y);
    if i == r - 1 {
      Identity(y);
    } else {
      LeavesRoom(f, a, i, r, extra);
      PartStep(f, a, i, r, extra);
      OrAdds(x, y, f[i]);
    }
  }

  /** No shift loses bits. */
  lemma PartShift(pf: Form, a: nat, i: nat, r: nat, extra: nat)
    requires pf.Wf() && 0 < i <= r <= |pf.fieldsz| && Width(pf.fieldsz, r) + extra < 64
    ensures Shl(Part(pf.fieldsz, a, i, r, extra), pf.fieldsz[i - 1]) < ADDR_SPAN
  {
    PartBound(pf.fieldsz, a, i, r, extra);
    ShiftBound(Part(pf.fieldsz, a, i, r, extra), Width(pf.fieldsz, r) - Width(pf.fieldsz, i) + extra,
               pf.fieldsz[i - 1]);
  }

  lemma OffsetBound(pf: Form, a: nat, i: nat, extra: nat)
    requires pf.Wf() && i <= |pf.fieldsz| && Width(pf.fieldsz, i) + extra < 64
    ensures Offset(pf.fieldsz, a, i, extra) < ADDR_SPAN
  {
    Pow2Grows(Width(pf.fieldsz, i) + extra, 63);
    Pow2Of63();
  }

  // ---------------------------------------------------------------------------
  // Arithmetic of fields

  lemma EntryFails(p: Pgt, mem: Memory, from: FullAddr, remain: nat, a: Addr)
    requires remain < |p.pf.fieldsz|
    ensures Entry(p, mem, from, remain, a) != Failed(Ok)
  {
  }

  lemma HighHigh(a: nat, w: nat, b: nat)
    ensures High(High(a, w), b) == High(a, w + b)
  {
    Pow2Sum(w, b);
    ModMul(a, Pow2(w), Pow2(b));
  }

  /** A field is what is left of the address, cut to its bits. */
  lemma SplitOne(f: seq<nat>, a: nat, i: nat)
    requires i < |f|
    ensures Low(High(a, Width(f, i)), f[i]) == Field(f, a, i)
    ensures High(High(a, Width(f, i)), f[i]) == High(a, Width(f, i + 1))
  {
    HighHigh(a, Width(f, i), f[i]);
  }

  /** A walk can start. */
  ghost predicate Launches(p: Pgt, a: Addr)
    requires p.pf.Wf()
  {
    p.root.space != NoAddr && (p.pf.fmt != Arm ==> SignExtended(p.pf.fieldsz, a))
  }

  /** The check on the top bits is about sign extension. */
  lemma SignBits(pf: Form, a: Addr)
    requires pf.Wf()
    ensures var f, n := pf.fieldsz, |pf.fieldsz|;
            SignExtended(f, a) <==>
            High(a, Width(f, n))
            == if High(Field(f, a, n - 1), f[n - 1] - 1) % 2 == 1 then High(ADDR_SPAN - 1, Width(f, n)) else 0
  {
    var f, n := pf.fieldsz, |pf.fieldsz|;
    var w := Width(f, n);
    TopBit(f, a);
    Pow2Of63();
    Pow2Sum(w, 64 - w);
    assert Pow2(64) == 2 * Pow2(63);
    AllOnes(Pow2(w), Pow2(64 - w));
    DivMod(a, Pow2(w));
    TopPart(Pow2(w), Pow2(64 - w), a / Pow2(w), a % Pow2(w));
    hide Pow2, Field, Width;
  }

  lemma TopPart(s: nat, t: nat, hi: nat, low: nat)
    requires s > 0 && t > 0
    ensures s * hi + low == low + (s * t - s) <==> hi == t - 1
    ensures s * hi + low == low <==> hi == 0
  {
    var d := hi - (t - 1);
    assert s * hi - (s * t - s) == s * d;
    assert d > 0 ==> s * d >= s;
    assert d < 0 ==> s * d + s <= 0;
  }

  lemma AllOnes(s: nat, k: nat)
    requires s > 0 && k > 0
    ensures (s * k - 1) / s == k - 1
  {
    ModUnique(s * k - 1, s, k - 1, s - 1);
  }

  /** The top bit of the top field decides on which half of its range the address is. */
  lemma TopBit(f: seq<nat>, a: nat)
    requires |f| > 0 && f[|f| - 1] > 0
    ensures var n := |f|;
            (High(Field(f, a, n - 1), f[n - 1] - 1) % 2 == 1) <==> (a % Span(f, n) >= Span(f, n) / 2)
  {
    var n := |f|;
    var m, k := Span(f, n - 1), Pow2(f[n - 1] - 1);
    assert Pow2(f[n - 1]) == 2 * k;
    SpanStep(f, n - 1);
    ModMul(a, m, 2 * k);
    var field, rest := Field(f, a, n - 1), a % m;
    assert a % Span(f, n) == m * field + rest;
    DivMod(field, k);
    var q := field / k;
    Halves(m, k, field, rest, q);
  }

  lemma Halves(m: nat, k: nat, field: nat, rest: nat, q: nat)
    requires m > 0 && k > 0 && field < 2 * k && rest < m && q == field / k
    ensures q % 2 == 1 <==> m * field + rest >= m * (2 * k) / 2
  {
    assert m * (2 * k) == 2 * (m * k);
    if field >= k {
      ModUnique(field, k, 1, field - k);
      MulLessEq(k, field, m);
    } else {
      ModUnique(field, k, 0, field);
      Below(m, k, field, rest);
    }
  }

  lemma MulLessEq(a: nat, b: nat, m: nat)
    requires a <= b
    ensures m * a <= m * b
  {
    Distribute(m, a, b - a);
  }

  // ---------------------------------------------------------------------------
  // The machine

  /** `addrxlat_step_t` for a page table method */
  class Machine {
    const p: Pgt
    const mem: Memory
    var base: FullAddr
    var remain: nat
    var elemsz: nat
    const idx: array<Addr>

    function F(): seq<nat> { p.pf.fieldsz }

    ghost predicate Ready() { p.pf.Wf() && idx.Length == |F()| + 1 }

    /** About to look up `a` in the table (or page) at `base`. */
    ghost predicate AtTable(a: Addr, level: nat)
      reads this`remain, this`elemsz, idx
    {
      && Ready() && 0 < level <= |F()| && remain == level
      && elemsz == (if level > 1 then EntrySize(p.pf.fmt) else 1)
      && forall i :: 0 <= i < level ==> idx[i] == Field(F(), a, i)
    }

    /** About to add the offset of `a` into the page at `base`. */
    ghost predicate AtPage(a: Addr, i: nat, extra: nat)
      reads this`remain, this`elemsz, idx
    {
      Ready() && i <= |F()| && remain == 1 && elemsz == 1 && idx[0] == Offset(F(), a, i, extra)
    }

    /** The index fields below `remain` belong to `a`; the one at `remain - 1` has `extra`
        more bits than its field. */
    ghost predicate Overlapping(a: Addr, extra: nat)
      reads this`remain, idx
    {
      && Ready() && 0 < remain <= |F()| && Width(F(), remain) + extra < 64
      && forall i :: 0 <= i < remain ==> idx[i] == IndexAt(F(), a, i, remain, extra)
    }

    /** `pgt_huge_page`: the offset into the page is made of all lower indices. */
    method HugePage(ghost a: Addr, ghost extra: nat)
      requires Overlapping(a, extra)
      modifies this`remain, this`elemsz, idx
      ensures AtPage(a, old(remain), extra)
    {
      var off: Addr := 0;
      ghost var r := remain;
      assert forall i :: 0 <= i < r ==> idx[i] == IndexAt(F(), a, i, r, extra);
      while remain > 1
        invariant 0 < remain <= r && off == Collected(F(), a, remain - 1, r, extra)
        invariant forall i :: 0 <= i < r ==> idx[i] == old(idx[i])
      {
        remain := remain - 1;
        Collect(F(), a, remain, r, extra);
        PartShift(p.pf, a, remain, r, extra);
        hide Or, Part, Field, Pow2, Width;
        off := Shl(Or(off, idx[remain]), F()[remain - 1]);
      }
      elemsz := 1;
      Collect(F(), a, 0, r, extra);
      PartWhole(F(), a, r, extra);
      OffsetBound(p.pf, a, r, extra);
      idx[0] := Or(idx[0], off);
    }

    /** `add_overlap`: the index into the next level gets more bits from the one above. */
    method AddOverlap(bits: nat, ghost a: Addr)
      requires Ready() && 0 < remain < |F()| && bits <= F()[remain]
      requires forall i :: 0 <= i <= remain ==> idx[i] == Field(F(), a, i)
      modifies idx
      ensures Overlapping(a, bits)
    {
      PartOverlap(F(), a, remain - 1, bits);
      WidthGrows(F(), remain + 1, |F()|);
      PartBound(F(), a, remain - 1, remain, bits);
      Pow2Grows(Width(F(), remain) - Width(F(), remain - 1) + bits, 63);
      Pow2Of63();
      idx[remain - 1] := idx[remain - 1] + Shl(Low(idx[remain], bits), F()[remain - 1]);
    }

    /** All indices up to `remain` belong to `a`. */
    ghost predicate Indexed(a: Addr)
      reads this`remain, this`elemsz, idx
    {
      && Ready() && 0 < remain < |F()| && elemsz == EntrySize(p.pf.fmt)
      && forall i :: 0 <= i <= remain ==> idx[i] == Field(F(), a, i)
    }

    /** The machine did what the entry `d` of level `r` said. */
    ghost predicate Followed(d: Decoded, a: Addr, r: nat, status: Status)
      reads this`base, this`remain, this`elemsz, idx
    {
      match d
      case Table(next) => status == Ok && base == FullAddr(next, p.target) && AtTable(a, r)
      case Leaf(page, extra) => status == Ok && base == FullAddr(page, p.target) && AtPage(a, r, extra)
      case Failed(error) => status == error
    }

    /** Go to a page that is larger than the entry's own table could make it. */
    method GoHuge(addr: Addr, ghost a: Addr, ghost extra: nat)
      requires Overlapping(a, extra)
      modifies this`base, this`remain, this`elemsz, idx
      ensures AtPage(a, old(remain), extra) && base == FullAddr(addr, p.target)
    {
      base := FullAddr(addr, p.target);
      HugePage(a, extra);
    }

    lemma NoOverlap(a: Addr)
      requires Indexed(a)
      ensures Overlapping(a, 0)
    {
      WidthGrows(F(), remain, |F()|);
      PartStep(F(), a, remain - 1, remain, 0);
      assert Part(F(), a, remain, remain, 0) == 0;
    }

    /** `pgt_x86_64` */
    method PgtX86(ghost a: Addr) returns (status: Status)
      requires Indexed(a) && p.pf.fmt == X86_64
      modifies this`base, this`remain, this`elemsz, idx
      ensures Followed(Decode(p, mem, old(base), old(remain)), a, old(remain), status)
      ensures status != Ok ==> remain == old(remain)
    {
      var raw := mem.read64(base);
      if raw.Lost? {
        return raw.error;
      }
      var pte := AndNot(raw.value, p.mask);
      if PteVal(pte, 0, 1) == 0 {
        return NotPresent;
      }
      NoOverlap(a);
      var addr := Low(pte, 52);
      if remain == 3 && PteVal(pte, 7, 1) != 0 {
        GoHuge(Clear(addr, 30), a, 0);
      } else if remain == 2 && PteVal(pte, 7, 1) != 0 {
        GoHuge(Clear(addr, 21), a, 0);
      } else {
        base := FullAddr(Clear(addr, 12), p.target);
        if remain == 1 {
          elemsz := 1;
        }
      }
      status := Ok;
    }

    /** `pgt_riscv64` */
    method PgtRiscV(ghost a: Addr) returns (status: Status)
      requires Indexed(a) && p.pf.fmt == RiscV64
      modifies this`base, this`remain, this`elemsz, idx
      ensures Followed(Decode(p, mem, old(base), old(remain)), a, old(remain), status)
      ensures status != Ok ==> remain == old(remain)
    {
      var raw := mem.read64(base);
      if raw.Lost? {
        return raw.error;
      }
      var pte := AndNot(raw.value, p.mask);
      if PteVal(pte, 0, 1) == 0 {
        return NotPresent;
      }
      NoOverlap(a);
      PpnBound(pte);
      var addr := Shl(PteVal(pte, 10, 44), 12);
      if remain > 1 && PteVal(pte, 1, 3) != 0 {
        GoHuge(Clear(addr, Width(F(), remain)), a, 0);
        return Ok;
      }
      if remain == 1 && PteVal(pte, 1, 3) == 0 {
        return Invalid;
      }
      base := FullAddr(Clear(addr, 12), p.target);
      if remain == 1 {
        elemsz := 1;
      }
      status := Ok;
    }

    /** `pgt_arm` */
    method PgtArm(ghost a: Addr) returns (status: Status)
      requires Indexed(a) && p.pf.fmt == Arm
      modifies this`base, this`remain, this`elemsz, idx
      ensures Followed(Decode(p, mem, old(base), old(remain)), a, old(remain), status)
      ensures status != Ok ==> remain == old(remain)
    {
      var raw := mem.read32(base);
      if raw.Lost? {
        return raw.error;
      }
      var pte := AndNot(raw.value, p.mask);
      var kind := PteVal(pte, 0, 2);
      if kind == 0 {
        return NotPresent;
      }
      NoOverlap(a);
      if remain > 1 {
        if kind != 1 {
          if PteVal(pte, 18, 1) != 0 {
            AddOverlap(4, a);
            GoHuge(SupersectionBase(pte), a, 4);
          } else {
            GoHuge(Clear(pte, 20), a, 0);
          }
          return Ok;
        }
        base := FullAddr(Clear(pte, 10), p.target);
      } else {
        if kind == 1 {
          AddOverlap(4, a);
          PartWhole(F(), a, 1, 4);
          base := FullAddr(Clear(pte, 16), p.target);
        } else {
          base := FullAddr(Clear(pte, 12), p.target);
        }
        elemsz := 1;
      }
      status := Ok;
    }

    /** `next_step_pgt` */
    method NextStep(ghost a: Addr) returns (status: Status)
      requires Indexed(a)
      modifies this`base, this`remain, this`elemsz, idx
      ensures Followed(Decode(p, mem, old(base), old(remain)), a, old(remain), status)
      ensures status != Ok ==> remain == old(remain)
    {
      match p.pf.fmt
      case X86_64 => status := PgtX86(a);
      case RiscV64 => status := PgtRiscV(a);
      case Arm => status := PgtArm(a);
    }

    /** One addition away from the final address. */
    ghost predicate OnPage(result: Result)
      reads this`base, this`remain, this`elemsz, idx
    {
      && Ready() && remain == 1 && elemsz == 1
      && result == Success(FullAddr((base.addr + idx[0]) % ADDR_SPAN, p.target))
    }

    /** Further steps will end with `result`, the walk for `a` from the present table. */
    ghost predicate Resolves(a: Addr, result: Result)
      reads this`base, this`remain, this`elemsz, idx
    {
      OnPage(result) || (AtTable(a, remain) && result == Walk(p, mem, base, remain, a))
    }

    lemma TableResolves(a: Addr, from: FullAddr, level: nat, status: Status)
      requires Ready() && 1 < level <= |F()| && Entry(p, mem, from, level - 1, a).Table?
      requires Followed(Entry(p, mem, from, level - 1, a), a, level - 1, status)
      ensures status == Ok && 0 < remain < level && Resolves(a, Walk(p, mem, from, level, a))
    {
      hide Entry, Decode, EntryAt, Field, Width;
    }

    lemma LeafResolves(a: Addr, from: FullAddr, level: nat, status: Status)
      requires Ready() && 1 < level <= |F()| && Entry(p, mem, from, level - 1, a).Leaf?
      requires Followed(Entry(p, mem, from, level - 1, a), a, level - 1, status)
      ensures status == Ok && 0 < remain < level && Resolves(a, Walk(p, mem, from, level, a))
    {
      hide Entry, Decode, EntryAt, Field, Width;
      assert OnPage(Walk(p, mem, from, level, a));
    }

    /** The machine did what the entry `d` said, so the result is still the same. */
    lemma StillResolves(a: Addr, from: FullAddr, level: nat, status: Status)
      requires Ready() && 1 < level <= |F()|
      requires Followed(Entry(p, mem, from, level - 1, a), a, level - 1, status)
      requires status != Ok ==> remain == level - 1
      ensures var result := Walk(p, mem, from, level, a);
              if status == Ok then 0 < remain < level && Resolves(a, result) else result == Failure(status)
    {
      match Entry(p, mem, from, level - 1, a)
      case Table(next) => TableResolves(a, from, level, status);
      case Leaf(page, extra) => LeafResolves(a, from, level, status);
      case Failed(error) => EntryFails(p, mem, from, level - 1, a);
    }

    /** What `addrxlat_step` and `addrxlat_walk` do while there are tables left. */
    method Descend(ghost a: Addr) returns (status: Status)
      requires remain > 1 && AtTable(a, remain)
      modifies this`base, this`remain, this`elemsz, idx
      ensures Followed(Entry(p, mem, old(base), old(remain) - 1, a), a, old(remain) - 1, status)
      ensures var result := Walk(p, mem, old(base), old(remain), a);
              if status == Ok then 0 < remain < old(remain) && Resolves(a, result) else result == Failure(status)
    {
      ghost var from, level := base, remain;
      hide Decode, Walk, Field, Width;
      remain := remain - 1;
      base := base.(addr := (base.addr + idx[remain] * elemsz) % ADDR_SPAN);
      status := NextStep(a);
      StillResolves(a, from, level, status);
    }

    /** `addrxlat_step` */
    method Step(ghost a: Addr, ghost result: Result) returns (status: Status)
      requires remain > 0 ==> Resolves(a, result)
      modifies this`base, this`remain, this`elemsz, idx
      ensures old(remain) == 0 ==> status == Ok && remain == 0 && base == old(base)
      ensures old(remain) > 0 && status == Ok ==> remain < old(remain)
      ensures old(remain) == 1 ==> status == Ok
      ensures old(remain) > 0 && status == Ok ==> if remain > 0 then Resolves(a, result) else result == Success(base)
      ensures old(remain) > 0 && status != Ok ==> result == Failure(status)
      ensures old(remain > 1 && AtTable(a, remain))
          ==> Followed(Entry(p, mem, old(base), old(remain) - 1, a), a, old(remain) - 1, status)
    {
      if remain == 0 {
        return Ok;
      }
      if remain > 1 {
        status := Descend(a);
      } else {
        AtPageMeans(a);
        remain := 0;
        base := FullAddr((base.addr + idx[0] * elemsz) % ADDR_SPAN, p.target);
        elemsz := 0;
        status := Ok;
      }
    }

    lemma AtPageMeans(a: Addr)
      ensures AtTable(a, 1) ==> OnPage(Walk(p, mem, base, 1, a))
    {
      if AtTable(a, 1) {
        PartWhole(F(), a, 1, 0);
        PartStep(F(), a, 0, 1, 0);
        assert Part(F(), a, 1, 1, 0) == 0;
      }
    }

    /** `first_step_pgt_generic` */
    method FirstStepGeneric(addr: Addr) returns (status: Status)
      requires Ready()
      modifies this`base, this`remain, this`elemsz, idx
      ensures status == if p.root.space == NoAddr then NoData else Ok
      ensures status == Ok ==> base == p.root && AtTable(addr, |F()|) && idx[|F()|] == High(addr, Width(F(), |F()|))
    {
      if p.root.space == NoAddr {
        return NoData;
      }
      base := p.root;
      remain := |F()|;
      elemsz := if remain > 1 then EntrySize(p.pf.fmt) else 1;
      SplitFields(addr);
      status := Ok;
    }

    /** Split an address into the indices of its fields. */
    method SplitFields(addr: Addr)
      requires Ready()
      modifies idx
      ensures forall j :: 0 <= j < |F()| ==> idx[j] == Field(F(), addr, j)
      ensures idx[|F()|] == High(addr, Width(F(), |F()|))
    {
      var rest: Addr := addr;
      for i := 0 to |F()|
        invariant rest == High(addr, Width(F(), i))
        invariant forall j :: 0 <= j < i ==> idx[j] == Field(F(), addr, j)
      {
        hide High, Low, Pow2;
        var bits := F()[i];
        SplitOne(F(), addr, i);
        idx[i] := Low(rest, bits);
        rest := High(rest, bits);
      }
      idx[|F()|] := rest;
    }

    /** `step_check_saddr` */
    method CheckSigned(ghost addr: Addr) returns (status: Status)
      requires Ready() && AtTable(addr, |F()|) && idx[|F()|] == High(addr, Width(F(), |F()|))
      ensures status == if SignExtended(F(), addr) then Ok else Invalid
    {
      var n := |F()|;
      var bit := High(idx[n - 1], F()[n - 1] - 1) % 2;
      var signext := if bit == 1 then High(ADDR_SPAN - 1, Width(F(), n)) else 0;
      SignBits(p.pf, addr);
      status := if idx[n] != signext then Invalid else Ok;
    }

    /** `addrxlat_launch` */
    method Launch(addr: Addr) returns (status: Status)
      requires Ready()
      modifies this`base, this`remain, this`elemsz, idx
      ensures status == Ok ==> remain > 0 && Resolves(addr, Translate(p, mem, addr))
      ensures status == Ok ==> AtTable(addr, |F()|) && base == p.root && Launches(p, addr)
      ensures status != Ok ==> Translate(p, mem, addr) == Failure(status) && !Launches(p, addr)
    {
      status := FirstStepGeneric(addr);
      if status == Ok && p.pf.fmt != Arm {
        status := CheckSigned(addr);
      }
    }

    /** `addrxlat_walk`, started from address `addr` */
    method DoWalk(addr: Addr) returns (status: Status)
      requires Ready()
      modifies this`base, this`remain, this`elemsz, idx
      ensures Translate(p, mem, addr) == if status == Ok then Success(base) else Failure(status)
      ensures status == Ok ==> remain == 0
    {
      hide Translate, Walk, Width, Field, Entry, Followed, Launches;
      status := Launch(addr);
      if status != Ok {
        return;
      }
      ghost var result := Translate(p, mem, addr);
      while remain > 1
        invariant status == Ok && remain > 0 && Resolves(addr, result)
        decreases remain
      {
        status := Descend(addr);
        if status != Ok {
          return;
        }
      }
      AtPageMeans(addr);
      remain := 0;
      base := FullAddr((base.addr + idx[0] * elemsz) % ADDR_SPAN, p.target);
      elemsz := 0;
    }

    /** Launching and then stepping until nothing remains gives the same as a walk. */
    method LaunchAndStep(addr: Addr) returns (status: Status)
      requires Ready()
      modifies this`base, this`remain, this`elemsz, idx
      ensures Translate(p, mem, addr) == if status == Ok then Success(base) else Failure(status)
      ensures status == Ok ==> remain == 0
    {
      status := Launch(addr);
      ghost var result := Translate(p, mem, addr);
      while status == Ok && remain > 0
        invariant status == Ok && remain > 0 ==> Resolves(addr, result)
        invariant status == Ok && remain == 0 ==> result == Success(base)
        invariant status != Ok ==> result == Failure(status)
        decreases status == Ok, remain
      {
        status := Step(addr, result);
      }
    }
  }
}
