/** What page tables mean, entry by entry, in terms of the numbers that a system would put into
    its tables: section 4.5 of the Intel SDM, volume 3A; section 4.4 of the RISC-V privileged
    architecture, version 1.12; section B3.5 of the ARMv7-A architecture reference manual. */
module PageEntries {
  import opened Bits
  import opened PageTable

  // ---------------------------------------------------------------------------
  // Bits of a number

  /** Only the bits up to the last one matter for a part of an entry. */
  lemma PteValRest(e: nat, s: nat, b: nat)
    ensures PteVal(e, s, b) == (e % Pow2(s + b)) / Pow2(s)
  {
    Pow2Sum(s, b);
    ModMul(e, Pow2(s), Pow2(b));
    ModUnique(e % Pow2(s + b), Pow2(s), (e / Pow2(s)) % Pow2(b), e % Pow2(s));
  }

  /** Higher bits do not matter. */
  lemma LowerPart(q: nat, k: nat, low: nat, s: nat, b: nat)
    requires s + b <= k
    ensures PteVal(Pow2(k) * q + low, s, b) == PteVal(low, s, b)
  {
    hide Pow2, PteVal;
    var m, n := Pow2(s + b), Pow2(k - s - b);
    Pow2Sum(s + b, k - s - b);
    PteValRest(Pow2(k) * q + low, s, b);
    PteValRest(low, s, b);
    Associate(m, n, q);
    AddMultiple(n * q, m, low);
  }

  lemma AddMultiple(q: nat, m: nat, low: nat)
    requires m > 0
    ensures (m * q + low) % m == low % m && (m * q + low) / m == q + low / m
  {
    DivMod(low, m);
    Distribute(m, q, low / m);
    ModUnique(m * q + low, m, q + low / m, low % m);
  }

  /** Nor do lower ones. */
  lemma UpperPart(q: nat, low: nat, s: nat, b: nat)
    requires low < Pow2(s) && q < Pow2(b)
    ensures PteVal(Pow2(s) * q + low, s, b) == q
  {
    hide Pow2;
    ModUnique(Pow2(s) * q + low, Pow2(s), q, low);
    ModUnique(q, Pow2(b), 0, q);
  }

  lemma ClearLow(q: nat, low: nat, k: nat)
    requires low < Pow2(k)
    ensures Clear(Pow2(k) * q + low, k) == Pow2(k) * q
  {
    ModUnique(Pow2(k) * q + low, Pow2(k), q, low);
  }

  lemma SmallPowers()
    ensures Pow2(0) == 1 && Pow2(1) == 2 && Pow2(2) == 4 && Pow2(3) == 8 && Pow2(4) == 16 && Pow2(5) == 32
    ensures Pow2(7) == 128 && Pow2(8) == 256 && Pow2(9) == 512 && Pow2(10) == 1024 && Pow2(12) == 4096
  {
  }

  lemma LargePowers()
    ensures Pow2(16) == 0x1_0000 && Pow2(18) == 0x4_0000 && Pow2(20) == 0x10_0000 && Pow2(21) == 0x20_0000
    ensures Pow2(24) == 0x100_0000 && Pow2(30) == 0x4000_0000 && Pow2(32) == 0x1_0000_0000
    ensures Pow2(36) == 0x10_0000_0000 && Pow2(39) == 0x80_0000_0000 && Pow2(48) == 0x1_0000_0000_0000
    ensures Pow2(52) == 0x10_0000_0000_0000 && Pow2(54) == 0x40_0000_0000_0000
  {
    hide Pow2;
    SmallPowers();
    Pow2Sum(8, 8); Pow2Sum(9, 9); Pow2Sum(10, 10); Pow2Sum(12, 9); Pow2Sum(12, 12); Pow2Sum(21, 9);
    Pow2Sum(16, 16); Pow2Sum(24, 12); Pow2Sum(30, 9); Pow2Sum(24, 24); Pow2Sum(48, 2); Pow2Sum(50, 2); Pow2Sum(52, 2);
  }

  // ---------------------------------------------------------------------------
  // Entries in memory

  /** The place of entry number `i` of a table. */
  function Place(table: FullAddr, i: nat, size: nat): FullAddr {
    table.(addr := (table.addr + i * size) % ADDR_SPAN)
  }

  /** The memory has a 64-bit entry there, without the bits that are masked. */
  ghost predicate Has64(p: Pgt, mem: Memory, at: FullAddr, e: nat) {
    mem.read64(at).Got? && AndNot(mem.read64(at).value, p.mask) == e
  }

  ghost predicate Has32(p: Pgt, mem: Memory, at: FullAddr, e: nat) {
    mem.read32(at).Got? && AndNot(mem.read32(at).value, p.mask) == e
  }

  // ---------------------------------------------------------------------------
  // x86_64

  /** An entry with `base` in bits up to 51, `high` bits above and `flags` below. */
  function X86(high: nat, base: nat, flags: nat): nat { 0x10_0000_0000_0000 * high + base + flags }

  lemma X86Parts(high: nat, q: nat, flags: nat, k: nat) returns (rest: nat)
    requires 12 <= k <= 52 && Pow2(k) * q < Pow2(52) && flags < Pow2(k)
    ensures X86(high, Pow2(k) * q, flags) == Pow2(k) * rest + flags
    ensures Pow2(k) * q + flags < Pow2(52)
    ensures Low(X86(high, Pow2(k) * q, flags), 52) == Pow2(k) * q + flags
  {
    hide Pow2;
    LargePowers();
    var n := Pow2(52 - k);
    Pow2Sum(k, 52 - k);
    rest := n * high + q;
    Associate(Pow2(k), n, high);
    Distribute(Pow2(k), n * high, q);
    if q >= n { Distribute(Pow2(k), n, q - n); }
    Below(Pow2(k), n, q, flags);
    ModUnique(X86(high, Pow2(k) * q, flags), Pow2(52), high, Pow2(k) * q + flags);
  }

  /** The flags of an entry: bit 0 says that it is present, bit 7 that it is a large page. */
  lemma X86Flags(rest: nat, k: nat, flags: nat)
    requires 12 <= k
    ensures PteVal(Pow2(k) * rest + flags, 0, 1) == flags % 2
    ensures PteVal(Pow2(k) * rest + flags, 7, 1) == (flags / 128) % 2
  {
    SmallPowers();
    LowerPart(rest, k, flags, 0, 1);
    LowerPart(rest, k, flags, 7, 1);
    assert flags / 1 == flags;
  }

  lemma X86Decoded(r: nat, high: nat, base: nat, flags: nat, k: nat)
    requires k == 12 || (k == 21 && r == 2) || (k == 30 && r == 3)
    requires base % Pow2(k) == 0 && base < Pow2(52) && flags < Pow2(k) && flags % 2 == 1
    requires r == 2 || r == 3 ==> ((flags / 128) % 2 == 1 <==> k > 12)
    requires X86(high, base, flags) < ADDR_SPAN && base < ADDR_SPAN
    ensures DecodeX86(r, X86(high, base, flags)) == if k == 12 then Table(base) else Leaf(base, 0)
  {
    hide Pow2, PteVal, X86, Low, Clear;
    var q := base / Pow2(k);
    DivMod(base, Pow2(k));
    var rest := X86Parts(high, q, flags, k);
    X86Flags(rest, k, flags);
    ClearLow(q, flags, k);
  }

  lemma EntryRead64(p: Pgt, mem: Memory, table: FullAddr, r: nat, a: Addr, e: nat)
    requires p.pf.fmt != Arm && r < |p.pf.fieldsz| && Has64(p, mem, Place(table, Index(p, r, a), 8), e)
    ensures e < ADDR_SPAN
    ensures Entry(p, mem, table, r, a)
         == if p.pf.fmt == X86_64 then DecodeX86(r, e) else DecodeRiscV(p.pf.fieldsz, r, e)
  {
    hide AndNot, Pow2, Span, DecodeX86, DecodeRiscV;
  }

  /** The part of `a` that is the index into a table at level `r`. */
  function Index(p: Pgt, r: nat, a: Addr): nat
    requires r < |p.pf.fieldsz|
  {
    (a / Span(p.pf.fieldsz, r)) % Pow2(p.pf.fieldsz[r])
  }

  /** What an entry means for a walk. */
  lemma WalkStep(p: Pgt, mem: Memory, table: FullAddr, r: nat, a: Addr)
    requires 0 < r < |p.pf.fieldsz|
    ensures Walk(p, mem, table, r + 1, a) ==
            match Entry(p, mem, table, r, a)
            case Table(next) => Walk(p, mem, FullAddr(next, p.target), r, a)
            case Leaf(page, extra) =>
              Success(FullAddr((page + a % Pow2(Width(p.pf.fieldsz, r) + extra)) % ADDR_SPAN, p.target))
            case Failed(status) => Failure(status)
  {
    hide Entry, Pow2;
  }

  lemma LastStep(p: Pgt, mem: Memory, page: FullAddr, a: Addr)
    requires |p.pf.fieldsz| > 0
    ensures Walk(p, mem, page, 1, a) == Success(FullAddr((page.addr + a % Span(p.pf.fieldsz, 1)) % ADDR_SPAN, p.target))
  {
    hide Pow2;
  }

  /** An entry that is not present. */
  lemma X86Absent(p: Pgt, mem: Memory, table: FullAddr, r: nat, a: Addr, e: nat)
    requires p.pf.fmt == X86_64 && 0 < r < |p.pf.fieldsz| && e % 2 == 0
    requires Has64(p, mem, Place(table, Index(p, r, a), 8), e)
    ensures Walk(p, mem, table, r + 1, a) == Failure(NotPresent)
  {
    hide PteVal, Pow2, Entry, Walk, Has64, Index;
    X86Flags(0, 12, e);
    EntryRead64(p, mem, table, r, a, e);
    WalkStep(p, mem, table, r, a);
  }

  /** An entry: `base` in bits up to 51, `high` bits above and `flags` below. */
  datatype X86Entry = X86Entry(high: nat, base: Addr, flags: nat) {
    function Value(): nat { X86(high, base, flags) }

    predicate Present(size: nat)
      requires size > 0
    {
      base % size == 0 && base < 0x10_0000_0000_0000 && flags < size && flags % 2 == 1
    }

    predicate Large() { (flags / 128) % 2 == 1 }
  }

  /** An entry that leads to a table, or to a page for the last index. */
  lemma X86Table(p: Pgt, mem: Memory, table: FullAddr, r: nat, a: Addr, e: X86Entry)
    requires p.pf.fmt == X86_64 && 0 < r < |p.pf.fieldsz|
    requires e.Present(4096) && (r == 2 || r == 3 ==> !e.Large())
    requires Has64(p, mem, Place(table, Index(p, r, a), 8), e.Value())
    ensures Walk(p, mem, table, r + 1, a) == Walk(p, mem, FullAddr(e.base, p.target), r, a)
  {
    hide Pow2, Entry, Walk, X86, Has64, Index;
    SmallPowers();
    LargePowers();
    EntryRead64(p, mem, table, r, a, e.Value());
    X86Decoded(r, e.high, e.base, e.flags, 12);
    WalkStep(p, mem, table, r, a);
  }

  /** The size of a large page. */
  function LargeSize(r: nat): nat { if r == 2 then 0x20_0000 else 0x4000_0000 }

  /** An entry that maps a large page: 2 MiB at level 2, 1 GiB at level 3. */
  lemma X86Page(p: Pgt, mem: Memory, table: FullAddr, r: nat, a: Addr, e: X86Entry)
    requires p.pf.fmt == X86_64 && (r == 2 || r == 3) && r < |p.pf.fieldsz|
    requires e.Present(LargeSize(r)) && e.Large()
    requires Has64(p, mem, Place(table, Index(p, r, a), 8), e.Value())
    ensures Walk(p, mem, table, r + 1, a)
         == Success(FullAddr((e.base + a % Span(p.pf.fieldsz, r)) % ADDR_SPAN, p.target))
  {
    hide Pow2, Entry, Walk, X86, Has64, Index;
    LargePowers();
    EntryRead64(p, mem, table, r, a, e.Value());
    X86Decoded(r, e.high, e.base, e.flags, if r == 2 then 21 else 30);
    WalkStep(p, mem, table, r, a);
  }

  /** Four levels of tables, of 512 entries each, and pages of 4 KiB. */
  predicate FourLevels(p: Pgt) { p.pf == Form(X86_64, [12, 9, 9, 9, 9]) && p.root.space != NoAddr }

  lemma FourSpans()
    ensures Form(X86_64, [12, 9, 9, 9, 9]).Wf()
    ensures Span([12, 9, 9, 9, 9], 1) == 0x1000 && Span([12, 9, 9, 9, 9], 2) == 0x20_0000
    ensures Span([12, 9, 9, 9, 9], 3) == 0x4000_0000 && Span([12, 9, 9, 9, 9], 4) == 0x80_0000_0000
    ensures Span([12, 9, 9, 9, 9], 5) == 0x1_0000_0000_0000
  {
    var f := [12, 9, 9, 9, 9];
    assert Width(f, 1) == 12 && Width(f, 2) == 21 && Width(f, 3) == 30 && Width(f, 4) == 39 && Width(f, 5) == 48;
    hide Width;
    SmallPowers();
    LargePowers();
  }

  /** The memory has entry `e` for `a` in the table at `table`, one entry for each `size` addresses. */
  ghost predicate EntryFor(p: Pgt, mem: Memory, table: FullAddr, size: nat, a: Addr, e: X86Entry)
    requires size > 0
  {
    Has64(p, mem, Place(table, (a / size) % 512, 8), e.Value())
  }

  /** The indices for four levels. */
  lemma FourIndices(p: Pgt, a: Addr)
    requires FourLevels(p)
    ensures Index(p, 1, a) == (a / 0x1000) % 512 && Index(p, 2, a) == (a / 0x20_0000) % 512
    ensures Index(p, 3, a) == (a / 0x4000_0000) % 512 && Index(p, 4, a) == (a / 0x80_0000_0000) % 512
  {
    FourSpans();
    SmallPowers();
    hide Span, Pow2;
  }

  /** A small page, from the last table on. */
  lemma X86Small(p: Pgt, mem: Memory, table: FullAddr, a: Addr, e1: X86Entry)
    requires FourLevels(p) && e1.Present(4096) && EntryFor(p, mem, table, 0x1000, a, e1)
    ensures Walk(p, mem, table, 2, a) == Success(FullAddr(e1.base + a % 0x1000, p.target))
  {
    hide Walk, Span, Has64, Index, X86Entry.Value;
    FourSpans();
    FourIndices(p, a);
    X86Table(p, mem, table, 1, a, e1);
    LastStep(p, mem, FullAddr(e1.base, p.target), a);
  }

  /** A page of 2 MiB or a small one. */
  lemma X86Middle(p: Pgt, mem: Memory, table: FullAddr, a: Addr, e2: X86Entry, e1: X86Entry)
    requires FourLevels(p) && EntryFor(p, mem, table, 0x20_0000, a, e2)
    requires if e2.Large() then e2.Present(0x20_0000)
             else e2.Present(4096) && EntryFor(p, mem, FullAddr(e2.base, p.target), 0x1000, a, e1) && e1.Present(4096)
    ensures Walk(p, mem, table, 3, a)
         == Success(FullAddr(if e2.Large() then e2.base + a % 0x20_0000 else e1.base + a % 0x1000, p.target))
  {
    hide Walk, Span, Has64, Index, X86Entry.Value, X86Entry.Large;
    FourSpans();
    FourIndices(p, a);
    if e2.Large() {
      X86Page(p, mem, table, 2, a, e2);
    } else {
      X86Table(p, mem, table, 2, a, e2);
      X86Small(p, mem, FullAddr(e2.base, p.target), a, e1);
    }
  }

  /** The entries that map `a` from a table of level 3 on. */
  ghost predicate MappedBy(p: Pgt, mem: Memory, table: FullAddr, a: Addr, e3: X86Entry, e2: X86Entry, e1: X86Entry) {
    && EntryFor(p, mem, table, 0x4000_0000, a, e3)
    && if e3.Large() then e3.Present(0x4000_0000)
       else
         && e3.Present(4096) && EntryFor(p, mem, FullAddr(e3.base, p.target), 0x20_0000, a, e2)
         && if e2.Large() then e2.Present(0x20_0000)
            else e2.Present(4096) && EntryFor(p, mem, FullAddr(e2.base, p.target), 0x1000, a, e1) && e1.Present(4096)
  }

  /** A canonical address goes through up to four entries: to a page of 1 GiB, of 2 MiB or of 4 KiB. */
  lemma X86FourLevels(p: Pgt, mem: Memory, a: Addr, e4: X86Entry, e3: X86Entry, e2: X86Entry, e1: X86Entry)
    requires FourLevels(p) && (a < 0x8000_0000_0000 || a >= 0xffff_8000_0000_0000)
    requires e4.Present(4096) && EntryFor(p, mem, p.root, 0x80_0000_0000, a, e4)
    requires MappedBy(p, mem, FullAddr(e4.base, p.target), a, e3, e2, e1)
    ensures p.pf.Wf()
    ensures Translate(p, mem, a) == Success(FullAddr(
              if e3.Large() then e3.base + a % 0x4000_0000
              else if e2.Large() then e2.base + a % 0x20_0000
              else e1.base + a % 0x1000, p.target))
  {
    hide Walk, Span, Has64, Index, X86Entry.Value, X86Entry.Large, SignExtended;
    FourSpans();
    FourIndices(p, a);
    Canonical(a);
    var t4 := FullAddr(e4.base, p.target);
    X86Table(p, mem, p.root, 4, a, e4);
    if e3.Large() {
      X86Page(p, mem, t4, 3, a, e3);
    } else {
      X86Table(p, mem, t4, 3, a, e3);
      X86Middle(p, mem, FullAddr(e3.base, p.target), a, e2, e1);
    }
  }

  lemma Canonical(a: Addr)
    requires a < 0x8000_0000_0000 || a >= 0xffff_8000_0000_0000
    ensures SignExtended([12, 9, 9, 9, 9], a)
  {
    FourSpans();
    hide Span;
  }

  // ---------------------------------------------------------------------------
  // riscv64

  /** An entry: a page number in bits 10 to 53, `high` bits above and ten flags below, the first
      one for presence and three more for what may be done with the page. */
  datatype RiscVEntry = RiscVEntry(high: nat, ppn: nat, flags: nat) {
    function Value(): nat { 0x40_0000_0000_0000 * high + 1024 * ppn + flags }

    predicate Wf() { ppn < 0x1000_0000_0000 && flags < 1024 }

    predicate Present() { flags % 2 == 1 }

    predicate Usable() { (flags / 2) % 8 != 0 }
  }

  lemma RiscVParts(e: RiscVEntry)
    requires e.Wf()
    ensures PteVal(e.Value(), 10, 44) == e.ppn
    ensures PteVal(e.Value(), 0, 1) == e.flags % 2 && PteVal(e.Value(), 1, 3) == (e.flags / 2) % 8
  {
    hide Pow2, PteVal;
    SmallPowers();
    LargePowers();
    Pow2Sum(32, 12);
    var n := 0x1000_0000_0000;
    assert e.Value() == 0x40_0000_0000_0000 * e.high + (1024 * e.ppn + e.flags);
    assert e.Value() == 1024 * (n * e.high + e.ppn) + e.flags;
    LowerPart(e.high, 54, 1024 * e.ppn + e.flags, 10, 44);
    UpperPart(e.ppn, e.flags, 10, 44);
    LowerPart(n * e.high + e.ppn, 10, e.flags, 0, 1);
    LowerPart(n * e.high + e.ppn, 10, e.flags, 1, 3);
    PteValIs(e.flags);
  }

  lemma PteValIs(x: nat)
    ensures PteVal(x, 0, 1) == x % 2 && PteVal(x, 1, 3) == (x / 2) % 8 && PteVal(x, 0, 2) == x % 4
  {
    SmallPowers();
    assert x / 1 == x;
  }

  lemma RiscVDecoded(f: seq<nat>, r: nat, e: RiscVEntry)
    requires e.Wf() && 0 < r < |f| && e.Value() < ADDR_SPAN
    ensures var page: Addr := 4096 * e.ppn;
            DecodeRiscV(f, r, e.Value()) ==
              if !e.Present() then Failed(NotPresent)
              else if !e.Usable() then (if r == 1 then Failed(Invalid) else Table(page))
              else if r == 1 then Table(page)
              else Leaf(page - page % Span(f, r), 0)
  {
    RiscVParts(e);
    hide PteVal, RiscVEntry.Value;
    assert Pow2(12) == 4096;
    hide Pow2;
    ClearLow(e.ppn, 0, 12);
  }

  /** What an entry means: a table at its page number, a page, or a superpage of as many addresses as
      the entry spans. */
  lemma RiscVWalk(p: Pgt, mem: Memory, table: FullAddr, r: nat, a: Addr, e: RiscVEntry)
    requires p.pf.fmt == RiscV64 && 0 < r < |p.pf.fieldsz| && e.Wf()
    requires Has64(p, mem, Place(table, Index(p, r, a), 8), e.Value())
    ensures var page: Addr, span := 4096 * e.ppn, Span(p.pf.fieldsz, r);
            Walk(p, mem, table, r + 1, a) ==
              if !e.Present() then Failure(NotPresent)
              else if !e.Usable() then
                if r == 1 then Failure(Invalid) else Walk(p, mem, FullAddr(page, p.target), r, a)
              else if r == 1 then Success(FullAddr((page + a % span) % ADDR_SPAN, p.target))
              else Success(FullAddr((page - page % span + a % span) % ADDR_SPAN, p.target))
  {
    hide Pow2, Entry, Walk, Has64, Index, RiscVEntry.Value, DecodeRiscV;
    EntryRead64(p, mem, table, r, a, e.Value());
    RiscVDecoded(p.pf.fieldsz, r, e);
    WalkStep(p, mem, table, r, a);
    LastStep(p, mem, FullAddr(4096 * e.ppn, p.target), a);
  }

  // ---------------------------------------------------------------------------
  // 32-bit Arm

  /** What a system puts into short descriptors; `rest` are the bits that do not matter here. */
  datatype ArmEntry =
    | Coarse(base: nat, rest: nat)
    | Section(base: nat, rest: nat)
    | Supersection(base: nat, from32: nat, from36: nat, middle: nat, rest: nat)
    | LargePage(base: nat, rest: nat)
    | SmallPage(base: nat, rest: nat)
  {
    predicate Wf() {
      match this
      case Coarse(base, rest) => base < 0x40_0000 && rest < 1024 && rest % 4 == 1
      case Section(base, rest) => base < 4096 && rest < 0x10_0000 && rest % 4 >= 2 && (rest / 0x4_0000) % 2 == 0
      case Supersection(base, from32, from36, middle, rest) =>
        && base < 256 && from32 < 16 && from36 < 16 && middle < 2048 && (middle / 512) % 2 == 1
        && rest < 32 && rest % 4 >= 2
      case LargePage(base, rest) => base < 0x1_0000 && rest < 0x1_0000 && rest % 4 == 1
      case SmallPage(base, rest) => base < 0x10_0000 && rest < 4096 && rest % 4 >= 2
    }

    /** The level of the tables that such an entry may be in. */
    predicate At(r: nat) { if Coarse? || Section? || Supersection? then r > 1 else r == 1 }

    function Value(): nat {
      match this
      case Coarse(base, rest) => 1024 * base + rest
      case Section(base, rest) => 0x10_0000 * base + rest
      case Supersection(base, from32, from36, middle, rest) =>
        0x100_0000 * base + 0x10_0000 * from32 + 512 * middle + 32 * from36 + rest
      case LargePage(base, rest) => 0x1_0000 * base + rest
      case SmallPage(base, rest) => 4096 * base + rest
    }

    /** Where the table or the page is. */
    function Target(): nat {
      match this
      case Coarse(base, _) => 1024 * base
      case Section(base, _) => 0x10_0000 * base
      case Supersection(base, from32, from36, _, _) =>
        0x100_0000 * base + 0x1_0000_0000 * from32 + 0x10_0000_0000 * from36
      case LargePage(base, _) => 0x1_0000 * base
      case SmallPage(base, _) => 4096 * base
    }
  }

  lemma ArmKind(q: nat, k: nat, rest: nat)
    requires 2 <= k
    ensures PteVal(Pow2(k) * q + rest, 0, 2) == rest % 4
  {
    LowerPart(q, k, rest, 0, 2);
    PteValIs(rest);
  }

  lemma EntryRead32(p: Pgt, mem: Memory, table: FullAddr, r: nat, a: Addr, e: nat)
    requires p.pf.fmt == Arm && r < |p.pf.fieldsz| && Has32(p, mem, Place(table, Index(p, r, a), 4), e)
    ensures e < 0x1_0000_0000 && Entry(p, mem, table, r, a) == DecodeArm(r, e)
  {
    hide AndNot, Pow2, Span, DecodeArm;
  }

  lemma ArmSimple(r: nat, e: ArmEntry)
    requires e.Wf() && e.At(r) && !e.Supersection? && e.Value() < 0x1_0000_0000
    ensures e.Target() < ADDR_SPAN
    ensures DecodeArm(r, e.Value()) ==
            match e
            case Coarse(_, _) => Table(e.Target())
            case Section(_, _) => Leaf(e.Target(), 0)
            case LargePage(_, _) => Leaf(e.Target(), 4)
            case SmallPage(_, _) => Table(e.Target())
  {
    SmallPowers();
    LargePowers();
    hide Pow2, PteVal, Clear, SupersectionBase;
    var k := if e.Coarse? then 10 else if e.Section? then 20 else if e.LargePage? then 16 else 12;
    ArmKind(e.base, k, e.rest);
    ClearLow(e.base, e.rest, k);
    if e.Section? { SectionBit(e.base, e.rest); }
  }

  lemma SectionBit(base: nat, rest: nat)
    requires rest < 0x10_0000
    ensures PteVal(0x10_0000 * base + rest, 18, 1) == (rest / 0x4_0000) % 2
  {
    SmallPowers();
    LargePowers();
    hide Pow2;
    LowerPart(base, 20, rest, 18, 1);
  }

  lemma SuperParts(e: ArmEntry)
    requires e.Wf() && e.Supersection? && e.Value() < 0x1_0000_0000
    ensures PteVal(e.Value(), 0, 2) >= 2 && PteVal(e.Value(), 18, 1) == 1
    ensures Clear(e.Value(), 24) == 0x100_0000 * e.base
    ensures PteVal(e.Value(), 20, 4) == e.from32 && PteVal(e.Value(), 5, 4) == e.from36
  {
    SmallPowers();
    LargePowers();
    hide Pow2, PteVal, Clear;
    var low := 512 * e.middle + 32 * e.from36 + e.rest;
    var q := 16 * e.base + e.from32;
    assert low < 0x10_0000 && e.Value() == 0x10_0000 * q + low;
    ArmKind(q, 20, low);
    SectionBit(q, low);
    assert low / 0x4_0000 == e.middle / 512;
    SuperAddress(e.base, e.from32, low);
    MiddleBits(32768 * e.base + 2048 * e.from32 + e.middle, e.from36, e.rest);
  }

  lemma SuperAddress(base: nat, from32: nat, low: nat)
    requires from32 < 16 && low < 0x10_0000
    ensures Clear(0x100_0000 * base + 0x10_0000 * from32 + low, 24) == 0x100_0000 * base
    ensures PteVal(0x100_0000 * base + 0x10_0000 * from32 + low, 20, 4) == from32
  {
    SmallPowers();
    LargePowers();
    hide Pow2, PteVal, Clear;
    ClearLow(base, 0x10_0000 * from32 + low, 24);
    LowerPart(base, 24, 0x10_0000 * from32 + low, 20, 4);
    UpperPart(from32, low, 20, 4);
  }

  lemma MiddleBits(q: nat, from36: nat, rest: nat)
    requires from36 < 16 && rest < 32
    ensures PteVal(512 * q + 32 * from36 + rest, 5, 4) == from36
  {
    SmallPowers();
    hide Pow2, PteVal;
    LowerPart(q, 9, 32 * from36 + rest, 5, 4);
    UpperPart(from36, rest, 5, 4);
  }

  lemma ArmSuper(r: nat, e: ArmEntry)
    requires e.Wf() && e.Supersection? && r > 1 && e.Value() < 0x1_0000_0000
    ensures e.Target() < ADDR_SPAN && DecodeArm(r, e.Value()) == Leaf(e.Target(), 4)
  {
    SuperParts(e);
    LargePowers();
    hide Pow2, PteVal, Clear, ArmEntry.Value, ArmEntry.Wf;
  }

  /** What a short descriptor means: a coarse table, a section, a supersection of 16 times as many
      addresses, a large page of 16 small ones, or a small page. */
  lemma ArmWalk(p: Pgt, mem: Memory, table: FullAddr, r: nat, a: Addr, e: ArmEntry)
    requires p.pf.fmt == Arm && 0 < r < |p.pf.fieldsz| && e.Wf() && e.At(r)
    requires Has32(p, mem, Place(table, Index(p, r, a), 4), e.Value())
    ensures e.Target() < ADDR_SPAN
    ensures var span := Span(p.pf.fieldsz, r);
            Walk(p, mem, table, r + 1, a) ==
              match e
              case Coarse(_, _) => Walk(p, mem, FullAddr(e.Target(), p.target), r, a)
              case Section(_, _) => Success(FullAddr((e.Target() + a % span) % ADDR_SPAN, p.target))
              case Supersection(_, _, _, _, _) =>
                Success(FullAddr((e.Target() + a % (16 * span)) % ADDR_SPAN, p.target))
              case LargePage(_, _) => Success(FullAddr((e.Target() + a % (16 * span)) % ADDR_SPAN, p.target))
              case SmallPage(_, _) => Success(FullAddr((e.Target() + a % span) % ADDR_SPAN, p.target))
  {
    hide Pow2, Entry, Walk, Has32, Index, DecodeArm, ArmEntry.Value, ArmEntry.Target, ArmEntry.Wf;
    EntryRead32(p, mem, table, r, a, e.Value());
    if e.Supersection? { ArmSuper(r, e); } else { ArmSimple(r, e); }
    WalkStep(p, mem, table, r, a);
    LastStep(p, mem, FullAddr(e.Target(), p.target), a);
    SmallPowers();
    Pow2Sum(Width(p.pf.fieldsz, r), 4);
  }

  /** A descriptor that is not present. */
  lemma ArmAbsent(p: Pgt, mem: Memory, table: FullAddr, r: nat, a: Addr, e: nat)
    requires p.pf.fmt == Arm && 0 < r < |p.pf.fieldsz| && e % 4 == 0
    requires Has32(p, mem, Place(table, Index(p, r, a), 4), e)
    ensures Walk(p, mem, table, r + 1, a) == Failure(NotPresent)
  {
    hide Pow2, Entry, Walk, Has32, Index, PteVal;
    EntryRead32(p, mem, table, r, a, e);
    PteValIs(e);
    WalkStep(p, mem, table, r, a);
  }
}
