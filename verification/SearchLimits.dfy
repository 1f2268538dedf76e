/** How far the limit of a search may reach (`src/addrxlat/step.c`).  The searches go through one
    root table; here is exactly which limits they are right for. */
module SearchLimits {
  import opened Bits
  import opened PageTable
  import opened Search
  import opened Steps

  /** With any memory, whatever a search upwards answers is right up to the limit. */
  ghost predicate RightUp(present: bool, p: Pgt, low: Addr, limit: Addr)
    requires p.pf.Wf()
  {
    forall mem: Memory, status: Status, addr: Addr ::
      Upwards(present, p, mem, p.root, |p.pf.fieldsz|, low, limit, status, addr)
      ==> Lowest(present, p, mem, low, limit, status, addr)
  }

  ghost predicate RightDown(p: Pgt, high: Addr, limit: Addr)
    requires p.pf.Wf()
  {
    forall mem: Memory, status: Status, addr: Addr ::
      Downwards(p, mem, p.root, |p.pf.fieldsz|, high, limit, status, addr)
      ==> Highest(p, mem, high, limit, status, addr)
  }

  /** With `mem`, a search upwards reports that there is nothing, and that is wrong. */
  ghost predicate WrongUp(present: bool, p: Pgt, mem: Memory, low: Addr, limit: Addr)
    requires p.pf.Wf()
  {
    && (exists addr: Addr :: Upwards(present, p, mem, p.root, |p.pf.fieldsz|, low, limit, NotPresent, addr))
    && forall status: Status, addr: Addr ::
         Upwards(present, p, mem, p.root, |p.pf.fieldsz|, low, limit, status, addr)
         ==> status == NotPresent && !Lowest(present, p, mem, low, limit, status, addr)
  }

  ghost predicate WrongDown(p: Pgt, mem: Memory, high: Addr, limit: Addr)
    requires p.pf.Wf()
  {
    && (exists addr: Addr :: Downwards(p, mem, p.root, |p.pf.fieldsz|, high, limit, NotPresent, addr))
    && forall status: Status, addr: Addr ::
         Downwards(p, mem, p.root, |p.pf.fieldsz|, high, limit, status, addr)
         ==> status == NotPresent && !Highest(p, mem, high, limit, status, addr)
  }

  // ---------------------------------------------------------------------------
  // Searches that meet nothing

  /** If the block has only the wrong kind of addresses, but there is another one up to the limit,
      then the search reports wrongly that there is none. */
  /** A search that meets only the other kind of addresses reports that there is none; that is
      wrong if not all addresses up to the limit are of the other kind. */
  lemma MissedUp(present: bool, p: Pgt, mem: Memory, low: Addr, limit: Addr, missed: Addr)
    requires p.pf.Wf() && low <= missed <= limit && !Maps(!present, p, mem, missed)
    requires All(!present, p, mem, p.root, |p.pf.fieldsz|, low, Min(limit + 1, End(p.pf.fieldsz, low, |p.pf.fieldsz|)))
    ensures WrongUp(present, p, mem, low, limit)
  {
    var f, n := p.pf.fieldsz, |p.pf.fieldsz|;
    EndFits(p.pf, low, n);
    hide Walk, Start, Span, Translate;
    assert Upwards(present, p, mem, p.root, n, low, limit, NotPresent, Wrap(End(f, low, n)));
    forall status: Status, addr: Addr | Upwards(present, p, mem, p.root, n, low, limit, status, addr)
      ensures status == NotPresent && !Lowest(present, p, mem, low, limit, status, addr)
    {
      assert status != NotPresent ==> Is(!present, p, mem, p.root, n, addr);
    }
  }

  lemma MissedDown(p: Pgt, mem: Memory, high: Addr, limit: Addr, missed: Addr)
    requires p.pf.Wf() && limit <= missed <= high && !Maps(false, p, mem, missed)
    requires All(false, p, mem, p.root, |p.pf.fieldsz|, Max(limit, Start(p.pf.fieldsz, high, |p.pf.fieldsz|)), high + 1)
    ensures WrongDown(p, mem, high, limit)
  {
    var f, n := p.pf.fieldsz, |p.pf.fieldsz|;
    InOwnBlock(f, high, n);
    hide Walk, Start, Span, Translate;
    assert Downwards(p, mem, p.root, n, high, limit, NotPresent, WrapDown(Start(f, high, n)));
    forall status: Status, addr: Addr | Downwards(p, mem, p.root, n, high, limit, status, addr)
      ensures status == NotPresent && !Highest(p, mem, high, limit, status, addr)
    {
      assert status != NotPresent ==> Is(false, p, mem, p.root, n, addr);
    }
  }

  lemma WrongIsNotRight(present: bool, p: Pgt, mem: Memory, low: Addr, limit: Addr)
    requires p.pf.Wf()
    ensures WrongUp(present, p, mem, low, limit) ==> !RightUp(present, p, low, limit)
    ensures WrongDown(p, mem, low, limit) ==> !RightDown(p, low, limit)
  {
    hide Upwards, Downwards, Lowest, Highest;
  }

  // ---------------------------------------------------------------------------
  // Formats with sign extension

  /** No entry of any table can lead to a page, because the mask takes away the bits for that. */
  predicate Barren(p: Pgt) {
    && |p.pf.fieldsz| > 1
    && (Odd(p.mask) || (p.pf.fmt == RiscV64 && (p.mask / 2) % 8 == 7))
  }

  /** A limit in the half of the start is right for every kind of search. */
  lemma WithinHalf(present: bool, p: Pgt, a: Addr, limit: Addr)
    requires p.pf.Wf() && Launches(p, a)
    ensures limit <= HalfLast(p, a) ==> RightUp(present, p, a, limit)
    ensures HalfFirst(p, a) <= limit ==> RightDown(p, a, limit)
  {
    hide Upwards, Downwards, Launches, HalfLast, HalfFirst;
    forall mem: Memory, status: Status, addr: Addr |
      limit <= HalfLast(p, a) && Upwards(present, p, mem, p.root, |p.pf.fieldsz|, a, limit, status, addr)
      ensures Lowest(present, p, mem, a, limit, status, addr)
    {
      UpwardsIsLowest(present, p, mem, a, limit, status, addr);
      UpwardsBound(present, p, mem, a, limit, status, addr);
    }
    forall mem: Memory, status: Status, addr: Addr |
      HalfFirst(p, a) <= limit && Downwards(p, mem, p.root, |p.pf.fieldsz|, a, limit, status, addr)
      ensures Highest(p, mem, a, limit, status, addr)
    {
      DownwardsIsHighest(p, mem, a, limit, status, addr);
      DownwardsBound(p, mem, a, limit, status, addr);
    }
  }

  lemma UpwardsBound(present: bool, p: Pgt, mem: Memory, low: Addr, limit: Addr, status: Status, addr: Addr)
    requires p.pf.Wf() && Upwards(present, p, mem, p.root, |p.pf.fieldsz|, low, limit, status, addr)
    ensures status != NotPresent ==> addr <= limit
  {
  }

  lemma DownwardsBound(p: Pgt, mem: Memory, high: Addr, limit: Addr, status: Status, addr: Addr)
    requires p.pf.Wf() && Downwards(p, mem, p.root, |p.pf.fieldsz|, high, limit, status, addr)
    ensures status != NotPresent ==> addr >= limit
  {
  }

  lemma StartsThere(p: Pgt, mem: Memory, a: Addr)
    requires p.pf.Wf() && Launches(p, a)
    ensures Translate(p, mem, a) == Walk(p, mem, p.root, |p.pf.fieldsz|, a)
    ensures Start(p.pf.fieldsz, a, |p.pf.fieldsz|) <= a < End(p.pf.fieldsz, a, |p.pf.fieldsz|)
  {
    InOwnBlock(p.pf.fieldsz, a, |p.pf.fieldsz|);
    hide Walk, Start, End;
  }

  /** A search whose first address is not of the other kind ends there. */
  lemma EndsAtOnce(present: bool, p: Pgt, mem: Memory, low: Addr, limit: Addr, status: Status, addr: Addr)
    requires p.pf.Wf() && Launches(p, low) && low <= limit
    requires !Is(!present, p, mem, p.root, |p.pf.fieldsz|, low)
    requires Upwards(present, p, mem, p.root, |p.pf.fieldsz|, low, limit, status, addr)
    ensures Lowest(present, p, mem, low, limit, status, addr)
  {
    hide Walk, Translate, Start, End, Launches;
    StartsThere(p, mem, low);
  }

  lemma EndsAtOnceDown(p: Pgt, mem: Memory, high: Addr, limit: Addr, status: Status, addr: Addr)
    requires p.pf.Wf() && Launches(p, high) && limit <= high
    requires !Is(false, p, mem, p.root, |p.pf.fieldsz|, high)
    requires Downwards(p, mem, p.root, |p.pf.fieldsz|, high, limit, status, addr)
    ensures Highest(p, mem, high, limit, status, addr)
  {
    hide Walk, Translate, Start, End, Launches;
    StartsThere(p, mem, high);
  }

  /** Level one is the page. */
  lemma PageIs(p: Pgt, mem: Memory, base: FullAddr, a: Addr)
    requires |p.pf.fieldsz| > 0
    ensures Is(true, p, mem, base, 1, a) && !Is(false, p, mem, base, 1, a)
  {
  }

  /** What the first step of a walk says. */
  lemma FirstStep(present: bool, p: Pgt, mem: Memory, base: FullAddr, level: nat, a: Addr)
    requires 1 < level <= |p.pf.fieldsz|
    ensures Is(present, p, mem, base, level, a) ==
            match Entry(p, mem, base, level - 1, a)
            case Table(next) => Is(present, p, mem, FullAddr(next, p.target), level - 1, a)
            case Leaf(_, _) => present
            case Failed(status) => !present && status == NotPresent
  {
    hide Entry, Offset, InPage;
  }

  const NOTHING: Memory := Memory(_ => Got(0), _ => Got(0))

  lemma {:induction false} NothingMapped(p: Pgt, base: FullAddr, level: nat, a: Addr)
    requires 1 < level <= |p.pf.fieldsz|
    ensures Walk(p, NOTHING, base, level, a) == Failure(NotPresent)
  {
    Masked(0, p.mask);
  }

  lemma Masked(pte: nat, mask: nat)
    ensures pte == 0 ==> AndNot(pte, mask) == 0
    ensures Odd(AndNot(pte, mask)) <==> Odd(pte) && !Odd(mask)
    ensures AndNot(pte, mask) / 2 == AndNot(pte / 2, mask / 2)
  {
  }

  /** The first address behind the half is not canonical. */
  lemma BehindHalf(p: Pgt, mem: Memory, low: Addr)
    requires p.pf.Wf() && Launches(p, low) && p.pf.fmt != Arm
    ensures HalfLast(p, low) < ADDR_SPAN - 1 ==> Translate(p, mem, HalfLast(p, low) + 1) == Failure(Invalid)
    ensures HalfFirst(p, low) > 0 ==> Translate(p, mem, HalfFirst(p, low) - 1) == Failure(Invalid)
  {
    if HalfLast(p, low) < ADDR_SPAN - 1 { HalfIs(p, low, HalfLast(p, low) + 1); }
    if HalfFirst(p, low) > 0 { HalfIs(p, low, HalfFirst(p, low) - 1); }
  }

  /** Bits 1 to 3 survive the mask, unless it has all of them. */
  lemma MaskedTriple(pte: Addr, mask: Addr)
    ensures mask / 2 % 8 == 7 ==> PteVal(AndNot(pte, mask), 1, 3) == 0
    ensures mask / 2 % 8 != 7 && pte == 15 ==> PteVal(AndNot(pte, mask), 1, 3) != 0
  {
    Masked(pte, mask);
    assert PteVal(AndNot(pte, mask), 1, 3) == AndNot(pte / 2, mask / 2) % 8 by {
      assert Pow2(1) == 2 && Pow2(3) == 8;
      hide AndNot;
    }
    hide PteVal;
    SurvivingTriple(pte / 2, mask / 2);
  }

  lemma SurvivingTriple(a: nat, m: nat)
    ensures m % 8 == 7 ==> AndNot(a, m) % 8 == 0
    ensures m % 8 != 7 && a == 7 ==> AndNot(a, m) % 8 != 0
  {
    var b := AndNot(a, m);
    Masked(a, m);
    Masked(a / 2, m / 2);
    Masked(a / 2 / 2, m / 2 / 2);
    hide AndNot;
    ThreeBits(b);
    ThreeBits(m);
  }

  lemma ThreeBits(a: nat)
    ensures a % 8 == 0 <==> !Odd(a) && !Odd(a / 2) && !Odd(a / 2 / 2)
    ensures a % 8 == 7 <==> Odd(a) && Odd(a / 2) && Odd(a / 2 / 2)
  {
    ModHalf(a, 4);
    ModHalf(a / 2, 2);
  }

  lemma PresentBit(pte: nat)
    ensures PteVal(pte, 0, 1) == 0 <==> !Odd(pte)
  {
    assert Pow2(0) == 1 && Pow2(1) == 2;
  }

  /** With a barren mask no walk succeeds. */
  lemma {:induction false} NoPage(p: Pgt, mem: Memory, base: FullAddr, level: nat, a: Addr)
    requires 1 < level <= |p.pf.fieldsz| && Barren(p) && p.pf.fmt != Arm
    ensures Walk(p, mem, base, level, a).Failure?
    decreases level
  {
    BarrenEntry(p, mem, EntryAt(p, base, level - 1, a), level - 1);
    hide EntryAt, Decode, Barren, Offset;
    match Entry(p, mem, base, level - 1, a)
    case Table(next) => NoPage(p, mem, FullAddr(next, p.target), level - 1, a);
    case Failed(_) =>
  }

  lemma BarrenEntry(p: Pgt, mem: Memory, at: FullAddr, remain: nat)
    requires 0 < remain < |p.pf.fieldsz| && Barren(p) && p.pf.fmt != Arm
    ensures !Decode(p, mem, at, remain).Leaf? && (remain == 1 ==> Decode(p, mem, at, remain).Failed?)
  {
    var raw := mem.read64(at);
    if raw.Got? {
      Masked(raw.value, p.mask);
      MaskedTriple(raw.value, p.mask);
      PresentBit(AndNot(raw.value, p.mask));
      hide AndNot, PteVal, Clear, Low, Width, Shl;
    }
  }

  /** An entry with its four lowest bits set leads to a page at any level, unless masked. */
  const PAGES: Memory := Memory(_ => Got(15), _ => Got(15))

  lemma {:induction false} AllMapped(p: Pgt, base: FullAddr, level: nat, a: Addr)
    requires 0 < level <= |p.pf.fieldsz| && (level == 1 || !Barren(p)) && p.pf.fmt != Arm
    ensures Walk(p, PAGES, base, level, a).Success?
    decreases level
  {
    if level == 1 {
    } else {
      PageEntry(p, EntryAt(p, base, level - 1, a), level - 1);
      hide EntryAt, Decode, Barren, Offset;
      match Entry(p, PAGES, base, level - 1, a)
      case Table(next) => AllMapped(p, FullAddr(next, p.target), level - 1, a);
      case Leaf(_, _) =>
    }
  }

  lemma PageEntry(p: Pgt, at: FullAddr, remain: nat)
    requires 0 < remain < |p.pf.fieldsz| && !Barren(p) && p.pf.fmt != Arm
    ensures !Decode(p, PAGES, at, remain).Failed?
  {
    Masked(15, p.mask);
    MaskedTriple(15, p.mask);
    PresentBit(AndNot(15, p.mask));
    hide AndNot, PteVal, Clear, Low, Width, Shl;
  }

  /** With sign extension, searches for mapped addresses are right exactly for limits in the half
      that they start in, and for tables of one level. */
  lemma LowestMappedIff(p: Pgt, low: Addr, limit: Addr)
    requires p.pf.Wf() && Launches(p, low) && p.pf.fmt != Arm
    ensures RightUp(true, p, low, limit) <==> limit <= HalfLast(p, low) || |p.pf.fieldsz| == 1
  {
    var n := |p.pf.fieldsz|;
    WithinHalf(true, p, low, limit);
    HalfIs(p, low, low);
    if limit <= HalfLast(p, low) {
    } else if n == 1 {
      hide HalfLast;
      forall mem: Memory, status: Status, addr: Addr | Upwards(true, p, mem, p.root, n, low, limit, status, addr)
        ensures Lowest(true, p, mem, low, limit, status, addr)
      {
        PageIs(p, mem, p.root, low);
        EndsAtOnce(true, p, mem, low, limit, status, addr);
      }
    } else {
      MissesMapped(p, low, limit);
      WrongIsNotRight(true, p, NOTHING, low, limit);
    }
  }

  lemma MissesMapped(p: Pgt, low: Addr, limit: Addr)
    requires p.pf.Wf() && Launches(p, low) && p.pf.fmt != Arm && |p.pf.fieldsz| > 1
    ensures HalfLast(p, low) < limit ==> WrongUp(true, p, NOTHING, low, limit)
    ensures limit < HalfFirst(p, low) ==> WrongDown(p, NOTHING, low, limit)
  {
    var n := |p.pf.fieldsz|;
    HalfIs(p, low, low);
    BehindHalf(p, NOTHING, low);
    hide HalfFirst, HalfLast, Walk, Translate, Start, Span, Launches;
    forall a: Addr ensures Is(false, p, NOTHING, p.root, n, a) { NothingMapped(p, p.root, n, a); }
    if HalfLast(p, low) < limit { MissedUp(true, p, NOTHING, low, limit, HalfLast(p, low) + 1); }
    if limit < HalfFirst(p, low) { MissedDown(p, NOTHING, low, limit, HalfFirst(p, low) - 1); }
  }

  /** A search for unmapped addresses is right for other limits only if nothing can be mapped. */
  lemma LowestUnmappedIff(p: Pgt, low: Addr, limit: Addr)
    requires p.pf.Wf() && Launches(p, low) && p.pf.fmt != Arm
    ensures RightUp(false, p, low, limit) <==> limit <= HalfLast(p, low) || Barren(p)
  {
    var n := |p.pf.fieldsz|;
    WithinHalf(false, p, low, limit);
    HalfIs(p, low, low);
    if limit <= HalfLast(p, low) {
    } else if Barren(p) {
      hide HalfLast;
      forall mem: Memory, status: Status, addr: Addr | Upwards(false, p, mem, p.root, n, low, limit, status, addr)
        ensures Lowest(false, p, mem, low, limit, status, addr)
      {
        NoPage(p, mem, p.root, n, low);
        EndsAtOnce(false, p, mem, low, limit, status, addr);
      }
    } else {
      MissesUnmapped(p, low, limit);
      WrongIsNotRight(false, p, PAGES, low, limit);
    }
  }

  lemma MissesUnmapped(p: Pgt, low: Addr, limit: Addr)
    requires p.pf.Wf() && Launches(p, low) && p.pf.fmt != Arm && !Barren(p) && HalfLast(p, low) < limit
    ensures WrongUp(false, p, PAGES, low, limit)
  {
    var n := |p.pf.fieldsz|;
    HalfIs(p, low, low);
    BehindHalf(p, PAGES, low);
    hide HalfFirst, HalfLast, Walk, Translate, Start, Span, Launches;
    forall a: Addr ensures Is(true, p, PAGES, p.root, n, a) { AllMapped(p, p.root, n, a); }
    MissedUp(false, p, PAGES, low, limit, HalfLast(p, low) + 1);
  }

  lemma HighestMappedIff(p: Pgt, high: Addr, limit: Addr)
    requires p.pf.Wf() && Launches(p, high) && p.pf.fmt != Arm
    ensures RightDown(p, high, limit) <==> HalfFirst(p, high) <= limit || |p.pf.fieldsz| == 1
  {
    var n := |p.pf.fieldsz|;
    WithinHalf(true, p, high, limit);
    HalfIs(p, high, high);
    if HalfFirst(p, high) <= limit {
    } else if n == 1 {
      hide HalfFirst;
      forall mem: Memory, status: Status, addr: Addr | Downwards(p, mem, p.root, n, high, limit, status, addr)
        ensures Highest(p, mem, high, limit, status, addr)
      {
        PageIs(p, mem, p.root, high);
        EndsAtOnceDown(p, mem, high, limit, status, addr);
      }
    } else {
      MissesMapped(p, high, limit);
      WrongIsNotRight(true, p, NOTHING, high, limit);
    }
  }

  function FourLevels(): (p: Pgt)
    ensures p.pf.Wf()
  {
    assert Width([12, 9, 9, 9, 9], 5) == 48;
    Pgt(FullAddr(4096, MachPhysAddr), 0, Form(X86_64, [12, 9, 9, 9, 9]), MachPhysAddr)
  }

  /** The last page of the lower half, with four levels, and nothing mapped or everything: a search
      beyond the half goes on to addresses that are not canonical, and reports them to be like the
      others, although their translation fails as invalid. */
  lemma BeyondHalf()
    ensures Launches(FourLevels(), 0x7fff_ffff_f000) && HalfLast(FourLevels(), 0x7fff_ffff_f000) == 0x7fff_ffff_ffff
    ensures WrongUp(true, FourLevels(), NOTHING, 0x7fff_ffff_f000, 0x8000_0000_0fff)
    ensures WrongUp(false, FourLevels(), PAGES, 0x7fff_ffff_f000, 0x8000_0000_0fff)
  {
    var p := FourLevels();
    assert Span(p.pf.fieldsz, 5) == 0x1_0000_0000_0000 by {
      assert Width([12, 9, 9, 9, 9], 5) == 48;
      assert Pow2(12) == 4096;
      Pow2Sum(12, 12);
      Pow2Sum(24, 24);
    }
    assert SignExtended(p.pf.fieldsz, 0x7fff_ffff_f000) && HalfLast(p, 0x7fff_ffff_f000) == 0x7fff_ffff_ffff by {
      hide Span, Width;
    }
    hide HalfLast, Span, Width, SignExtended;
    MissesMapped(p, 0x7fff_ffff_f000, 0x8000_0000_0fff);
    MissesUnmapped(p, 0x7fff_ffff_f000, 0x8000_0000_0fff);
  }

  // ---------------------------------------------------------------------------
  // Arm: no sign extension, so that the addresses behind a block repeat it

  lemma FieldOfRest(f: seq<nat>, a: nat, i: nat)
    requires i < |f|
    ensures Field(f, a, i) == (a % Span(f, i + 1)) / Span(f, i)
    ensures a % Span(f, i) == (a % Span(f, i + 1)) % Span(f, i)
  {
    var s, k := Span(f, i), Pow2(f[i]);
    SpanStep(f, i);
    ModMul(a, s, k);
    ModUnique(a % (s * k), s, (a / s) % k, a % s);
  }

  /** Addresses at the same place in their blocks have the same indices. */
  lemma {:induction false} SamePlace(f: seq<nat>, a: nat, b: nat, i: nat)
    requires i < |f| && a % Span(f, |f|) == b % Span(f, |f|)
    ensures Field(f, a, i) == Field(f, b, i) && a % Span(f, i) == b % Span(f, i)
    decreases |f| - i
  {
    if i + 1 == |f| {
    } else {
      SamePlace(f, a, b, i + 1);
    }
    FieldOfRest(f, a, i);
    FieldOfRest(f, b, i);
  }

  lemma {:induction false} BlocksNest(f: seq<nat>, a: nat, i: nat, j: nat)
    requires i <= j <= |f|
    ensures Start(f, a, j) <= Start(f, a, i) && End(f, a, i) <= End(f, a, j)
  {
    if i == j {
    } else {
      BlocksNest(f, a, i, j - 1);
      Nested(f, a, j - 1);
    }
  }

  /** Addresses in the same page have the same indices into all tables. */
  lemma SamePage(f: seq<nat>, a: nat, b: nat, i: nat)
    requires 0 < i < |f| && Start(f, a, 1) <= b < End(f, a, 1)
    ensures Field(f, a, i) == Field(f, b, i)
  {
    BlocksNest(f, a, 1, i);
    InBlock(f, a, b, i);
  }

  ghost predicate SameIndices(f: seq<nat>, a: nat, b: nat) {
    forall i :: 0 < i < |f| ==> Field(f, a, i) == Field(f, b, i)
  }

  lemma {:induction false} SameWalks(present: bool, p: Pgt, mem: Memory, base: FullAddr, level: nat, a: Addr, b: Addr)
    requires 0 < level <= |p.pf.fieldsz| && SameIndices(p.pf.fieldsz, a, b)
    ensures Is(present, p, mem, base, level, a) <==> Is(present, p, mem, base, level, b)
    decreases level
  {
    hide Entry, Field, Is, SameIndices;
    if level == 1 {
      PageIs(p, mem, base, a);
      PageIs(p, mem, base, b);
    } else {
      SameEntries(p, mem, base, level - 1, a, b);
      FirstStep(present, p, mem, base, level, a);
      FirstStep(present, p, mem, base, level, b);
      match Entry(p, mem, base, level - 1, a)
      case Table(next) => SameWalks(present, p, mem, FullAddr(next, p.target), level - 1, a, b);
      case _ =>
    }
  }

  lemma SameEntries(p: Pgt, mem: Memory, base: FullAddr, r: nat, a: Addr, b: Addr)
    requires 0 < r < |p.pf.fieldsz| && SameIndices(p.pf.fieldsz, a, b)
    ensures Entry(p, mem, base, r, a) == Entry(p, mem, base, r, b)
  {
    assert Field(p.pf.fieldsz, a, r) == Field(p.pf.fieldsz, b, r);
    hide Field, Decode;
  }

  /** The page of `a` is the first one of the block that the root table spans. */
  predicate FirstPage(f: seq<nat>, a: nat)
    requires |f| > 0
  {
    Start(f, a, 1) == Start(f, a, |f|)
  }

  /** It is the last one. */
  predicate LastPage(f: seq<nat>, a: nat)
    requires |f| > 0
  {
    End(f, a, 1) == End(f, a, |f|)
  }

  /** Any address has the indices of one in the block of `low`, at or above `low` if that is in
      the first page. */
  lemma CopyAbove(f: seq<nat>, low: nat, a: nat) returns (b: nat)
    requires |f| > 0 && FirstPage(f, low)
    ensures low <= b < End(f, low, |f|) && SameIndices(f, a, b)
  {
    var n := |f|;
    var c := Start(f, low, n) + a % Span(f, n);
    InOwnBlock(f, low, n);
    Copied(f, low, a);
    if c >= low {
      b := c;
    } else {
      b := low;
      InOwnBlock(f, low, 1);
      hide Span, Field, Start;
      forall i | 0 < i < n ensures Field(f, a, i) == Field(f, b, i) { SamePage(f, low, c, i); }
    }
  }

  /** The address of the block that is at the same place as `a` in its own. */
  lemma Copied(f: seq<nat>, of: nat, a: nat)
    requires |f| > 0
    ensures var c := Start(f, of, |f|) + a % Span(f, |f|);
            Start(f, of, |f|) <= c < End(f, of, |f|) && c % Span(f, |f|) == a % Span(f, |f|) && SameIndices(f, a, c)
  {
    var n, s := |f|, Span(f, |f|);
    var c := Start(f, of, n) + a % s;
    DivMod(of, s);
    ModUnique(c, s, of / s, a % s);
    hide Span, Start;
    forall i | 0 < i < n ensures Field(f, a, i) == Field(f, c, i) { SamePlace(f, a, c, i); }
  }

  lemma CopyBelow(f: seq<nat>, high: nat, a: nat) returns (b: nat)
    requires |f| > 0 && LastPage(f, high)
    ensures Start(f, high, |f|) <= b <= high && SameIndices(f, a, b)
  {
    var n := |f|;
    var c := Start(f, high, n) + a % Span(f, n);
    InOwnBlock(f, high, n);
    Copied(f, high, a);
    if c <= high {
      b := c;
    } else {
      b := high;
      InOwnBlock(f, high, 1);
      hide Span, Field, Start;
      forall i | 0 < i < n ensures Field(f, a, i) == Field(f, b, i) { SamePage(f, high, c, i); }
    }
  }

  lemma ArmMaps(present: bool, p: Pgt, mem: Memory, a: Addr)
    requires p.pf.Wf() && p.pf.fmt == Arm && p.root.space != NoAddr
    ensures Maps(present, p, mem, a) <==> Is(present, p, mem, p.root, |p.pf.fieldsz|, a)
  {
    hide Walk;
  }

  /** From the first page of a block on, any limit is right. */
  lemma FirstPageRight(present: bool, p: Pgt, low: Addr, limit: Addr)
    requires p.pf.Wf() && p.pf.fmt == Arm && Launches(p, low) && FirstPage(p.pf.fieldsz, low)
    ensures RightUp(present, p, low, limit)
  {
    var f, n := p.pf.fieldsz, |p.pf.fieldsz|;
    WithinHalf(present, p, low, limit);
    EndFits(p.pf, low, n);
    forall mem: Memory, status: Status, addr: Addr |
      limit > HalfLast(p, low) && Upwards(present, p, mem, p.root, n, low, limit, status, addr)
      ensures Lowest(present, p, mem, low, limit, status, addr)
    {
      if status == NotPresent {
        hide Start, Span, Walk, Maps, Is;
        var absent := !present;
        forall a: Addr | low <= a <= limit ensures Maps(absent, p, mem, a) {
          var b := CopyAbove(f, low, a);
          assert Is(absent, p, mem, p.root, n, b);
          SameWalks(absent, p, mem, p.root, n, a, b);
          ArmMaps(absent, p, mem, a);
        }
      } else {
        UpwardsIsLowest(present, p, mem, low, limit, status, addr);
        hide Start, Span, Walk, Maps;
      }
    }
  }

  lemma LastPageRight(p: Pgt, high: Addr, limit: Addr)
    requires p.pf.Wf() && p.pf.fmt == Arm && Launches(p, high) && LastPage(p.pf.fieldsz, high)
    ensures RightDown(p, high, limit)
  {
    var f, n := p.pf.fieldsz, |p.pf.fieldsz|;
    WithinHalf(true, p, high, limit);
    forall mem: Memory, status: Status, addr: Addr |
      limit < HalfFirst(p, high) && Downwards(p, mem, p.root, n, high, limit, status, addr)
      ensures Highest(p, mem, high, limit, status, addr)
    {
      if status == NotPresent {
        hide Start, Span, Walk, Maps, Is;
        forall a: Addr | limit <= a <= high ensures Maps(false, p, mem, a) {
          var b := CopyBelow(f, high, a);
          assert Is(false, p, mem, p.root, n, b);
          SameWalks(false, p, mem, p.root, n, a, b);
          ArmMaps(false, p, mem, a);
        }
      } else {
        DownwardsIsHighest(p, mem, high, limit, status, addr);
        hide Start, Span, Walk, Maps;
      }
    }
  }

  /** The indices below level `r` are zero. */
  ghost predicate Zeros(f: seq<nat>, a: nat, r: nat)
    requires r <= |f|
  {
    forall i :: 0 < i < r ==> Field(f, a, i) == 0
  }

  /** The addresses of the first page are those whose indices are zero. */
  lemma {:induction false} ZeroIndices(f: seq<nat>, a: nat, r: nat)
    requires 0 < r <= |f|
    ensures Start(f, a, r) <= Start(f, a, 1)
    ensures Start(f, a, 1) == Start(f, a, r) <==> Zeros(f, a, r)
    decreases r
  {
    if r == 1 {
    } else {
      ZeroIndices(f, a, r - 1);
      Nested(f, a, r - 1);
      hide Start, Field;
    }
  }

  /** The indices below level `r` are those of the last entries. */
  ghost predicate Fulls(f: seq<nat>, a: nat, r: nat)
    requires r <= |f|
  {
    forall i :: 0 < i < r ==> Field(f, a, i) + 1 == Pow2(f[i])
  }

  /** And those of the last page are those whose indices are the last ones. */
  lemma {:induction false} FullIndices(f: seq<nat>, a: nat, r: nat)
    requires 0 < r <= |f|
    ensures End(f, a, 1) <= End(f, a, r)
    ensures End(f, a, 1) == End(f, a, r) <==> Fulls(f, a, r)
    decreases r
  {
    if r == 1 {
    } else {
      FullIndices(f, a, r - 1);
      Nested(f, a, r - 1);
      hide End, Field, Pow2;
    }
  }

  /** Entries of a table do not wrap. */
  lemma EntryFits(pf: Form, a: Addr, i: nat)
    requires pf.Wf() && 0 < i < |pf.fieldsz|
    ensures 4 * Pow2(pf.fieldsz[i]) <= ADDR_SPAN && Field(pf.fieldsz, a, i) < Pow2(pf.fieldsz[i])
  {
    var f := pf.fieldsz;
    WidthGrows(f, 1, i);
    WidthGrows(f, i + 1, |f|);
    Pow2Grows(f[i], 62);
    assert 4 * Pow2(62) == ADDR_SPAN by { Pow2Of63(); }
  }

  lemma DecodesKind(remain: nat, pte: Word)
    ensures DecodeArm(remain, pte) ==
            match PteVal(pte, 0, 2)
            case 0 => Failed(NotPresent)
            case 1 => (if remain > 1 then Table(Clear(pte, 10)) else Leaf(Clear(pte, 16), 4))
            case _ => DecodeArm(remain, pte)
    ensures PteVal(pte, 0, 2) > 1 ==> if remain > 1 then DecodeArm(remain, pte).Leaf? else DecodeArm(remain, pte).Table?
  {
    hide PteVal, Clear, SupersectionBase;
  }

  /** An entry that leads to table number `k`, or maps a large page. */
  lemma ArmLink(remain: nat, k: nat)
    requires k < 8
    ensures remain > 1 ==> DecodeArm(remain, AndNot(1024 * k + 1, 0)) == Table(1024 * k)
    ensures remain <= 1 ==> DecodeArm(remain, AndNot(1024 * k + 1, 0)).Leaf?
  {
    hide *;
    Identity(1024 * k + 1);
    DecodesKind(remain, 1024 * k + 1);
    Kind(1024 * k + 1);
    LinkBase(k);
  }

  lemma LinkBase(k: nat)
    ensures Clear(1024 * k + 1, 10) == 1024 * k
  {
    assert Pow2(10) == 1024;
    ModUnique(1024 * k + 1, 1024, k, 1);
  }

  /** A missing entry, and one that maps a small page or a section. */
  lemma ArmEntries(remain: nat)
    ensures DecodeArm(remain, AndNot(0, 0)) == Failed(NotPresent)
    ensures !DecodeArm(remain, AndNot(2, 0)).Failed? && (remain > 1 ==> DecodeArm(remain, AndNot(2, 0)).Leaf?)
  {
    hide *;
    Identity(0);
    Identity(2);
    Kind(0);
    Kind(2);
    DecodesKind(remain, 0);
    DecodesKind(remain, 2);
  }

  lemma Kind(pte: nat)
    ensures PteVal(pte, 0, 2) == pte % 4
  {
    assert Pow2(0) == 1 && Pow2(2) == 4;
    assert pte / 1 == pte;
  }

  /** Tables at address zero, of which only the first entry is set. */
  const FIRST: Memory := Memory((at: FullAddr) => Got(if at.addr == 0 then 1 else 0), _ => Got(0))

  ghost function ZeroTables(pf: Form): Pgt { Pgt(FullAddr(0, KPhysAddr), 0, pf, KPhysAddr) }

  lemma ArmEntryAt(p: Pgt, base: FullAddr, r: nat, a: Addr)
    requires p.pf.Wf() && p.pf.fmt == Arm && 0 < r < |p.pf.fieldsz|
             && base.addr + 4 * Field(p.pf.fieldsz, a, r) < ADDR_SPAN
    ensures EntryAt(p, base, r, a) == base.(addr := base.addr + 4 * Field(p.pf.fieldsz, a, r))
  {
    hide Field;
  }

  lemma FirstEntry(pf: Form, base: FullAddr, r: nat, a: Addr)
    requires pf.Wf() && pf.fmt == Arm && 0 < r < |pf.fieldsz| && base.addr == 0
    ensures var d := Entry(ZeroTables(pf), FIRST, base, r, a);
      if Field(pf.fieldsz, a, r) != 0 then d == Failed(NotPresent)
      else if r > 1 then d == Table(0) else d.Leaf?
  {
    EntryFits(pf, a, r);
    ArmEntryAt(ZeroTables(pf), base, r, a);
    FirstDecoded(pf, EntryAt(ZeroTables(pf), base, r, a), r);
    hide EntryAt, Decode, Field, Pow2;
  }

  lemma FirstDecoded(pf: Form, at: FullAddr, r: nat)
    requires pf.fmt == Arm && 0 < r < |pf.fieldsz|
    ensures var d := Decode(ZeroTables(pf), FIRST, at, r);
      if at.addr != 0 then d == Failed(NotPresent) else if r > 1 then d == Table(0) else d.Leaf?
  {
    hide DecodeArm, AndNot;
    ArmEntries(r);
    ArmLink(r, 0);
  }

  lemma {:induction false} FirstMapped(pf: Form, base: FullAddr, level: nat, a: Addr)
    requires pf.Wf() && pf.fmt == Arm && 0 < level <= |pf.fieldsz| && base.addr == 0
    ensures Is(Zeros(pf.fieldsz, a, level), ZeroTables(pf), FIRST, base, level, a)
    decreases level
  {
    if level == 1 {
    } else {
      FirstEntry(pf, base, level - 1, a);
      FirstStep(Zeros(pf.fieldsz, a, level), ZeroTables(pf), FIRST, base, level, a);
      hide Entry, Field, FIRST, Is;
      if level > 2 { FirstMapped(pf, FullAddr(0, KPhysAddr), level - 1, a); }
    }
  }

  /** On Arm, searches for mapped addresses with such tables are right exactly for limits in the
      block, and for starts in its first page. */
  lemma ArmLowestMappedIff(pf: Form, low: Addr, limit: Addr)
    requires pf.Wf() && pf.fmt == Arm
    ensures (forall p: Pgt :: p.pf == pf && p.root.space != NoAddr ==> RightUp(true, p, low, limit))
       <==> limit < End(pf.fieldsz, low, |pf.fieldsz|) || FirstPage(pf.fieldsz, low)
  {
    var f, n := pf.fieldsz, |pf.fieldsz|;
    forall p: Pgt | p.pf == pf && p.root.space != NoAddr && (limit < End(f, low, n) || FirstPage(f, low))
      ensures RightUp(true, p, low, limit)
    {
      WithinHalf(true, p, low, limit);
      hide RightUp;
      if FirstPage(f, low) { FirstPageRight(true, p, low, limit); }
    }
    if limit >= End(f, low, n) && !FirstPage(f, low) {
      ArmMissesMapped(pf, low, limit);
      WrongIsNotRight(true, ZeroTables(pf), FIRST, low, limit);
      hide RightUp;
      assert !RightUp(true, ZeroTables(pf), low, limit);
    }
  }

  lemma ArmMissesMapped(pf: Form, low: Addr, limit: Addr)
    requires pf.Wf() && pf.fmt == Arm && limit >= End(pf.fieldsz, low, |pf.fieldsz|) && !FirstPage(pf.fieldsz, low)
    ensures WrongUp(true, ZeroTables(pf), FIRST, low, limit)
  {
    var f, n, p := pf.fieldsz, |pf.fieldsz|, ZeroTables(pf);
    var end: Addr := End(f, low, n);
    hide Walk, Field, FIRST;
    forall a: Addr | low <= a < end ensures Is(false, p, FIRST, p.root, n, a) {
      FirstMapped(pf, p.root, n, a);
      ZeroIndices(f, a, n);
      NotFirst(f, low, a);
    }
    BlockAgain(f, low);
    FirstMapped(pf, p.root, n, end);
    ArmMaps(false, p, FIRST, end);
    assert Is(true, p, FIRST, p.root, n, end);
    MissedUp(true, p, FIRST, low, limit, end);
  }

  lemma NotFirst(f: seq<nat>, low: nat, a: nat)
    requires |f| > 0 && low <= a < End(f, low, |f|) && !FirstPage(f, low)
    ensures !FirstPage(f, a)
  {
    InOwnBlock(f, low, |f|);
    InBlock(f, low, a, |f|);
    BlocksNest(f, low, 1, |f|);
    InOwnBlock(f, low, 1);
    if FirstPage(f, a) && a < End(f, low, 1) { InBlock(f, low, a, 1); }
    hide Span;
  }

  /** The next block begins with its first page. */
  lemma BlockAgain(f: seq<nat>, low: nat)
    requires |f| > 0
    ensures Zeros(f, End(f, low, |f|), |f|)
  {
    var q, s := low / Span(f, |f|), Span(f, |f|);
    DivMod(low, s);
    Distribute(s, q, 1);
    FieldsAtStart(f, End(f, low, |f|), |f|, q + 1);
  }

  function TwoLevels(): (pf: Form)
    ensures pf.Wf()
  {
    assert Width([12, 8, 12], 3) == 32;
    Form(Arm, [12, 8, 12])
  }

  /** With the two levels of short descriptors, a search from the second page of the address space
      up to the page behind 4 GiB misses that page, which is mapped as the first one is. */
  lemma BehindBlock()
    ensures WrongUp(true, ZeroTables(TwoLevels()), FIRST, 0x1000, 0x1_0000_0fff)
  {
    hide Span, Width, Start, End, FirstPage, TwoLevels, FIRST, WrongUp;
    SecondPage();
    ArmMissesMapped(TwoLevels(), 0x1000, 0x1_0000_0fff);
  }

  lemma SecondPage()
    ensures |TwoLevels().fieldsz| == 3 && TwoLevels().fmt == Arm
    ensures !FirstPage(TwoLevels().fieldsz, 0x1000) && End(TwoLevels().fieldsz, 0x1000, 3) == 0x1_0000_0000
  {
    hide Span, Width, Start;
    var f := TwoLevels().fieldsz;
    TwoSpans();
    StartIs(f, 0x1000, 1);
    StartIs(f, 0x1000, 3);
    ModUnique(0x1000, 0x1_0000_0000, 0, 0x1000);
    ModUnique(0x1000, 0x1000, 1, 0);
  }

  lemma StartIs(f: seq<nat>, a: nat, i: nat)
    requires i <= |f|
    ensures Start(f, a, i) == a - a % Span(f, i)
  {
  }

  lemma TwoSpans()
    ensures Span(TwoLevels().fieldsz, 1) == 0x1000 && Span(TwoLevels().fieldsz, 3) == 0x1_0000_0000
  {
    assert Width([12, 8, 12], 1) == 12 && Width([12, 8, 12], 3) == 32;
    hide Width;
    assert Pow2(8) == 256 && Pow2(12) == 4096;
    Pow2Sum(8, 12);
    Pow2Sum(20, 12);
  }

  /** Table number `k` is at address `1024 * k`; its first entry leads to the table before, or is
      missing in table number zero.  The other entries map pages, unless they are first entries of
      other tables. */
  const CHAIN: Memory := Memory((at: FullAddr) => Got(ChainEntry(at.addr)), _ => Got(0))

  function ChainEntry(a: Addr): Word {
    if a % 1024 != 0 || a > 8192 then 2 else if a == 0 then 0 else a - 1024 + 1
  }

  ghost function ChainTables(pf: Form): Pgt
    requires 1 < |pf.fieldsz| <= 8
  {
    Pgt(FullAddr(1024 * (|pf.fieldsz| - 2), KPhysAddr), 0, pf, KPhysAddr)
  }

  lemma ChainFits(pf: Form, m: nat, a: Addr, r: nat)
    requires pf.Wf() && pf.fmt == Arm && 0 < r < |pf.fieldsz| && m <= 8 && (m == 0 || |pf.fieldsz| > 2)
    ensures 1024 * m + 4 * Field(pf.fieldsz, a, r) < ADDR_SPAN
  {
    var f := pf.fieldsz;
    EntryFits(pf, a, r);
    if |f| > 2 {
      WidthGrows(f, 1, r);
      WidthGrows(f, r + 1, |f|);
      if r == 1 { WidthGrows(f, 3, |f|); } else { WidthGrows(f, 2, r); }
      Pow2Grows(f[r], 59);
      assert 16 * Pow2(59) == Pow2(63);
      Pow2Of63();
    }
    hide Field;
  }

  lemma ChainDecoded(pf: Form, at: FullAddr, r: nat)
    requires pf.fmt == Arm && 0 < r < |pf.fieldsz| <= 8
    ensures var d := Decode(ChainTables(pf), CHAIN, at, r);
      if at.addr == 0 then d == Failed(NotPresent)
      else if r > 1 && at.addr % 1024 == 0 && at.addr <= 8192 then d == Table(at.addr - 1024)
      else !d.Failed? && (r > 1 ==> d.Leaf?)
  {
    hide DecodeArm, AndNot, Decode;
    ChainRead(pf, at, r);
    ArmEntries(r);
    if at.addr % 1024 == 0 && 0 < at.addr <= 8192 { ArmLink(r, at.addr / 1024 - 1); }
  }

  lemma ChainRead(pf: Form, at: FullAddr, r: nat)
    requires pf.fmt == Arm && 0 < r < |pf.fieldsz| <= 8
    ensures Decode(ChainTables(pf), CHAIN, at, r) == DecodeArm(r, AndNot(ChainEntry(at.addr), 0))
  {
    hide DecodeArm, AndNot, ChainEntry;
  }

  /** Where an entry of table number `m` leads. */
  lemma ChainEntryIs(pf: Form, m: nat, r: nat, a: Addr) returns (k: int)
    requires pf.Wf() && pf.fmt == Arm && 0 < r < |pf.fieldsz| && m <= 8 && (m == 0 || |pf.fieldsz| > 2)
    ensures var d, x := Entry(ChainTables(pf), CHAIN, FullAddr(1024 * m, KPhysAddr), r, a), Field(pf.fieldsz, a, r);
      if m == 0 && x == 0 then d == Failed(NotPresent)
      else if r > 1 && !d.Leaf? then 0 <= k < 8 && d == Table(1024 * k) && (if x == 0 then k + 1 == m else k >= m)
      else !d.Failed? && (r > 1 ==> x != 0)
  {
    ChainFits(pf, m, a, r);
    var c := 1024 * m + 4 * Field(pf.fieldsz, a, r);
    ArmEntryAt(ChainTables(pf), FullAddr(1024 * m, KPhysAddr), r, a);
    ChainDecoded(pf, FullAddr(c, KPhysAddr), r);
    k := c / 1024 - 1;
    hide Decode, Field, CHAIN, Width, EntryAt;
  }

  /** From table number `m` on, more than there are levels left, a walk cannot get to table number
      zero; and if there are as many, it gets there only with zero for each index. */
  lemma {:induction false} ChainWalk(pf: Form, m: nat, level: nat, a: Addr)
    requires pf.Wf() && pf.fmt == Arm && 0 < level <= |pf.fieldsz| && 1 < |pf.fieldsz|
    requires level <= m + 2 && m <= 8 && (m == 0 || |pf.fieldsz| > 2)
    ensures Is(level < m + 2 || !Zeros(pf.fieldsz, a, level), ChainTables(pf), CHAIN,
               FullAddr(1024 * m, KPhysAddr), level, a)
    decreases level
  {
    var p, base := ChainTables(pf), FullAddr(1024 * m, KPhysAddr);
    hide Entry, Field, CHAIN, Is, Zeros;
    if level == 1 {
      PageIs(p, CHAIN, base, a);
    } else {
      var r, present := level - 1, level < m + 2 || !Zeros(pf.fieldsz, a, level);
      var k := ChainEntryIs(pf, m, r, a);
      FirstStep(present, p, CHAIN, base, level, a);
      ZerosStep(pf.fieldsz, a, r);
      if r == 1 {
        if Entry(p, CHAIN, base, r, a).Table? {
          PageIs(p, CHAIN, FullAddr(Entry(p, CHAIN, base, r, a).base, p.target), a);
        }
      } else if Entry(p, CHAIN, base, r, a).Table? {
        ChainWalk(pf, k, r, a);
      }
    }
  }

  lemma ZerosStep(f: seq<nat>, a: nat, r: nat)
    requires 0 < r < |f|
    ensures Zeros(f, a, r + 1) <==> Zeros(f, a, r) && Field(f, a, r) == 0
    ensures Zeros(f, a, 1)
  {
    hide Field;
  }

  lemma ArmLowestUnmappedIff(pf: Form, low: Addr, limit: Addr)
    requires pf.Wf() && pf.fmt == Arm
    ensures (forall p: Pgt :: p.pf == pf && p.root.space != NoAddr ==> RightUp(false, p, low, limit))
       <==> limit < End(pf.fieldsz, low, |pf.fieldsz|) || FirstPage(pf.fieldsz, low)
  {
    var f, n := pf.fieldsz, |pf.fieldsz|;
    forall p: Pgt | p.pf == pf && p.root.space != NoAddr && (limit < End(f, low, n) || FirstPage(f, low))
      ensures RightUp(false, p, low, limit)
    {
      WithinHalf(false, p, low, limit);
      hide RightUp;
      if FirstPage(f, low) { FirstPageRight(false, p, low, limit); }
    }
    if limit >= End(f, low, n) && !FirstPage(f, low) {
      ArmMissesUnmapped(pf, low, limit);
      WrongIsNotRight(false, ChainTables(pf), CHAIN, low, limit);
      hide RightUp;
      assert !RightUp(false, ChainTables(pf), low, limit);
    }
  }

  lemma ChainMapped(pf: Form, a: Addr)
    requires pf.Wf() && pf.fmt == Arm && |pf.fieldsz| > 1
    ensures Is(!FirstPage(pf.fieldsz, a), ChainTables(pf), CHAIN, ChainTables(pf).root, |pf.fieldsz|, a)
  {
    hide Is, Start, Zeros, CHAIN;
    ChainWalk(pf, |pf.fieldsz| - 2, |pf.fieldsz|, a);
    ZeroIndices(pf.fieldsz, a, |pf.fieldsz|);
  }

  lemma ArmMissesUnmapped(pf: Form, low: Addr, limit: Addr)
    requires pf.Wf() && pf.fmt == Arm && limit >= End(pf.fieldsz, low, |pf.fieldsz|) && !FirstPage(pf.fieldsz, low)
    ensures WrongUp(false, ChainTables(pf), CHAIN, low, limit)
  {
    var f, n, p := pf.fieldsz, |pf.fieldsz|, ChainTables(pf);
    var end: Addr := End(f, low, n);
    hide Walk, Is, FirstPage, End, CHAIN, ChainTables, WrongUp;
    forall a: Addr | low <= a < end ensures Is(true, p, CHAIN, p.root, n, a) {
      ChainMapped(pf, a);
      NotFirst(f, low, a);
    }
    BlockAgain(f, low);
    ZeroIndices(f, end, n);
    assert FirstPage(f, end) by { hide Start, Field, End; }
    ChainMapped(pf, end);
    ArmMaps(true, p, CHAIN, end);
    EitherWay(p, CHAIN, p.root, n, end);
    InOwnBlock(f, low, n);
    MissedUp(false, p, CHAIN, low, limit, end);
  }

  lemma EitherWay(p: Pgt, mem: Memory, base: FullAddr, level: nat, a: Addr)
    requires 0 < level <= |p.pf.fieldsz|
    ensures !(Is(true, p, mem, base, level, a) && Is(false, p, mem, base, level, a))
  {
  }

  /** Only the last entry of the root table leads to the table at address zero, whose last entry
      maps a page; or that of the root table maps it, if there is no other. */
  ghost function Last(pf: Form): Memory
    requires |pf.fieldsz| > 1
  {
    Memory((at: FullAddr) => Got(if at.addr + 4 == 4 * Pow2(pf.fieldsz[LastLevel(pf, at.space)]) then 1 else 0),
           _ => Got(0))
  }

  ghost function LastLevel(pf: Form, space: Space): (r: nat)
    requires |pf.fieldsz| > 1
    ensures r < |pf.fieldsz|
  {
    if space == KvAddr then |pf.fieldsz| - 1 else 1
  }

  ghost function LastTables(pf: Form): Pgt { Pgt(FullAddr(0, KvAddr), 0, pf, KPhysAddr) }

  lemma LastEntry(pf: Form, space: Space, a: Addr)
    requires pf.Wf() && pf.fmt == Arm && |pf.fieldsz| > 1
    ensures var r := LastLevel(pf, space);
            var d := Entry(LastTables(pf), Last(pf), FullAddr(0, space), r, a);
      if Field(pf.fieldsz, a, r) + 1 != Pow2(pf.fieldsz[r]) then d == Failed(NotPresent)
      else if r > 1 then d == Table(0) else d.Leaf?
  {
    var r := LastLevel(pf, space);
    EntryFits(pf, a, r);
    ArmEntryAt(LastTables(pf), FullAddr(0, space), r, a);
    LastDecoded(pf, EntryAt(LastTables(pf), FullAddr(0, space), r, a), r);
    hide EntryAt, Decode, Field, Pow2;
  }

  lemma LastDecoded(pf: Form, at: FullAddr, r: nat)
    requires pf.fmt == Arm && |pf.fieldsz| > 1 && r == LastLevel(pf, at.space)
    ensures var d := Decode(LastTables(pf), Last(pf), at, r);
      if at.addr + 4 != 4 * Pow2(pf.fieldsz[r]) then d == Failed(NotPresent)
      else if r > 1 then d == Table(0) else d.Leaf?
  {
    hide DecodeArm, AndNot, Pow2;
    ArmEntries(r);
    ArmLink(r, 0);
  }

  lemma LastWalk(pf: Form, a: Addr)
    requires pf.Wf() && pf.fmt == Arm && 1 < |pf.fieldsz| <= 3
    ensures Is(Fulls(pf.fieldsz, a, |pf.fieldsz|), LastTables(pf), Last(pf), LastTables(pf).root, |pf.fieldsz|, a)
  {
    var n, p, mem := |pf.fieldsz|, LastTables(pf), Last(pf);
    var present := Fulls(pf.fieldsz, a, n);
    hide Entry, Field, Is, Pow2, Last;
    LastEntry(pf, KvAddr, a);
    FirstStep(present, p, mem, p.root, n, a);
    if n == 3 {
      LastEntry(pf, KPhysAddr, a);
      FirstStep(present, p, mem, FullAddr(0, KPhysAddr), 2, a);
    }
  }

  /** The first page behind which a search downwards never needs to stop is the last one of the
      block.  Short descriptors have tables of at most two levels. */
  lemma ArmHighestMappedIff(pf: Form, high: Addr, limit: Addr)
    requires pf.Wf() && pf.fmt == Arm && |pf.fieldsz| <= 3
    ensures (forall p: Pgt :: p.pf == pf && p.root.space != NoAddr ==> RightDown(p, high, limit))
       <==> limit >= Start(pf.fieldsz, high, |pf.fieldsz|) || LastPage(pf.fieldsz, high)
  {
    var f, n := pf.fieldsz, |pf.fieldsz|;
    forall p: Pgt | p.pf == pf && p.root.space != NoAddr && (limit >= Start(f, high, n) || LastPage(f, high))
      ensures RightDown(p, high, limit)
    {
      WithinHalf(true, p, high, limit);
      hide RightDown;
      if LastPage(f, high) { LastPageRight(p, high, limit); }
    }
    if limit < Start(f, high, n) && !LastPage(f, high) {
      ArmMissesDown(pf, high, limit);
      WrongIsNotRight(true, LastTables(pf), Last(pf), high, limit);
      hide RightDown;
      assert !RightDown(LastTables(pf), high, limit);
    }
  }

  lemma ArmMissesDown(pf: Form, high: Addr, limit: Addr)
    requires pf.Wf() && pf.fmt == Arm && |pf.fieldsz| <= 3
    requires limit < Start(pf.fieldsz, high, |pf.fieldsz|) && !LastPage(pf.fieldsz, high)
    ensures WrongDown(LastTables(pf), Last(pf), high, limit)
  {
    var f, n, p := pf.fieldsz, |pf.fieldsz|, LastTables(pf);
    var start := Start(f, high, n);
    var before: Addr := start - 1;
    hide Walk, Field, Last;
    forall a: Addr | start <= a <= high ensures Is(false, p, Last(pf), p.root, n, a) {
      LastWalk(pf, a);
      FullIndices(f, a, n);
      NotLast(f, high, a);
    }
    BlockBefore(f, high);
    LastWalk(pf, before);
    ArmMaps(false, p, Last(pf), before);
    assert Is(true, p, Last(pf), p.root, n, before);
    MissedDown(p, Last(pf), high, limit, before);
  }

  lemma NotLast(f: seq<nat>, high: nat, a: nat)
    requires |f| > 0 && Start(f, high, |f|) <= a <= high && !LastPage(f, high)
    ensures !LastPage(f, a)
  {
    InOwnBlock(f, high, |f|);
    InBlock(f, high, a, |f|);
    BlocksNest(f, high, 1, |f|);
    InOwnBlock(f, high, 1);
    InOwnBlock(f, a, 1);
    if LastPage(f, a) && a >= Start(f, high, 1) { InBlock(f, high, a, 1); }
    hide Span;
  }

  /** The block before ends with its last page. */
  lemma BlockBefore(f: seq<nat>, high: nat)
    requires |f| > 0 && Start(f, high, |f|) > 0
    ensures Fulls(f, Start(f, high, |f|) - 1, |f|)
  {
    var q, s := high / Span(f, |f|), Span(f, |f|);
    DivMod(high, s);
    forall i | 0 < i < |f| ensures Field(f, Start(f, high, |f|) - 1, i) + 1 == Pow2(f[i]) {
      FieldAtEnd(f, Start(f, high, |f|) - 1, |f|, q, i);
    }
  }
}
