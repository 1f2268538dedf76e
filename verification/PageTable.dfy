/** Page tables: what the formats mean (`src/addrxlat/step.c`, `x86_64.c`, `riscv64.c`,
    `arm.c`).  A walk is described here table by table; `Steps` shows that the step
    machine of the source does the same. */
module PageTable {
  import AddrMap
  import opened Bits

  type Addr = AddrMap.Addr

  const ADDR_SPAN: nat := AddrMap.ADDR_SPAN

  /** `addrxlat_addrspace_t` */
  datatype Space = KPhysAddr | MachPhysAddr | KvAddr | NoAddr

  /** `addrxlat_fulladdr_t` */
  datatype FullAddr = FullAddr(addr: Addr, space: Space)

  /** The page table formats that are modelled. */
  datatype Format = X86_64 | RiscV64 | Arm

  /** `addrxlat_paging_form_t` */
  datatype Form = Form(fmt: Format, fieldsz: seq<nat>) {
    predicate Wf() {
      && 0 < |fieldsz| <= 8 && (forall i :: 0 <= i < |fieldsz| ==> fieldsz[i] > 0)
      && Width(fieldsz, |fieldsz|) < 64
      && (fmt == Arm ==> forall i :: 0 < i < |fieldsz| ==> fieldsz[i] >= 4)
    }
  }

  /** `addrxlat_param_pgt_t` with the target address space of the method. */
  datatype Pgt = Pgt(root: FullAddr, mask: Addr, pf: Form, target: Space)

  type Word = n: int | 0 <= n < 0x1_0000_0000

  /** `addrxlat_status`; `Diverged` is not a status of the source, it stands for a
      translation that has not come to an end. */
  datatype Status = Ok | NotImpl | NotPresent | Invalid | NoData | NoMeth | Diverged

  type Error = s: Status | s != Ok witness NoData

  datatype Read<+T> = Got(value: T) | Lost(error: Error)

  /** What `read32` and `read64` find at an address. */
  datatype Memory = Memory(read32: FullAddr -> Read<Word>, read64: FullAddr -> Read<Addr>)

  // ---------------------------------------------------------------------------
  // Fields of an address

  /** Number of address bits below field `i`. */
  function Width(f: seq<nat>, i: nat): nat
    requires i <= |f|
  {
    if i == 0 then 0 else Width(f, i - 1) + f[i - 1]
  }

  /** Number of addresses spanned by an entry of a table at level `i`. */
  function Span(f: seq<nat>, i: nat): (s: nat)
    requires i <= |f|
    ensures s > 0
  {
    Pow2(Width(f, i))
  }

  function Field(f: seq<nat>, a: nat, i: nat): nat
    requires i < |f|
  {
    (a / Span(f, i)) % Pow2(f[i])
  }

  lemma SpanStep(f: seq<nat>, i: nat)
    requires i < |f|
    ensures Span(f, i + 1) == Span(f, i) * Pow2(f[i])
  {
    Pow2Sum(Width(f, i), f[i]);
  }

  lemma {:induction false} WidthGrows(f: seq<nat>, i: nat, j: nat)
    requires i <= j <= |f|
    ensures Width(f, i) <= Width(f, j)
  {
    if i == j {
    } else {
      WidthGrows(f, i, j - 1);
    }
  }

  lemma SpanSmall(pf: Form, i: nat)
    requires pf.Wf() && i <= |pf.fieldsz|
    ensures 2 * Span(pf.fieldsz, i) <= ADDR_SPAN
    ensures i < |pf.fieldsz| ==> Pow2(pf.fieldsz[i]) <= ADDR_SPAN
  {
    WidthGrows(pf.fieldsz, i, |pf.fieldsz|);
    Pow2Grows(Width(pf.fieldsz, i), 63);
    assert Pow2(63) * 2 == ADDR_SPAN by { Pow2Of63(); }
    if i < |pf.fieldsz| {
      WidthGrows(pf.fieldsz, i + 1, |pf.fieldsz|);
      Pow2Grows(pf.fieldsz[i], 63);
    }
  }

  lemma Pow2Of63()
    ensures Pow2(63) == 0x8000_0000_0000_0000
  {
    hide Pow2;
    Pow2OfSeven();
    Squared(7, 128);
    Squared(15, 32768);
    Squared(31, 0x8000_0000);
  }

  lemma Pow2OfSeven()
    ensures Pow2(7) == 128
  {
  }

  lemma Squared(k: nat, p: nat)
    requires Pow2(k) == p
    ensures Pow2(2 * k + 1) == 2 * p * p
  {
    Pow2Sum(k, k);
  }

  // ---------------------------------------------------------------------------
  // Entries

  /** What a table entry says: where the next table or page is, or where a larger page
      is, which takes `extra` more address bits than the entry spans. */
  datatype Decoded = Table(base: Addr) | Leaf(base: Addr, extra: nat) | Failed(status: Status)

  /** `PTE_VAL` */
  function PteVal(pte: nat, shift: nat, bits: nat): nat {
    Low(High(pte, shift), bits)
  }

  /** `pgt_x86_64`; the tables are those of section 4.5 of the Intel SDM, volume 3A. */
  function DecodeX86(remain: nat, pte: Addr): Decoded {
    var addr := Low(pte, 52);
    if PteVal(pte, 0, 1) == 0 then Failed(NotPresent)
    else if remain == 3 && PteVal(pte, 7, 1) != 0 then Leaf(Clear(addr, 30), 0)
    else if remain == 2 && PteVal(pte, 7, 1) != 0 then Leaf(Clear(addr, 21), 0)
    else Table(Clear(addr, 12))
  }

  /** `pgt_riscv64`; section 4.4 of the RISC-V privileged architecture, version 1.12. */
  function DecodeRiscV(f: seq<nat>, remain: nat, pte: Addr): Decoded
    requires remain < |f|
  {
    var addr := Shl(PteVal(pte, 10, 44), 12);
    if PteVal(pte, 0, 1) == 0 then Failed(NotPresent)
    else
      PpnBound(pte);
      if remain > 1 && PteVal(pte, 1, 3) != 0 then Leaf(Clear(addr, Width(f, remain)), 0)
      else if remain == 1 && PteVal(pte, 1, 3) == 0 then Failed(Invalid)
      else Table(Clear(addr, 12))
  }

  lemma PpnBound(pte: Addr)
    ensures Shl(PteVal(pte, 10, 44), 12) < ADDR_SPAN
  {
    ShiftBound(PteVal(pte, 10, 44), 44, 12);
  }

  lemma ShiftBound(n: nat, bits: nat, shift: nat)
    requires n < Pow2(bits) && bits + shift <= 63
    ensures Shl(n, shift) < Pow2(bits + shift) <= ADDR_SPAN
  {
    Pow2Sum(bits, shift);
    Pow2Grows(bits + shift, 63);
    Pow2Of63();
    MulLess(n, Pow2(bits), Pow2(shift));
    hide Pow2;
  }

  /** `pgt_arm`; section B3.5 of the ARMv7-A architecture reference manual. */
  function DecodeArm(remain: nat, pte: Word): Decoded {
    var kind := PteVal(pte, 0, 2);
    if kind == 0 then Failed(NotPresent)
    else if remain > 1 then
      if kind == 1 then Table(Clear(pte, 10))
      else if PteVal(pte, 18, 1) != 0 then
        Leaf(SupersectionBase(pte), 4)
      else Leaf(Clear(pte, 20), 0)
    else if kind == 1 then Leaf(Clear(pte, 16), 4)
    else Table(Clear(pte, 12))
  }

  lemma SupersectionBound(pte: Word)
    ensures Clear(pte, 24) + Shl(PteVal(pte, 20, 4), 32) + Shl(PteVal(pte, 5, 4), 36) < ADDR_SPAN
  {
    ShiftBound(PteVal(pte, 20, 4), 4, 32);
    ShiftBound(PteVal(pte, 5, 4), 4, 36);
    Pow2Grows(36, 60);
    Pow2Grows(40, 60);
    Pow2Grows(60, 63);
    Pow2Of63();
    hide PteVal, Clear, Pow2;
  }

  /** The parts do not overlap, so adding them is the `|` of the source. */
  function SupersectionBase(pte: Word): Addr {
    SupersectionBound(pte);
    Clear(pte, 24) + Shl(PteVal(pte, 20, 4), 32) + Shl(PteVal(pte, 5, 4), 36)
  }

  function EntrySize(fmt: Format): nat { if fmt == Arm then 4 else 8 }

  /** The entry at `at`, in a table whose entries span `Span(remain)`. */
  function Decode(p: Pgt, mem: Memory, at: FullAddr, remain: nat): Decoded
    requires remain < |p.pf.fieldsz|
  {
    if p.pf.fmt == Arm then
      match mem.read32(at)
      case Lost(error) => Failed(error)
      case Got(pte) => DecodeArm(remain, AndNot(pte, p.mask))
    else
      match mem.read64(at)
      case Lost(error) => Failed(error)
      case Got(pte) =>
        if p.pf.fmt == X86_64 then DecodeX86(remain, AndNot(pte, p.mask))
        else DecodeRiscV(p.pf.fieldsz, remain, AndNot(pte, p.mask))
  }

  /** The entry for `a` of the table at `base`. */
  function Entry(p: Pgt, mem: Memory, base: FullAddr, remain: nat, a: Addr): Decoded
    requires remain < |p.pf.fieldsz|
  {
    Decode(p, mem, EntryAt(p, base, remain, a), remain)
  }

  /** Where that entry is. */
  function EntryAt(p: Pgt, base: FullAddr, remain: nat, a: Addr): FullAddr
    requires remain < |p.pf.fieldsz|
  {
    base.(addr := (base.addr + Field(p.pf.fieldsz, a, remain) * EntrySize(p.pf.fmt)) % ADDR_SPAN)
  }

  /** The address at offset `off` of a page. */
  function InPage(p: Pgt, page: Addr, off: nat): FullAddr {
    FullAddr((page + off) % ADDR_SPAN, p.target)
  }

  /** The offset of `a` into a page that spans an entry at level `i`, and `extra` more
      address bits. */
  function Offset(f: seq<nat>, a: nat, i: nat, extra: nat): (off: nat)
    requires i <= |f|
  {
    Low(a, Width(f, i) + extra)
  }

  datatype Result = Success(to: FullAddr) | Failure(status: Status)

  /** The walk for `a` from the table (or page, for `level` 1) at `base` on: a page
      contributes its base and the offset of `a` into it. */
  function Walk(p: Pgt, mem: Memory, base: FullAddr, level: nat, a: Addr): Result
    requires 0 < level <= |p.pf.fieldsz|
    decreases level
  {
    var f := p.pf.fieldsz;
    if level == 1 then Success(InPage(p, base.addr, Offset(f, a, 1, 0)))
    else
      match Entry(p, mem, base, level - 1, a)
      case Table(next) => Walk(p, mem, FullAddr(next, p.target), level - 1, a)
      case Leaf(page, extra) =>
        Success(InPage(p, page, Offset(f, a, level - 1, extra)))
      case Failed(status) => Failure(status)
  }

  /** `a` is the sign extension of the bits that are used for the walk. */
  predicate SignExtended(f: seq<nat>, a: Addr)
    requires |f| > 0
  {
    var low, half := a % Span(f, |f|), Span(f, |f|) / 2;
    a == if low < half then low else low + (ADDR_SPAN - Span(f, |f|))
  }

  /** The whole translation. */
  function Translate(p: Pgt, mem: Memory, a: Addr): Result
    requires p.pf.Wf()
  {
    if p.root.space == NoAddr then Failure(NoData)
    else if p.pf.fmt != Arm && !SignExtended(p.pf.fieldsz, a) then Failure(Invalid)
    else Walk(p, mem, p.root, |p.pf.fieldsz|, a)
  }
}
