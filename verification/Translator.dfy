/** The translation of addresses between address spaces (`addrxlat_op` in
    `src/addrxlat/sys.c`), when page tables may have to be translated themselves before
    they can be read (`read32` and `read64` in `src/addrxlat/ctx.c`). */
module Translator {
  import AddrMap
  import opened Bits
  import opened Options
  import opened PageTable

  // ---------------------------------------------------------------------------
  // Translation systems

  /** `addrxlat_sys_map_t` */
  datatype MapIdx = HW | KvPhys | KPhysDirect | MachPhysKPhys | KPhysMachPhys

  /** `map_expect_as` */
  function Expects(m: MapIdx): Space {
    match m
    case HW => KvAddr
    case KvPhys => KvAddr
    case KPhysDirect => KPhysAddr
    case MachPhysKPhys => MachPhysAddr
    case KPhysMachPhys => KPhysAddr
  }

  datatype LookupElem = LookupElem(orig: Addr, dest: Addr)

  /** `addrxlat_meth_t`, without custom methods */
  datatype Meth =
    | NoMethod
    | Linear(off: Addr, target: Space)
    | Tables(pgt: Pgt)
    | Lookup(tbl: seq<LookupElem>, endoff: Addr, target: Space)
    | MemArr(base: FullAddr, shift: nat, elemsz: nat, valsz: nat, target: Space)
  {
    predicate Wf() {
      && (Tables? ==> pgt.pf.Wf())
      && (MemArr? ==> shift < 64)
    }
  }

  /** `addrxlat_sys_t`; a missing map is an empty one. */
  datatype Sys = Sys(maps: MapIdx -> seq<AddrMap.Range>, meths: seq<Meth>) {
    predicate Wf() {
      forall i :: 0 <= i < |meths| ==> meths[i].Wf()
    }

    /** The method that a map selects. */
    function Select(m: MapIdx, addr: Addr): (r: Option<Meth>)
      requires Wf()
      ensures r.Some? ==> r.value.Wf()
    {
      var i := AddrMap.Search(maps(m), addr);
      if i == AddrMap.METH_NONE then None else if 0 <= i < |meths| then Some(meths[i]) else Some(NoMethod)
    }
  }

  /** The chains of `addrxlat_op`. */
  datatype Chain = Kv2Phys | KPhys2MachPhys | KPhys2Direct | KPhys2Any | MachPhys2Direct

  function Alternatives(c: Chain): seq<seq<MapIdx>> {
    match c
    case Kv2Phys => [[KvPhys, HW], [MachPhysKPhys, KPhysMachPhys]]
    case KPhys2MachPhys => [[KPhysMachPhys]]
    case KPhys2Direct => [[KPhysDirect]]
    case KPhys2Any => [[KPhysMachPhys, KPhysDirect]]
    case MachPhys2Direct => [[MachPhysKPhys], [KPhysDirect]]
  }

  /** `addrxlat_ctx_t` together with the system in use: which spaces the read callback
      serves, and what it reads there. */
  datatype Ctx = Ctx(readCaps: set<Space>, mem: Memory, sys: Sys) {
    ghost predicate Wf() {
      && sys.Wf()
      && (forall a :: mem.read32(a) != Lost(Diverged))
      && (forall a :: mem.read64(a) != Lost(Diverged))
    }
  }

  // ---------------------------------------------------------------------------
  // One method, one chain

  /** `first_step_lookup` */
  function LookupFrom(m: Meth, addr: Addr, i: nat): Result
    requires m.Lookup? && i <= |m.tbl|
    decreases |m.tbl| - i
  {
    if i == |m.tbl| then Failure(NotPresent)
    else if m.tbl[i].orig <= addr <= (m.tbl[i].orig + m.endoff) % ADDR_SPAN then
      Success(FullAddr((m.tbl[i].dest + addr - m.tbl[i].orig) % ADDR_SPAN, m.target))
    else LookupFrom(m, addr, i + 1)
  }

  /** `first_step_memarr` and `next_step_memarr` */
  function MemArrWalk(m: Meth, mem: Memory, addr: Addr): Result
    requires m.MemArr? && m.Wf()
  {
    var at := m.base.(addr := (m.base.addr + High(addr, m.shift) * m.elemsz) % ADDR_SPAN);
    var off := Low(addr, m.shift);
    if m.valsz == 4 then
      match mem.read32(at)
      case Lost(error) => Failure(error)
      case Got(val) => Success(FullAddr((Shl(val, m.shift) + off) % ADDR_SPAN, m.target))
    else if m.valsz == 8 then
      match mem.read64(at)
      case Lost(error) => Failure(error)
      case Got(val) => Success(FullAddr((Shl(val, m.shift) + off) % ADDR_SPAN, m.target))
    else Failure(NotImpl)
  }

  /** An address in the block that an element maps. */
  predicate Inside(e: LookupElem, endoff: Addr, addr: Addr) {
    e.orig <= addr <= (e.orig + endoff) % ADDR_SPAN
  }

  /** The first element around an address decides, and keeps the offset from where it begins. */
  lemma {:induction false} LookupIs(m: Meth, addr: Addr, i: nat, k: nat)
    requires m.Lookup? && i <= k <= |m.tbl| && forall j :: i <= j < k ==> !Inside(m.tbl[j], m.endoff, addr)
    requires k < |m.tbl| ==> Inside(m.tbl[k], m.endoff, addr)
    ensures LookupFrom(m, addr, i) ==
            if k == |m.tbl| then Failure(NotPresent)
            else Success(FullAddr((m.tbl[k].dest + (addr - m.tbl[k].orig)) % ADDR_SPAN, m.target))
    decreases k - i
  {
    if i == k {
    } else {
      LookupIs(m, addr, i + 1, k);
    }
  }

  /** An array of 32-bit or 64-bit page numbers, for pages of `2^shift` addresses: the number found for
      the page of an address, with the offset into the page. */
  lemma MemArrIs(m: Meth, mem: Memory, addr: Addr)
    requires m.MemArr? && m.Wf()
    ensures var at := FullAddr((m.base.addr + addr / Pow2(m.shift) * m.elemsz) % ADDR_SPAN, m.base.space);
            MemArrWalk(m, mem, addr) ==
              match m.valsz
              case 4 =>
                (match mem.read32(at)
                 case Lost(error) => Failure(error)
                 case Got(val) => Success(InArray(m, val, addr)))
              case 8 =>
                (match mem.read64(at)
                 case Lost(error) => Failure(error)
                 case Got(val) => Success(InArray(m, val, addr)))
              case _ => Failure(NotImpl)
  {
    hide High, Low, Shl, Pow2;
    AddressParts(addr, m.shift);
    var at := FullAddr((m.base.addr + addr / Pow2(m.shift) * m.elemsz) % ADDR_SPAN, m.base.space);
    if m.valsz == 4 && mem.read32(at).Got? { ShiftedUp(mem.read32(at).value, m.shift); }
    if m.valsz == 8 && mem.read64(at).Got? { ShiftedUp(mem.read64(at).value, m.shift); }
  }

  /** The address in the page with number `val`, at the offset of `addr`. */
  function InArray(m: Meth, val: nat, addr: Addr): FullAddr
    requires m.MemArr?
  {
    FullAddr((val * Pow2(m.shift) + addr % Pow2(m.shift)) % ADDR_SPAN, m.target)
  }

  lemma AddressParts(a: nat, k: nat)
    ensures High(a, k) == a / Pow2(k) && Low(a, k) == a % Pow2(k)
  {
    hide Pow2;
  }

  lemma ShiftedUp(a: nat, k: nat)
    ensures Shl(a, k) == a * Pow2(k)
  {
    hide Pow2;
  }

  /** `addrxlat_walk`, with `mem` for the reads */
  function MethWalk(m: Meth, mem: Memory, addr: Addr): Result
    requires m.Wf()
  {
    match m
    case NoMethod => Failure(NoMeth)
    case Linear(off, target) => Success(FullAddr((addr + off) % ADDR_SPAN, target))
    case Tables(pgt) => Translate(pgt, mem, addr)
    case Lookup(_, _, _) => LookupFrom(m, addr, 0)
    case MemArr(_, _, _, _, _) => MemArrWalk(m, mem, addr)
  }

  /** What the alternatives at one place of a chain do to an address. */
  datatype Hop = Moved(to: FullAddr) | Nowhere | Stopped(status: Error)

  function TryAlternatives(sys: Sys, mem: Memory, fa: FullAddr, alts: seq<MapIdx>, j: nat): Hop
    requires sys.Wf() && j <= |alts|
    decreases |alts| - j
  {
    if j == |alts| then Nowhere
    else if fa.space != Expects(alts[j]) then TryAlternatives(sys, mem, fa, alts, j + 1)
    else
      match sys.Select(alts[j], fa.addr)
      case None => TryAlternatives(sys, mem, fa, alts, j + 1)
      case Some(meth) =>
        match MethWalk(meth, mem, fa.addr)
        case Success(to) => Moved(to)
        case Failure(status) =>
          if status == NoMeth || status == NoData || status == Ok then TryAlternatives(sys, mem, fa, alts, j + 1)
          else Stopped(status)
  }

  /** Where an operation is done, or why it is not. */
  datatype Resolution = Reached(at: FullAddr) | Unresolved(status: Error)

  /** `do_op` */
  function FollowChain(sys: Sys, mem: Memory, caps: set<Space>, fa: FullAddr, chain: seq<seq<MapIdx>>,
                       i: nat): Resolution
    requires sys.Wf() && i <= |chain|
    decreases |chain| - i
  {
    if i == |chain| then Unresolved(NoMeth)
    else
      match TryAlternatives(sys, mem, fa, chain[i], 0)
      case Nowhere => FollowChain(sys, mem, caps, fa, chain, i + 1)
      case Stopped(status) => Unresolved(status)
      case Moved(to) => if to.space in caps then Reached(to) else FollowChain(sys, mem, caps, to, chain, i + 1)
  }

  /** How `addrxlat_op` begins. */
  datatype Plan = Direct | Impossible(status: Error) | Along(chain: Chain)

  function PlanFor(caps: set<Space>, space: Space): Plan {
    if space in caps then Direct
    else if KvAddr !in caps && KPhysAddr !in caps && MachPhysAddr !in caps then Impossible(NoMeth)
    else
      match space
      case KvAddr => Along(Kv2Phys)
      case KPhysAddr =>
        Along(if MachPhysAddr !in caps then KPhys2Direct else if KvAddr in caps then KPhys2Any else KPhys2MachPhys)
      case MachPhysAddr => Along(MachPhys2Direct)
      case NoAddr => Impossible(NotImpl)
  }

  /** A read, given where it is done. */
  function Fetch<T>(r: Resolution, read: FullAddr -> Read<T>): Read<T> {
    match r
    case Reached(at) => read(at)
    case Unresolved(status) => Lost(status)
  }

  // ---------------------------------------------------------------------------
  // The guarded translation

  /** `struct inflight` */
  datatype InFlight = InFlight(fa: FullAddr, chain: Chain)

  ghost function Universe(): set<InFlight> {
    set a: Addr, s: Space, c: Chain | 0 <= a < ADDR_SPAN :: InFlight(FullAddr(a, s), c)
  }

  lemma InUniverse(x: InFlight)
    ensures x in Universe()
  {
    var a, s, c := x.fa.addr, x.fa.space, x.chain;
    assert InFlight(FullAddr(a, s), c) in Universe();
  }

  ghost function UnderWay(s: seq<InFlight>): set<InFlight> { set x | x in s }

  /** The translations that are not under way yet; there is always one less when another
      one begins. */
  ghost function Remaining(inflight: seq<InFlight>): set<InFlight> { Universe() - UnderWay(inflight) }

  lemma RemainingShrinks(inflight: seq<InFlight>, x: InFlight)
    requires x !in inflight
    ensures Remaining(inflight + [x]) < Remaining(inflight)
  {
    InUniverse(x);
    assert x in Remaining(inflight) && x !in Remaining(inflight + [x]);
  }

  /** `addrxlat_op` up to the callback, with `inflight` under way */
  ghost function Guarded(c: Ctx, caps: set<Space>, fa: FullAddr, inflight: seq<InFlight>): Resolution
    requires c.Wf()
    decreases Remaining(inflight), 0
  {
    match PlanFor(caps, fa.space)
    case Direct => Reached(fa)
    case Impossible(status) => Unresolved(status)
    case Along(chain) =>
      var x := InFlight(fa, chain);
      if x in inflight then Unresolved(NoMeth)
      else
        RemainingShrinks(inflight, x);
        FollowChain(c.sys, GuardedMemory(c, inflight + [x]), caps, fa, Alternatives(chain), 0)
  }

  /** What `read32` and `read64` find: the address is translated first, for the read
      callback, unless that needs no translation. */
  ghost function GuardedMemory(c: Ctx, inflight: seq<InFlight>): Memory
    requires c.Wf()
    decreases Remaining(inflight), 1
  {
    Memory(a => Fetch(Guarded(c, c.readCaps, a, inflight), c.mem.read32),
           a => Fetch(Guarded(c, c.readCaps, a, inflight), c.mem.read64))
  }

  // ---------------------------------------------------------------------------
  // The same without a guard

  /** `addrxlat_op` without its list of translations under way, for at most `fuel` nested
      calls; `Diverged` when that is not enough. */
  ghost function Unguarded(c: Ctx, caps: set<Space>, fa: FullAddr, fuel: nat): Resolution
    requires c.Wf()
    decreases fuel, 0
  {
    match PlanFor(caps, fa.space)
    case Direct => Reached(fa)
    case Impossible(status) => Unresolved(status)
    case Along(chain) =>
      if fuel == 0 then Unresolved(Diverged)
      else FollowChain(c.sys, UnguardedMemory(c, fuel - 1), caps, fa, Alternatives(chain), 0)
  }

  ghost function UnguardedMemory(c: Ctx, fuel: nat): Memory
    requires c.Wf()
    decreases fuel, 1
  {
    Memory(a => Fetch(Unguarded(c, c.readCaps, a, fuel), c.mem.read32),
           a => Fetch(Unguarded(c, c.readCaps, a, fuel), c.mem.read64))
  }

  // ---------------------------------------------------------------------------
  // Memories that agree

  /** What `m` finds out, `n` finds out too. */
  ghost predicate Agree(m: Memory, n: Memory) {
    && (forall a :: m.read32(a) != Lost(Diverged) ==> n.read32(a) == m.read32(a))
    && (forall a :: m.read64(a) != Lost(Diverged) ==> n.read64(a) == m.read64(a))
  }

  lemma {:induction false} WalkAgrees(p: Pgt, m: Memory, n: Memory, base: FullAddr, level: nat, a: Addr)
    requires 0 < level <= |p.pf.fieldsz| && Agree(m, n)
    ensures Walk(p, m, base, level, a) in {Failure(Diverged), Walk(p, n, base, level, a)}
    decreases level
  {
    if level <= 1 {
    } else {
      EntryAgrees(p, m, n, base, level - 1, a);
      var d := Entry(p, m, base, level - 1, a);
      if d.Table? {
        WalkAgrees(p, m, n, FullAddr(d.base, p.target), level - 1, a);
      }
    }
  }

  lemma EntryAgrees(p: Pgt, m: Memory, n: Memory, base: FullAddr, r: nat, a: Addr)
    requires r < |p.pf.fieldsz| && Agree(m, n)
    ensures Entry(p, m, base, r, a) in {Failed(Diverged), Entry(p, n, base, r, a)}
  {
    hide DecodeArm, DecodeX86, DecodeRiscV;
  }

  lemma MethAgrees(meth: Meth, m: Memory, n: Memory, a: Addr)
    requires meth.Wf() && Agree(m, n)
    ensures MethWalk(meth, m, a) in {Failure(Diverged), MethWalk(meth, n, a)}
  {
    match meth
    case NoMethod =>
    case Linear(_, _) =>
    case Tables(p) => WalkAgrees(p, m, n, p.root, |p.pf.fieldsz|, a);
    case Lookup(_, _, _) =>
    case MemArr(_, _, _, _, _) =>
  }

  lemma {:induction false} TryAgrees(sys: Sys, m: Memory, n: Memory, fa: FullAddr, alts: seq<MapIdx>, j: nat)
    requires sys.Wf() && j <= |alts| && Agree(m, n)
    ensures TryAlternatives(sys, m, fa, alts, j) in {Stopped(Diverged), TryAlternatives(sys, n, fa, alts, j)}
    decreases |alts| - j
  {
    if j == |alts| {
    } else {
      TryAgrees(sys, m, n, fa, alts, j + 1);
      var meth := sys.Select(alts[j], fa.addr);
      if meth.Some? { MethAgrees(meth.value, m, n, fa.addr); }
    }
  }

  lemma {:induction false} FollowAgrees(sys: Sys, m: Memory, n: Memory, caps: set<Space>, fa: FullAddr,
                                        chain: seq<seq<MapIdx>>, i: nat)
    requires sys.Wf() && i <= |chain| && Agree(m, n)
    ensures FollowChain(sys, m, caps, fa, chain, i) in {Unresolved(Diverged), FollowChain(sys, n, caps, fa, chain, i)}
    decreases |chain| - i
  {
    if i == |chain| {
    } else {
      TryAgrees(sys, m, n, fa, chain[i], 0);
      match TryAlternatives(sys, m, fa, chain[i], 0)
      case Nowhere => FollowAgrees(sys, m, n, caps, fa, chain, i + 1);
      case Stopped(_) =>
      case Moved(to) => FollowAgrees(sys, m, n, caps, to, chain, i + 1);
    }
  }

  // ---------------------------------------------------------------------------
  // The guard is harmless

  ghost predicate Ends(c: Ctx, caps: set<Space>, fa: FullAddr, fuel: nat)
    requires c.Wf()
  {
    Unguarded(c, caps, fa, fuel) != Unresolved(Diverged)
  }

  /** More fuel changes nothing once a translation ends. */
  lemma {:induction false} OneMore(c: Ctx, caps: set<Space>, fa: FullAddr, fuel: nat)
    requires c.Wf() && Ends(c, caps, fa, fuel)
    ensures Unguarded(c, caps, fa, fuel + 1) == Unguarded(c, caps, fa, fuel)
    decreases fuel
  {
    if PlanFor(caps, fa.space).Along? {
      var m, n := UnguardedMemory(c, fuel - 1), UnguardedMemory(c, fuel);
      forall a
        ensures m.read32(a) != Lost(Diverged) ==> n.read32(a) == m.read32(a)
        ensures m.read64(a) != Lost(Diverged) ==> n.read64(a) == m.read64(a)
      {
        if Ends(c, c.readCaps, a, fuel - 1) { OneMore(c, c.readCaps, a, fuel - 1); }
      }
      FollowAgrees(c.sys, m, n, caps, fa, Alternatives(PlanFor(caps, fa.space).chain), 0);
    }
  }

  /** A translation under way that will not end within `fuel`, should it be asked for
      again to read something. */
  ghost predicate Endless(c: Ctx, x: InFlight, fuel: nat)
    requires c.Wf()
  {
    PlanFor(c.readCaps, x.fa.space) == Along(x.chain) ==> !Ends(c, c.readCaps, x.fa, fuel)
  }

  lemma ReadsAgree(c: Ctx, fuel: nat, inflight: seq<InFlight>)
    requires c.Wf()
    requires forall a :: Ends(c, c.readCaps, a, fuel) ==>
               Guarded(c, c.readCaps, a, inflight) == Unguarded(c, c.readCaps, a, fuel)
    ensures Agree(UnguardedMemory(c, fuel), GuardedMemory(c, inflight))
  {
    hide Guarded, Unguarded;
    var m, n := UnguardedMemory(c, fuel), GuardedMemory(c, inflight);
    forall a
      ensures m.read32(a) != Lost(Diverged) ==> n.read32(a) == m.read32(a)
      ensures m.read64(a) != Lost(Diverged) ==> n.read64(a) == m.read64(a)
    {
      assert Ends(c, c.readCaps, a, fuel) || Unguarded(c, c.readCaps, a, fuel) == Unresolved(Diverged);
    }
  }

  /** Reads whose translation ends are not disturbed by the guard: what is under way is
      not asked for again. */
  lemma {:induction false} GuardHarmless(c: Ctx, fa: FullAddr, fuel: nat, inflight: seq<InFlight>)
    requires c.Wf() && Ends(c, c.readCaps, fa, fuel)
    requires forall x :: x in inflight ==> Endless(c, x, fuel)
    ensures Guarded(c, c.readCaps, fa, inflight) == Unguarded(c, c.readCaps, fa, fuel)
    decreases fuel, 0
  {
    var plan := PlanFor(c.readCaps, fa.space);
    if plan.Along? {
      var x := InFlight(fa, plan.chain);
      forall y | y in inflight ensures y != x { assert Endless(c, y, fuel); }
      EndlessBefore(c, inflight, fuel);
      if Ends(c, c.readCaps, fa, fuel - 1) {
        GuardHarmless(c, fa, fuel - 1, inflight);
        OneMore(c, c.readCaps, fa, fuel - 1);
      } else {
        NestedHarmless(c, fuel - 1, inflight + [x]);
        FollowAgrees(c.sys, UnguardedMemory(c, fuel - 1), GuardedMemory(c, inflight + [x]), c.readCaps, fa,
                     Alternatives(plan.chain), 0);
      }
    }
  }

  lemma NestedHarmless(c: Ctx, fuel: nat, inflight: seq<InFlight>)
    requires c.Wf() && forall x :: x in inflight ==> Endless(c, x, fuel)
    ensures Agree(UnguardedMemory(c, fuel), GuardedMemory(c, inflight))
    decreases fuel, 1
  {
    forall a | Ends(c, c.readCaps, a, fuel)
      ensures Guarded(c, c.readCaps, a, inflight) == Unguarded(c, c.readCaps, a, fuel)
    {
      GuardHarmless(c, a, fuel, inflight);
    }
    ReadsAgree(c, fuel, inflight);
  }

  lemma EndlessBefore(c: Ctx, inflight: seq<InFlight>, fuel: nat)
    requires c.Wf() && fuel > 0 && forall x :: x in inflight ==> Endless(c, x, fuel)
    ensures forall x :: x in inflight ==> Endless(c, x, fuel - 1)
  {
    forall x | x in inflight ensures Endless(c, x, fuel - 1) {
      assert Endless(c, x, fuel);
      if Ends(c, c.readCaps, x.fa, fuel - 1) { OneMore(c, c.readCaps, x.fa, fuel - 1); }
    }
  }

  /** So do all further calls. */
  lemma {:induction false} EndsStays(c: Ctx, caps: set<Space>, fa: FullAddr, fuel: nat, more: nat)
    requires c.Wf() && Ends(c, caps, fa, fuel) && fuel <= more
    ensures Unguarded(c, caps, fa, more) == Unguarded(c, caps, fa, fuel)
    decreases more
  {
    if fuel == more {
    } else {
      EndsStays(c, caps, fa, fuel, more - 1);
      OneMore(c, caps, fa, more - 1);
    }
  }

  lemma MoreFuelAgrees(c: Ctx, fuel: nat, more: nat)
    requires c.Wf() && fuel <= more
    ensures Agree(UnguardedMemory(c, fuel), UnguardedMemory(c, more))
  {
    forall a | Ends(c, c.readCaps, a, fuel)
      ensures Unguarded(c, c.readCaps, a, more) == Unguarded(c, c.readCaps, a, fuel)
    {
      EndsStays(c, c.readCaps, a, fuel, more);
    }
    hide Unguarded;
    forall a
      ensures Ends(c, c.readCaps, a, fuel) || Unguarded(c, c.readCaps, a, fuel) == Unresolved(Diverged)
    {
    }
  }

  lemma {:induction false} LeastFuel(c: Ctx, caps: set<Space>, fa: FullAddr, fuel: nat) returns (least: nat)
    requires c.Wf() && Ends(c, caps, fa, fuel)
    ensures Ends(c, caps, fa, least) && (least > 0 ==> !Ends(c, caps, fa, least - 1))
  {
    if fuel == 0 || !Ends(c, caps, fa, fuel - 1) {
      least := fuel;
    } else {
      least := LeastFuel(c, caps, fa, fuel - 1);
    }
  }

  // ---------------------------------------------------------------------------
  // When the guard may give a false alarm

  /** A map from place `i` of a chain on takes addresses in `space`. */
  ghost predicate Takes(chain: seq<seq<MapIdx>>, i: nat, space: Space) {
    exists p, j :: i <= p < |chain| && 0 <= j < |chain[p]| && Expects(chain[p][j]) == space
  }

  /** Reading for the read callback and translating for `caps` begin with the same chain, but
      where the one stops behind its first place the other one goes on. */
  ghost predicate Alarming(readCaps: set<Space>, caps: set<Space>, space: Space) {
    var plan := PlanFor(caps, space);
    && plan.Along? && PlanFor(readCaps, space) == plan
    && exists r :: r in readCaps - caps && Takes(Alternatives(plan.chain), 1, r)
  }

  /** The guard changes no translation that would come to an end without it. */
  ghost predicate Harmless(readCaps: set<Space>, caps: set<Space>, space: Space) {
    forall c: Ctx, addr: Addr, fuel: nat ::
      c.Wf() && c.readCaps == readCaps && Ends(c, caps, FullAddr(addr, space), fuel) ==>
        Guarded(c, caps, FullAddr(addr, space), []) == Unguarded(c, caps, FullAddr(addr, space), fuel)
  }

  lemma {:induction false} NoTaker(sys: Sys, mem: Memory, fa: FullAddr, alts: seq<MapIdx>, j: nat)
    requires sys.Wf() && j <= |alts| && forall k :: j <= k < |alts| ==> Expects(alts[k]) != fa.space
    ensures TryAlternatives(sys, mem, fa, alts, j) == Nowhere
    decreases |alts| - j
  {
    if j == |alts| {
    } else {
      NoTaker(sys, mem, fa, alts, j + 1);
    }
  }

  lemma {:induction false} NotTaken(sys: Sys, mem: Memory, caps: set<Space>, fa: FullAddr, chain: seq<seq<MapIdx>>,
                                    i: nat)
    requires sys.Wf() && i <= |chain| && !Takes(chain, i, fa.space)
    ensures FollowChain(sys, mem, caps, fa, chain, i) == Unresolved(NoMeth)
    decreases |chain| - i
  {
    if i == |chain| {
    } else {
      NoTaker(sys, mem, fa, chain[i], 0);
      NotTaken(sys, mem, caps, fa, chain, i + 1);
    }
  }

  lemma HopsAgree(sys: Sys, m: Memory, n: Memory, g: Memory, fa: FullAddr, alts: seq<MapIdx>)
    requires sys.Wf() && Agree(m, g) && (Agree(m, n) || Agree(n, m))
    requires TryAlternatives(sys, m, fa, alts, 0) != Stopped(Diverged)
    requires TryAlternatives(sys, n, fa, alts, 0) != Stopped(Diverged)
    ensures TryAlternatives(sys, g, fa, alts, 0) == TryAlternatives(sys, n, fa, alts, 0)
         == TryAlternatives(sys, m, fa, alts, 0)
  {
    TryAgrees(sys, m, g, fa, alts, 0);
    if Agree(m, n) { TryAgrees(sys, m, n, fa, alts, 0); } else { TryAgrees(sys, n, m, fa, alts, 0); }
  }

  /** When a chain comes to an end with memory `m` for `readCaps`, and with memory `n` for `caps`,
      then memory `g`, which finds out what `m` does, gives the latter result, too; as long as the
      chain has no use for addresses at which only the reading stops. */
  lemma {:induction false} SameFollow(sys: Sys, m: Memory, n: Memory, g: Memory, readCaps: set<Space>, caps: set<Space>,
                                      fa: FullAddr, chain: seq<seq<MapIdx>>, i: nat)
    requires sys.Wf() && i <= |chain| && Agree(m, g) && (Agree(m, n) || Agree(n, m))
    requires FollowChain(sys, m, readCaps, fa, chain, i) != Unresolved(Diverged)
    requires FollowChain(sys, n, caps, fa, chain, i) != Unresolved(Diverged)
    requires forall r :: r in readCaps - caps ==> !Takes(chain, i + 1, r)
    ensures FollowChain(sys, g, caps, fa, chain, i) == FollowChain(sys, n, caps, fa, chain, i)
    decreases |chain| - i
  {
    if i == |chain| {
    } else {
      HopsAgree(sys, m, n, g, fa, chain[i]);
      forall r | r in readCaps - caps ensures !Takes(chain, i + 2, r) {
        assert !Takes(chain, i + 1, r);
      }
      match TryAlternatives(sys, m, fa, chain[i], 0)
      case Stopped(_) =>
      case Nowhere => SameFollow(sys, m, n, g, readCaps, caps, fa, chain, i + 1);
      case Moved(to) =>
        if to.space in caps {
        } else if to.space in readCaps {
          assert to.space in readCaps - caps;
          NotTaken(sys, g, caps, to, chain, i + 1);
          NotTaken(sys, n, caps, to, chain, i + 1);
        } else {
          SameFollow(sys, m, n, g, readCaps, caps, to, chain, i + 1);
        }
    }
  }

  /** Whenever a translation comes to an end without the guard, it has the same outcome with it,
      unless the capabilities are alarming. */
  lemma GuardTransparent(c: Ctx, caps: set<Space>, fa: FullAddr, fuel: nat)
    requires c.Wf() && Ends(c, caps, fa, fuel) && !Alarming(c.readCaps, caps, fa.space)
    ensures Guarded(c, caps, fa, []) == Unguarded(c, caps, fa, fuel)
  {
    var plan := PlanFor(caps, fa.space);
    if plan.Along? {
      var x := InFlight(fa, plan.chain);
      assert [] + [x] == [x];
      if PlanFor(c.readCaps, fa.space) == plan && exists n :: Ends(c, c.readCaps, fa, n) {
        var n :| Ends(c, c.readCaps, fa, n);
        SameChainHarmless(c, caps, fa, fuel, n);
      } else {
        assert Endless(c, x, fuel - 1);
        NestedHarmless(c, fuel - 1, [x]);
        FollowAgrees(c.sys, UnguardedMemory(c, fuel - 1), GuardedMemory(c, [x]), caps, fa, Alternatives(plan.chain), 0);
      }
    }
  }

  lemma GuardedIs(c: Ctx, caps: set<Space>, fa: FullAddr)
    requires c.Wf() && PlanFor(caps, fa.space).Along?
    ensures var chain := PlanFor(caps, fa.space).chain;
      Guarded(c, caps, fa, [])
      == FollowChain(c.sys, GuardedMemory(c, [InFlight(fa, chain)]), caps, fa, Alternatives(chain), 0)
  {
    var x := InFlight(fa, PlanFor(caps, fa.space).chain);
    assert [] + [x] == [x];
  }

  lemma FuelNeeded(c: Ctx, caps: set<Space>, fa: FullAddr, fuel: nat)
    requires c.Wf() && PlanFor(caps, fa.space).Along? && Ends(c, caps, fa, fuel)
    ensures fuel > 0
    ensures Unguarded(c, caps, fa, fuel)
         == FollowChain(c.sys, UnguardedMemory(c, fuel - 1), caps, fa, Alternatives(PlanFor(caps, fa.space).chain), 0)
    ensures Unguarded(c, caps, fa, fuel) != Unresolved(Diverged)
  {
  }

  lemma SameChain(c: Ctx, caps: set<Space>, fa: FullAddr, chain: Chain, l: nat, f: nat)
    requires c.Wf() && Endless(c, InFlight(fa, chain), l)
    requires FollowChain(c.sys, UnguardedMemory(c, l), c.readCaps, fa, Alternatives(chain), 0) != Unresolved(Diverged)
    requires FollowChain(c.sys, UnguardedMemory(c, f), caps, fa, Alternatives(chain), 0) != Unresolved(Diverged)
    requires forall r :: r in c.readCaps - caps ==> !Takes(Alternatives(chain), 1, r)
    ensures FollowChain(c.sys, GuardedMemory(c, [InFlight(fa, chain)]), caps, fa, Alternatives(chain), 0)
         == FollowChain(c.sys, UnguardedMemory(c, f), caps, fa, Alternatives(chain), 0)
  {
    hide FollowChain, Endless, Unguarded, Guarded, Agree, Alternatives, UnguardedMemory, GuardedMemory;
    NestedHarmless(c, l, [InFlight(fa, chain)]);
    if l <= f { MoreFuelAgrees(c, l, f); } else { MoreFuelAgrees(c, f, l); }
    SameFollow(c.sys, UnguardedMemory(c, l), UnguardedMemory(c, f), GuardedMemory(c, [InFlight(fa, chain)]),
               c.readCaps, caps, fa, Alternatives(chain), 0);
  }

  lemma NotAlarming(readCaps: set<Space>, caps: set<Space>, space: Space, chain: Chain)
    requires PlanFor(caps, space) == PlanFor(readCaps, space) == Along(chain) && !Alarming(readCaps, caps, space)
    ensures forall r :: r in readCaps - caps ==> !Takes(Alternatives(chain), 1, r)
  {
    hide Takes, Alternatives;
  }

  /** The fuel with which a read from `fa` only just ends. */
  lemma LeastReading(c: Ctx, fa: FullAddr, chain: Chain, n: nat) returns (l: nat)
    requires c.Wf() && Ends(c, c.readCaps, fa, n) && PlanFor(c.readCaps, fa.space) == Along(chain)
    ensures Endless(c, InFlight(fa, chain), l)
    ensures FollowChain(c.sys, UnguardedMemory(c, l), c.readCaps, fa, Alternatives(chain), 0) != Unresolved(Diverged)
  {
    var least := LeastFuel(c, c.readCaps, fa, n);
    FuelNeeded(c, c.readCaps, fa, least);
    l := least - 1;
    hide FollowChain, UnguardedMemory, Alternatives, PlanFor;
  }

  lemma SameChainHarmless(c: Ctx, caps: set<Space>, fa: FullAddr, fuel: nat, n: nat)
    requires c.Wf() && Ends(c, caps, fa, fuel) && Ends(c, c.readCaps, fa, n)
    requires PlanFor(caps, fa.space).Along? && PlanFor(c.readCaps, fa.space) == PlanFor(caps, fa.space)
    requires !Alarming(c.readCaps, caps, fa.space)
    ensures Guarded(c, caps, fa, []) == Unguarded(c, caps, fa, fuel)
  {
    hide Guarded, FollowChain, PlanFor, Unguarded, UnguardedMemory, GuardedMemory, Alternatives, Takes, Alarming,
         Endless, Ends;
    var chain := PlanFor(caps, fa.space).chain;
    var l := LeastReading(c, fa, chain, n);
    GuardedIs(c, caps, fa);
    FuelNeeded(c, caps, fa, fuel);
    NotAlarming(c.readCaps, caps, fa.space, chain);
    SameChain(c, caps, fa, chain, l, fuel - 1);
  }

  // ---------------------------------------------------------------------------
  // When it does

  ghost function WholeMap(i: int): seq<AddrMap.Range> { [AddrMap.Range(ADDR_SPAN - 1, i)] }

  /** Three spaces that make a chain go on where reading stops: the space of the address, the
      space where reading stops, and the maps that lead there and on. */
  datatype Detour = Detour(space: Space, stop: Space, first: MapIdx, second: MapIdx, chain: Chain) {
    predicate Wf() {
      || this == Detour(KvAddr, KPhysAddr, KvPhys, KPhysMachPhys, Kv2Phys)
      || this == Detour(KvAddr, MachPhysAddr, KvPhys, MachPhysKPhys, Kv2Phys)
      || this == Detour(MachPhysAddr, KPhysAddr, MachPhysKPhys, KPhysDirect, MachPhys2Direct)
    }
  }

  /** The first map leaves addresses as they are, and the second one is an array that begins at
      address zero of the first space. */
  ghost function ArraySys(d: Detour, target: Space): (sys: Sys)
    ensures sys.Wf()
  {
    Sys(m => if m == d.first then WholeMap(0) else if m == d.second then WholeMap(1) else [],
        [Linear(0, d.stop), MemArr(FullAddr(0, d.space), 12, 8, 8, target)])
  }

  ghost function ArrayCtx(d: Detour, readCaps: set<Space>, target: Space): (c: Ctx)
    ensures c.Wf()
  {
    Ctx(readCaps, Memory(_ => Got(7), _ => Got(7)), ArraySys(d, target))
  }

  lemma ArraySelects(d: Detour, target: Space)
    requires d.Wf()
    ensures ArraySys(d, target).Select(d.first, 0) == Some(Linear(0, d.stop))
    ensures ArraySys(d, target).Select(d.second, 0) == Some(MemArr(FullAddr(0, d.space), 12, 8, 8, target))
  {
  }

  lemma FirstHop(d: Detour, target: Space, mem: Memory)
    requires d.Wf()
    ensures TryAlternatives(ArraySys(d, target), mem, FullAddr(0, d.space), Alternatives(d.chain)[0], 0)
         == Moved(FullAddr(0, d.stop))
  {
    ArraySelects(d, target);
    hide Sys.Select, ArraySys;
    assert Alternatives(d.chain)[0][0] == d.first && Expects(d.first) == d.space;
    assert MethWalk(Linear(0, d.stop), mem, 0) == Success(FullAddr(0, d.stop));
  }

  lemma ElementWalk(d: Detour, target: Space, mem: Memory)
    ensures var w := MethWalk(MemArr(FullAddr(0, d.space), 12, 8, 8, target), mem, 0);
      && (mem.read64(FullAddr(0, d.space)) == Lost(NoMeth) ==> w == Failure(NoMeth))
      && (mem.read64(FullAddr(0, d.space)) == Got(7) ==> w == Success(FullAddr(28672, target)))
  {
    assert Low(0, 12) == 0 && High(0, 12) == 0;
    assert Pow2(12) == 4096;
    assert Shl(7, 12) == 28672;
  }

  lemma DetourHop(d: Detour, target: Space, mem: Memory)
    requires d.Wf()
    ensures var hop := TryAlternatives(ArraySys(d, target), mem, FullAddr(0, d.stop), Alternatives(d.chain)[1], 0);
      && (mem.read64(FullAddr(0, d.space)) == Lost(NoMeth) ==> hop == Nowhere)
      && (mem.read64(FullAddr(0, d.space)) == Got(7) ==> hop == Moved(FullAddr(28672, target)))
  {
    ArraySelects(d, target);
    ElementWalk(d, target, mem);
    var sys, fa, alts := ArraySys(d, target), FullAddr(0, d.stop), Alternatives(d.chain)[1];
    hide Sys.Select, ArraySys, MethWalk;
    var j: nat := if alts[0] == d.second then 0 else 1;
    assert alts[j] == d.second && Expects(d.second) == d.stop;
    assert j == 1 ==> Expects(alts[0]) != d.stop;
    assert TryAlternatives(sys, mem, fa, alts, 0) == TryAlternatives(sys, mem, fa, alts, j);
    if j + 1 < |alts| { NoTaker(sys, mem, fa, alts, j + 1); }
  }

  lemma ArrayFollow(d: Detour, caps: set<Space>, target: Space, mem: Memory)
    requires d.Wf() && d.stop !in caps && target in caps
    ensures var r := FollowChain(ArraySys(d, target), mem, caps, FullAddr(0, d.space), Alternatives(d.chain), 0);
      && (mem.read64(FullAddr(0, d.space)) == Lost(NoMeth) ==> r == Unresolved(NoMeth))
      && (mem.read64(FullAddr(0, d.space)) == Got(7) ==> r == Reached(FullAddr(28672, target)))
  {
    FirstHop(d, target, mem);
    DetourHop(d, target, mem);
    var sys, chain, stop := ArraySys(d, target), Alternatives(d.chain), FullAddr(0, d.stop);
    hide TryAlternatives, ArraySys;
    assert |chain| == 2;
    assert FollowChain(sys, mem, caps, stop, chain, 2) == Unresolved(NoMeth);
    assert FollowChain(sys, mem, caps, FullAddr(0, d.space), chain, 0) == FollowChain(sys, mem, caps, stop, chain, 1);
  }

  lemma ArrayRead(d: Detour, readCaps: set<Space>, target: Space)
    requires d.Wf() && d.stop in readCaps && PlanFor(readCaps, d.space) == Along(d.chain)
    ensures var c := ArrayCtx(d, readCaps, target);
      && UnguardedMemory(c, 1).read64(FullAddr(0, d.space)) == Got(7)
      && GuardedMemory(c, [InFlight(FullAddr(0, d.space), d.chain)]).read64(FullAddr(0, d.space)) == Lost(NoMeth)
  {
    var c, fa := ArrayCtx(d, readCaps, target), FullAddr(0, d.space);
    FirstHop(d, target, UnguardedMemory(c, 0));
    hide TryAlternatives;
    assert FollowChain(c.sys, UnguardedMemory(c, 0), readCaps, fa, Alternatives(d.chain), 0)
        == Reached(FullAddr(0, d.stop));
    assert Unguarded(c, readCaps, fa, 1) == Reached(FullAddr(0, d.stop));
  }

  /** The guard gives a false alarm: the address behind zero of the first space is in the array
      element at that address, and the element can be read, because a read stops halfway.  But
      the read takes the same chain from the same address as the conversion, which is taken for
      an infinite recursion. */
  lemma FalseAlarm(d: Detour, readCaps: set<Space>, caps: set<Space>, target: Space)
    requires d.Wf() && d.stop in readCaps - caps && target in caps
    requires PlanFor(readCaps, d.space) == PlanFor(caps, d.space) == Along(d.chain)
    ensures var c, fa := ArrayCtx(d, readCaps, target), FullAddr(0, d.space);
      && Unguarded(c, caps, fa, 2) == Reached(FullAddr(28672, target))
      && Guarded(c, caps, fa, []) == Unresolved(NoMeth)
  {
    var c, fa := ArrayCtx(d, readCaps, target), FullAddr(0, d.space);
    var x := InFlight(fa, d.chain);
    assert [] + [x] == [x];
    ArrayRead(d, readCaps, target);
    ArrayFollow(d, caps, target, UnguardedMemory(c, 1));
    ArrayFollow(d, caps, target, GuardedMemory(c, [x]));
  }

  lemma AlarmDetour(readCaps: set<Space>, caps: set<Space>, space: Space) returns (d: Detour, target: Space)
    requires Alarming(readCaps, caps, space)
    ensures d.Wf() && d.space == space && d.stop in readCaps - caps && target in caps
    ensures PlanFor(caps, space) == Along(d.chain)
  {
    var chain := PlanFor(caps, space).chain;
    var r :| r in readCaps - caps && Takes(Alternatives(chain), 1, r);
    var p, j :| 1 <= p < |Alternatives(chain)| && 0 <= j < |Alternatives(chain)[p]|
        && Expects(Alternatives(chain)[p][j]) == r;
    assert p == 1;
    d := if space == MachPhysAddr then Detour(MachPhysAddr, KPhysAddr, MachPhysKPhys, KPhysDirect, MachPhys2Direct)
         else if r == KPhysAddr then Detour(KvAddr, KPhysAddr, KvPhys, KPhysMachPhys, Kv2Phys)
         else Detour(KvAddr, MachPhysAddr, KvPhys, MachPhysKPhys, Kv2Phys);
    target := if KvAddr in caps then KvAddr else if KPhysAddr in caps then KPhysAddr else MachPhysAddr;
  }

  /** The guard is harmless, on every system and memory, if and only if the capabilities are not
      alarming. */
  lemma HarmlessIff(readCaps: set<Space>, caps: set<Space>, space: Space)
    ensures Harmless(readCaps, caps, space) <==> !Alarming(readCaps, caps, space)
  {
    if Alarming(readCaps, caps, space) {
      var d, target := AlarmDetour(readCaps, caps, space);
      FalseAlarm(d, readCaps, caps, target);
      assert Ends(ArrayCtx(d, readCaps, target), caps, FullAddr(0, space), 2);
    } else {
      forall c: Ctx, addr: Addr, fuel: nat |
        c.Wf() && c.readCaps == readCaps && Ends(c, caps, FullAddr(addr, space), fuel)
        ensures Guarded(c, caps, FullAddr(addr, space), []) == Unguarded(c, caps, FullAddr(addr, space), fuel)
      {
        GuardTransparent(c, caps, FullAddr(addr, space), fuel);
      }
    }
  }

  /** Which capabilities are alarming: a space at which only the reading stops has to be among
      those that the second place of the chain takes. */
  lemma AlarmingPairs(readCaps: set<Space>, caps: set<Space>, space: Space)
    requires PlanFor(caps, space).Along? && PlanFor(readCaps, space) == PlanFor(caps, space)
    ensures space == KvAddr ==>
      (Alarming(readCaps, caps, space) <==> KPhysAddr in readCaps - caps || MachPhysAddr in readCaps - caps)
    ensures space == MachPhysAddr ==> (Alarming(readCaps, caps, space) <==> KPhysAddr in readCaps - caps)
    ensures space == KPhysAddr ==> !Alarming(readCaps, caps, space)
  {
    var chain := Alternatives(PlanFor(caps, space).chain);
    if space != KPhysAddr {
      assert |chain| == 2 && Expects(chain[1][0]) == if space == KvAddr then MachPhysAddr else KPhysAddr;
      assert space == KvAddr ==> Expects(chain[1][1]) == KPhysAddr;
    }
    forall r ensures Takes(chain, 1, r) <==>
      (space == KvAddr && (r == MachPhysAddr || r == KPhysAddr)) || (space == MachPhysAddr && r == KPhysAddr)
    {
      if space == KvAddr && (r == MachPhysAddr || r == KPhysAddr) {
        assert Expects(chain[1][if r == MachPhysAddr then 0 else 1]) == r;
      } else if space == MachPhysAddr && r == KPhysAddr {
        assert Expects(chain[1][0]) == r;
      }
    }
  }

  // ---------------------------------------------------------------------------
  // Where the callback is called

  /** One translation on the way: at place `place` of the chain, by the method that `map`
      selects. */
  datatype Leg = Leg(place: nat, map_: MapIdx, meth: Meth, from: FullAddr, to: FullAddr)

  ghost predicate IsLeg(sys: Sys, mem: Memory, chain: seq<seq<MapIdx>>, leg: Leg)
    requires sys.Wf()
  {
    && leg.place < |chain| && leg.map_ in chain[leg.place] && leg.from.space == Expects(leg.map_)
    && sys.Select(leg.map_, leg.from.addr) == Some(leg.meth)
    && leg.meth.Wf() && MethWalk(leg.meth, mem, leg.from.addr) == Success(leg.to)
  }

  /** A way along the chain, from place `i` on, that ends as soon as a requested space is
      reached. */
  ghost predicate IsWay(sys: Sys, mem: Memory, caps: set<Space>, chain: seq<seq<MapIdx>>, i: nat,
                        from: FullAddr, way: seq<Leg>, to: FullAddr)
    requires sys.Wf()
    decreases |way|
  {
    && way != [] && IsLeg(sys, mem, chain, way[0]) && way[0].from == from && i <= way[0].place
    && if |way| == 1 then way[0].to == to && to.space in caps
       else way[0].to.space !in caps && IsWay(sys, mem, caps, chain, way[0].place + 1, way[0].to, way[1..], to)
  }

  lemma {:induction false} MovedByLeg(sys: Sys, mem: Memory, fa: FullAddr, chain: seq<seq<MapIdx>>, i: nat, j: nat)
    returns (leg: Leg)
    requires sys.Wf() && i < |chain| && j <= |chain[i]| && TryAlternatives(sys, mem, fa, chain[i], j).Moved?
    ensures IsLeg(sys, mem, chain, leg) && leg.place == i && leg.from == fa
    ensures TryAlternatives(sys, mem, fa, chain[i], j) == Moved(leg.to)
    decreases |chain[i]| - j
  {
    var alt := chain[i][j];
    if fa.space == Expects(alt) && sys.Select(alt, fa.addr).Some?
       && MethWalk(sys.Select(alt, fa.addr).value, mem, fa.addr).Success? {
      var meth := sys.Select(alt, fa.addr).value;
      leg := Leg(i, alt, meth, fa, MethWalk(meth, mem, fa.addr).to);
    } else {
      leg := MovedByLeg(sys, mem, fa, chain, i, j + 1);
    }
  }

  /** The callback gets an address in a requested space, and there is a way along the chain
      that leads there. */
  lemma {:induction false} ReachedByWay(sys: Sys, mem: Memory, caps: set<Space>, fa: FullAddr,
                                        chain: seq<seq<MapIdx>>, i: nat) returns (way: seq<Leg>)
    requires sys.Wf() && i <= |chain| && FollowChain(sys, mem, caps, fa, chain, i).Reached?
    ensures IsWay(sys, mem, caps, chain, i, fa, way, FollowChain(sys, mem, caps, fa, chain, i).at)
    ensures |way| <= |chain| - i
    decreases |chain| - i
  {
    match TryAlternatives(sys, mem, fa, chain[i], 0)
    case Nowhere =>
      way := ReachedByWay(sys, mem, caps, fa, chain, i + 1);
    case Moved(to) =>
      var leg := MovedByLeg(sys, mem, fa, chain, i, 0);
      if to.space in caps {
        way := [leg];
      } else {
        var rest := ReachedByWay(sys, mem, caps, to, chain, i + 1);
        way := [leg] + rest;
        assert way[1..] == rest;
      }
  }

  // ---------------------------------------------------------------------------
  // Which maps lead from one space to another

  /** What one map does to an address. */
  function Through(sys: Sys, mem: Memory, m: MapIdx, a: Addr): Hop
    requires sys.Wf()
  {
    if sys.Select(m, a).None? then Nowhere
    else
      match MethWalk(sys.Select(m, a).value, mem, a)
      case Success(to) => Moved(to)
      case Failure(status) => if status in {NoMeth, NoData, Ok} then Nowhere else Stopped(status)
  }

  /** The second one counts only if the first one leads nowhere. */
  function OrElse(h: Hop, other: Hop): Hop { if h == Nowhere then other else h }

  /** The last hop has to lead to a requested space. */
  function Finally(caps: set<Space>, h: Hop): Resolution {
    match h
    case Moved(to) => if to.space in caps then Reached(to) else Unresolved(NoMeth)
    case Nowhere => Unresolved(NoMeth)
    case Stopped(status) => Unresolved(status)
  }

  /** Where an address ends up, map by map: from a kernel physical one through the map to machine
      physical ones, through the direct map, or through the first of them that leads anywhere; from a
      machine physical one to a kernel physical one, and on through the direct map; and from a virtual
      one through the kernel's map, or else that of the hardware, and on to the other kind of physical
      address. */
  function ByMaps(sys: Sys, mem: Memory, caps: set<Space>, fa: FullAddr): Resolution
    requires sys.Wf()
  {
    if fa.space in caps then Reached(fa)
    else if caps !! {KvAddr, KPhysAddr, MachPhysAddr} then Unresolved(NoMeth)
    else
      match fa.space
      case KPhysAddr =>
        var mach, direct := Through(sys, mem, KPhysMachPhys, fa.addr), Through(sys, mem, KPhysDirect, fa.addr);
        Finally(caps, if MachPhysAddr !in caps then direct else if KvAddr !in caps then mach else OrElse(mach, direct))
      case MachPhysAddr =>
        var first := Through(sys, mem, MachPhysKPhys, fa.addr);
        if first.Moved? && first.to.space !in caps && first.to.space == KPhysAddr then
          Finally(caps, Through(sys, mem, KPhysDirect, first.to.addr))
        else Finally(caps, first)
      case KvAddr =>
        var first := OrElse(Through(sys, mem, KvPhys, fa.addr), Through(sys, mem, HW, fa.addr));
        if first.Moved? && first.to.space !in caps && first.to.space == MachPhysAddr then
          Finally(caps, Through(sys, mem, MachPhysKPhys, first.to.addr))
        else if first.Moved? && first.to.space !in caps && first.to.space == KPhysAddr then
          Finally(caps, Through(sys, mem, KPhysMachPhys, first.to.addr))
        else Finally(caps, first)
      case NoAddr => Unresolved(NotImpl)
  }

  /** Up to two alternatives at one place of a chain. */
  lemma Tries(sys: Sys, mem: Memory, fa: FullAddr, alts: seq<MapIdx>)
    requires sys.Wf() && 0 < |alts| <= 2
    ensures TryAlternatives(sys, mem, fa, alts, 0) ==
            OrElse(if fa.space == Expects(alts[0]) then Through(sys, mem, alts[0], fa.addr) else Nowhere,
                   if |alts| == 2 && fa.space == Expects(alts[1]) then Through(sys, mem, alts[1], fa.addr) else Nowhere)
  {
    hide MethWalk, Sys.Select;
    TryOne(sys, mem, fa, alts, 0);
    if |alts| == 2 { TryOne(sys, mem, fa, alts, 1); }
  }

  lemma TryOne(sys: Sys, mem: Memory, fa: FullAddr, alts: seq<MapIdx>, j: nat)
    requires sys.Wf() && j < |alts|
    ensures TryAlternatives(sys, mem, fa, alts, j) ==
            OrElse(if fa.space == Expects(alts[j]) then Through(sys, mem, alts[j], fa.addr) else Nowhere,
                   TryAlternatives(sys, mem, fa, alts, j + 1))
  {
    hide MethWalk, Sys.Select;
  }

  /** The chains say the same as the maps by name. */
  lemma ChainByMaps(sys: Sys, mem: Memory, caps: set<Space>, fa: FullAddr)
    requires sys.Wf() && PlanFor(caps, fa.space).Along?
    ensures FollowChain(sys, mem, caps, fa, Alternatives(PlanFor(caps, fa.space).chain), 0)
         == ByMaps(sys, mem, caps, fa)
  {
    hide MethWalk, Sys.Select, Through, TryAlternatives, FollowChain;
    var chain := Alternatives(PlanFor(caps, fa.space).chain);
    Tries(sys, mem, fa, chain[0]);
    FollowStep(sys, mem, caps, fa, chain, 0);
    if |chain| == 1 {
      FollowEnd(sys, mem, caps, fa, chain);
      var hop := TryAlternatives(sys, mem, fa, chain[0], 0);
      if hop.Moved? { FollowEnd(sys, mem, caps, hop.to, chain); }
    } else {
      SecondHop(sys, mem, caps, fa, chain);
      var hop := TryAlternatives(sys, mem, fa, chain[0], 0);
      if hop.Moved? { SecondHop(sys, mem, caps, hop.to, chain); }
    }
  }

  lemma SecondHop(sys: Sys, mem: Memory, caps: set<Space>, fa: FullAddr, chain: seq<seq<MapIdx>>)
    requires sys.Wf() && |chain| == 2 && 0 < |chain[1]| <= 2
    ensures FollowChain(sys, mem, caps, fa, chain, 1) == Finally(caps,
              OrElse(if fa.space == Expects(chain[1][0]) then Through(sys, mem, chain[1][0], fa.addr) else Nowhere,
                     if |chain[1]| == 2 && fa.space == Expects(chain[1][1])
                     then Through(sys, mem, chain[1][1], fa.addr) else Nowhere))
  {
    hide MethWalk, Sys.Select, Through, TryAlternatives, FollowChain;
    Tries(sys, mem, fa, chain[1]);
    FollowStep(sys, mem, caps, fa, chain, 1);
    FollowEnd(sys, mem, caps, fa, chain);
    var hop := TryAlternatives(sys, mem, fa, chain[1], 0);
    if hop.Moved? { FollowEnd(sys, mem, caps, hop.to, chain); }
  }

  lemma FollowStep(sys: Sys, mem: Memory, caps: set<Space>, fa: FullAddr, chain: seq<seq<MapIdx>>, i: nat)
    requires sys.Wf() && i < |chain|
    ensures FollowChain(sys, mem, caps, fa, chain, i) ==
            match TryAlternatives(sys, mem, fa, chain[i], 0)
            case Nowhere => FollowChain(sys, mem, caps, fa, chain, i + 1)
            case Stopped(status) => Unresolved(status)
            case Moved(to) => if to.space in caps then Reached(to) else FollowChain(sys, mem, caps, to, chain, i + 1)
  {
    hide TryAlternatives;
  }

  lemma FollowEnd(sys: Sys, mem: Memory, caps: set<Space>, fa: FullAddr, chain: seq<seq<MapIdx>>)
    requires sys.Wf()
    ensures FollowChain(sys, mem, caps, fa, chain, |chain|) == Unresolved(NoMeth)
  {
  }

  /** The memory as a translation sees it that begins when `inflight` are under way. */
  ghost function ReadsOf(c: Ctx, caps: set<Space>, fa: FullAddr, inflight: seq<InFlight>): Memory
    requires c.Wf()
  {
    match PlanFor(caps, fa.space)
    case Along(chain) => GuardedMemory(c, inflight + [InFlight(fa, chain)])
    case _ => GuardedMemory(c, inflight)
  }

  /** Where every translation leads that is not under way already. */
  lemma GuardedByMaps(c: Ctx, caps: set<Space>, fa: FullAddr, inflight: seq<InFlight>)
    requires c.Wf() && forall x :: x in inflight ==> x.fa != fa
    ensures Guarded(c, caps, fa, inflight) == ByMaps(c.sys, ReadsOf(c, caps, fa, inflight), caps, fa)
  {
    hide MethWalk, Sys.Select, Through, FollowChain, GuardedMemory, Alternatives;
    if PlanFor(caps, fa.space).Along? {
      ChainByMaps(c.sys, ReadsOf(c, caps, fa, inflight), caps, fa);
    }
  }

  /** Reads are done where the callback serves the space, and else where the translation leads. */
  lemma ReadsByMaps(c: Ctx, a: FullAddr, inflight: seq<InFlight>)
    requires c.Wf() && forall x :: x in inflight ==> x.fa != a
    ensures a.space in c.readCaps ==>
              && GuardedMemory(c, inflight).read32(a) == c.mem.read32(a)
              && GuardedMemory(c, inflight).read64(a) == c.mem.read64(a)
    ensures match ByMaps(c.sys, ReadsOf(c, c.readCaps, a, inflight), c.readCaps, a)
            case Reached(at) =>
              && GuardedMemory(c, inflight).read32(a) == c.mem.read32(at)
              && GuardedMemory(c, inflight).read64(a) == c.mem.read64(at)
            case Unresolved(status) =>
              && GuardedMemory(c, inflight).read32(a) == Lost(status)
              && GuardedMemory(c, inflight).read64(a) == Lost(status)
  {
    GuardedByMaps(c, c.readCaps, a, inflight);
    hide Through, ReadsOf, Guarded;
  }

  // ---------------------------------------------------------------------------
  // The translation context

  /** `addrxlat_op_ctl_t`: what to do with the address when it is in one of the requested
      spaces.  The callbacks are those of the source that read memory, and `storeaddr`. */
  datatype Action = Store | Fetch32 | Fetch64

  datatype Reply = Error(status: Error) | Stored(fa: FullAddr) | Word32(value: Word) | Word64(dword: Addr)

  function Act(c: Ctx, action: Action, at: FullAddr): Reply {
    match action
    case Store => Stored(at)
    case Fetch32 => (match c.mem.read32(at) case Got(v) => Word32(v) case Lost(e) => Error(e))
    case Fetch64 => (match c.mem.read64(at) case Got(v) => Word64(v) case Lost(e) => Error(e))
  }

  function Answer(c: Ctx, action: Action, r: Resolution): Reply {
    match r
    case Reached(at) => Act(c, action, at)
    case Unresolved(status) => Error(status)
  }

  /** A call of the callback of an operation that began with `depth` translations under way. */
  datatype Call = Call(depth: nat, action: Action, at: FullAddr)

  /** The calls since `before` are those of operations at least as deep as `depth`. */
  ghost predicate Nested(before: seq<Call>, after: seq<Call>, depth: nat) {
    before <= after && forall k :: |before| <= k < |after| ==> after[k].depth >= depth
  }

  lemma NestedTwice(a: seq<Call>, b: seq<Call>, depth: nat)
    requires Nested(a, b, depth)
    ensures forall c :: Nested(b, c, depth) ==> Nested(a, c, depth)
    ensures Nested(a, a, depth)
  {
  }

  /** The calls since `before`, behind those of nested operations, are one in a requested space
      where `r` is reached, or else none. */
  ghost predicate CalledOnce(before: seq<Call>, after: seq<Call>, depth: nat, action: Action, caps: set<Space>,
                             r: Resolution) {
    match r
    case Reached(at) =>
      && at.space in caps && after != [] && after[|after| - 1] == Call(depth, action, at)
      && Nested(before, after[..|after| - 1], depth + 1)
    case Unresolved(_) => Nested(before, after, depth + 1)
  }

  class Context {
    const c: Ctx
    /** The translations under way, the innermost one last. */
    var inflight: seq<InFlight>
    /** The calls of callbacks so far. */
    ghost var log: seq<Call>

    /** No translation is under way twice. */
    ghost predicate Valid()
      reads this`inflight
    {
      c.Wf() && forall i, j :: 0 <= i < j < |inflight| ==> inflight[i] != inflight[j]
    }

    constructor (ctx: Ctx)
      requires ctx.Wf()
      ensures c == ctx && inflight == [] && log == [] && Valid()
    {
      c := ctx;
      inflight := [];
      log := [];
    }

    /** Call the callback of the operation at nesting depth `depth`. */
    method CallBack(ghost depth: nat, action: Action, at: FullAddr) returns (reply: Reply)
      modifies this`log
      ensures log == old(log) + [Call(depth, action, at)] && reply == Act(c, action, at)
    {
      log := log + [Call(depth, action, at)];
      reply := Act(c, action, at);
    }

    /** `addrxlat_op`: its callback is called at most once, as the last thing, and where `Guarded`
        says; the other calls are those of nested operations. */
    method Op(caps: set<Space>, action: Action, fa: FullAddr) returns (reply: Reply)
      requires Valid()
      modifies this`inflight, this`log
      ensures Valid() && inflight == old(inflight)
      ensures reply == Answer(c, action, Guarded(c, caps, fa, inflight))
      ensures CalledOnce(old(log), log, |inflight|, action, caps, Guarded(c, caps, fa, inflight))
      decreases Remaining(inflight), 0, 1
    {
      if fa.space in caps {
        reply := CallBack(|inflight|, action, fa);
        return;
      }
      if KvAddr !in caps && KPhysAddr !in caps && MachPhysAddr !in caps {
        return Error(NoMeth);
      }
      var chain;
      match fa.space {
        case KvAddr => chain := Kv2Phys;
        case KPhysAddr =>
          chain := if MachPhysAddr in caps then if KvAddr in caps then KPhys2Any else KPhys2MachPhys else KPhys2Direct;
        case MachPhysAddr => chain := MachPhys2Direct;
        case NoAddr => return Error(NotImpl);
      }
      reply := Proceed(caps, action, fa, chain);
    }

    /** The rest of `addrxlat_op`, with the chain to follow. */
    method Proceed(caps: set<Space>, action: Action, fa: FullAddr, chain: Chain) returns (reply: Reply)
      requires Valid() && PlanFor(caps, fa.space) == Along(chain)
      modifies this`inflight, this`log
      ensures Valid() && inflight == old(inflight)
      ensures reply == Answer(c, action, Guarded(c, caps, fa, inflight))
      ensures CalledOnce(old(log), log, |inflight|, action, caps, Guarded(c, caps, fa, inflight))
      decreases Remaining(inflight), 0, 0
    {
      var x := InFlight(fa, chain);
      var found := IsUnderWay(x);
      if found {
        return Error(NoMeth);
      }
      hide FollowChain, GuardedMemory, Alternatives, Act, Answer, CalledOnce, Remaining;
      RemainingShrinks(inflight, x);
      ghost var before := inflight;
      inflight := inflight + [x];
      reply := DoOp(caps, action, fa, Alternatives(chain));
      inflight := inflight[..|inflight| - 1];
      assert inflight == before;
    }

    /** The search for the same address and chain in the list of translations under way. */
    method IsUnderWay(x: InFlight) returns (found: bool)
      ensures found <==> x in inflight
    {
      found := false;
      for i := 0 to |inflight|
        invariant found <==> x in inflight[..i]
      {
        found := found || inflight[i] == x;
      }
      assert inflight[..|inflight|] == inflight;
    }

    /** `do_op` */
    method DoOp(caps: set<Space>, action: Action, fa: FullAddr, chain: seq<seq<MapIdx>>) returns (reply: Reply)
      requires Valid() && inflight != []
      modifies this`inflight, this`log
      ensures Valid() && inflight == old(inflight)
      ensures CalledOnce(old(log), log, |inflight| - 1, action, caps,
                         FollowChain(c.sys, GuardedMemory(c, inflight), caps, fa, chain, 0))
      ensures reply == Answer(c, action, FollowChain(c.sys, GuardedMemory(c, inflight), caps, fa, chain, 0))
      decreases Remaining(inflight), 5
    {
      ghost var mem := GuardedMemory(c, inflight);
      var cur := fa;
      var i := 0;
      while i < |chain|
        invariant 0 <= i <= |chain| && Valid() && inflight == old(inflight) && Nested(old(log), log, |inflight|)
        invariant FollowChain(c.sys, mem, caps, fa, chain, 0) == FollowChain(c.sys, mem, caps, cur, chain, i)
      {
        var hop := DoAlternatives(cur, chain[i]);
        match hop {
          case Nowhere =>
          case Stopped(status) => return Error(status);
          case Moved(to) =>
            if to.space in caps {
              reply := CallBack(|inflight| - 1, action, to);
              return;
            }
            cur := to;
        }
        i := i + 1;
      }
      reply := Error(NoMeth);
    }

    /** The inner loop of `do_op` */
    method DoAlternatives(fa: FullAddr, alts: seq<MapIdx>) returns (hop: Hop)
      requires Valid()
      modifies this`inflight, this`log
      ensures Valid() && inflight == old(inflight)
      ensures Nested(old(log), log, |inflight|)
      ensures hop == TryAlternatives(c.sys, GuardedMemory(c, inflight), fa, alts, 0)
      decreases Remaining(inflight), 4
    {
      ghost var mem := GuardedMemory(c, inflight);
      var j := 0;
      while j < |alts|
        invariant 0 <= j <= |alts| && Valid() && inflight == old(inflight) && Nested(old(log), log, |inflight|)
        invariant TryAlternatives(c.sys, mem, fa, alts, 0) == TryAlternatives(c.sys, mem, fa, alts, j)
      {
        if fa.space == Expects(alts[j]) {
          var meth := c.sys.Select(alts[j], fa.addr);
          if meth.Some? {
            var result := WalkMethod(meth.value, fa.addr);
            if result.Success? {
              return Moved(result.to);
            }
            if result.status != NoMeth && result.status != NoData && result.status != Ok {
              return Stopped(result.status);
            }
          }
        }
        j := j + 1;
      }
      hop := Nowhere;
    }

    /** `addrxlat_walk` */
    method WalkMethod(meth: Meth, addr: Addr) returns (result: Result)
      requires Valid() && meth.Wf()
      modifies this`inflight, this`log
      ensures Valid() && inflight == old(inflight)
      ensures Nested(old(log), log, |inflight|)
      ensures result == MethWalk(meth, GuardedMemory(c, inflight), addr)
      decreases Remaining(inflight), 3
    {
      match meth
      case NoMethod => result := Failure(NoMeth);
      case Linear(off, target) => result := Success(FullAddr((addr + off) % ADDR_SPAN, target));
      case Tables(pgt) => result := WalkTables(pgt, addr);
      case Lookup(_, _, _) => result := LookupFrom(meth, addr, 0);
      case MemArr(base, shift, elemsz, valsz, target) =>
        var at := base.(addr := (base.addr + High(addr, shift) * elemsz) % ADDR_SPAN);
        var val: Addr;
        if valsz == 4 {
          var raw := Read32(at);
          if raw.Lost? {
            return Failure(raw.error);
          }
          val := raw.value;
        } else if valsz == 8 {
          var raw := Read64(at);
          if raw.Lost? {
            return Failure(raw.error);
          }
          val := raw.value;
        } else {
          return Failure(NotImpl);
        }
        result := Success(FullAddr((Shl(val, shift) + Low(addr, shift)) % ADDR_SPAN, target));
    }

    /** A page table walk whose tables are read through `Read32` and `Read64`; the steps
        between the reads are those of `Steps.Machine`. */
    method WalkTables(p: Pgt, addr: Addr) returns (result: Result)
      requires Valid() && p.pf.Wf()
      modifies this`inflight, this`log
      ensures Valid() && inflight == old(inflight)
      ensures Nested(old(log), log, |inflight|)
      ensures result == Translate(p, GuardedMemory(c, inflight), addr)
      decreases Remaining(inflight), 2
    {
      ghost var mem := GuardedMemory(c, inflight);
      if p.root.space == NoAddr {
        return Failure(NoData);
      }
      if p.pf.fmt != Arm && !SignExtended(p.pf.fieldsz, addr) {
        return Failure(Invalid);
      }
      var base, level := p.root, |p.pf.fieldsz|;
      var end: Option<Result> := None;
      ghost var expected := Walk(p, mem, base, level, addr);
      assert expected == Translate(p, mem, addr);
      hide Translate, Decode, EntryAt, InPage, Offset, Width, SignExtended, GuardedMemory, Nested;
      while level > 1 && end.None?
        invariant 0 < level <= |p.pf.fieldsz| && Valid() && inflight == old(inflight)
        invariant Nested(old(log), log, |inflight|)
        invariant expected == if end.Some? then end.value else Walk(p, mem, base, level, addr)
        decreases level
      {
        NestedTwice(old(log), log, |inflight|);
        level := level - 1;
        var d := ReadEntry(p, EntryAt(p, base, level, addr), level);
        match d {
          case Table(next) => base := FullAddr(next, p.target);
          case Leaf(page, extra) => end := Some(Success(InPage(p, page, Offset(p.pf.fieldsz, addr, level, extra))));
          case Failed(status) => end := Some(Failure(status));
        }
      }
      result := if end.Some? then end.value else Success(InPage(p, base.addr, Offset(p.pf.fieldsz, addr, 1, 0)));
    }

    /** `read_pte32` or `read_pte64`, and what the entry says */
    method ReadEntry(p: Pgt, at: FullAddr, remain: nat) returns (d: Decoded)
      requires Valid() && remain < |p.pf.fieldsz|
      modifies this`inflight, this`log
      ensures Valid() && inflight == old(inflight)
      ensures Nested(old(log), log, |inflight|)
      ensures d == Decode(p, GuardedMemory(c, inflight), at, remain)
      decreases Remaining(inflight), 1, 1
    {
      if p.pf.fmt == Arm {
        var raw := Read32(at);
        d := match raw case Lost(error) => Failed(error) case Got(pte) => DecodeArm(remain, AndNot(pte, p.mask));
      } else {
        var raw := Read64(at);
        d := match raw
             case Lost(error) => Failed(error)
             case Got(pte) =>
               if p.pf.fmt == X86_64 then DecodeX86(remain, AndNot(pte, p.mask))
               else DecodeRiscV(p.pf.fieldsz, remain, AndNot(pte, p.mask));
      }
    }

    /** `read32` */
    method Read32(a: FullAddr) returns (raw: Read<Word>)
      requires Valid()
      modifies this`inflight, this`log
      ensures Valid() && inflight == old(inflight)
      ensures Nested(old(log), log, |inflight|)
      ensures raw == GuardedMemory(c, inflight).read32(a)
      decreases Remaining(inflight), 1, 0
    {
      if a.space in c.readCaps {
        return c.mem.read32(a);
      }
      var reply := Op(c.readCaps, Fetch32, a);
      raw := if reply.Word32? then Got(reply.value) else Lost(reply.status);
    }

    /** `read64` */
    method Read64(a: FullAddr) returns (raw: Read<Addr>)
      requires Valid()
      modifies this`inflight, this`log
      ensures Valid() && inflight == old(inflight)
      ensures Nested(old(log), log, |inflight|)
      ensures raw == GuardedMemory(c, inflight).read64(a)
      decreases Remaining(inflight), 1, 0
    {
      if a.space in c.readCaps {
        return c.mem.read64(a);
      }
      var reply := Op(c.readCaps, Fetch64, a);
      raw := if reply.Word64? then Got(reply.dword) else Lost(reply.status);
    }

    /** `addrxlat_fulladdr_conv` */
    method Convert(faddr: FullAddr, space: Space) returns (reply: Reply)
      requires Valid()
      modifies this`inflight, this`log
      ensures Valid() && inflight == old(inflight)
      ensures reply == Answer(c, Store, Guarded(c, {space}, faddr, inflight))
      ensures CalledOnce(old(log), log, |inflight|, Store, {space}, Guarded(c, {space}, faddr, inflight))
      ensures inflight == [] ==>
                match ByMaps(c.sys, ReadsOf(c, {space}, faddr, []), {space}, faddr)
                case Reached(at) => reply == Stored(at) && at.space == space
                case Unresolved(status) => reply == Error(status)
    {
      GuardedByMaps(c, {space}, faddr, []);
      hide ByMaps, ReadsOf, Guarded, FollowChain;
      reply := Op({space}, Store, faddr);
    }
  }
}
