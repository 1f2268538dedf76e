/** Memory layouts of translation systems (`src/addrxlat/sys.c`), in particular direct
    mappings and the hardware maps of `x86_64.c` and `riscv64.c`. */
module Layout {
  import AddrMap
  import opened Bits
  import opened Options
  import opened PageTable
  import opened Steps
  import opened Translator

  // `addrxlat_sys_meth_t`
  const METH_PGT: nat := 0
  const METH_DIRECT: nat := 2
  const METH_RDIRECT: nat := 5
  const METH_MACHPHYS_KPHYS: nat := 6
  const METH_KPHYS_MACHPHYS: nat := 7
  const METH_NUM: nat := 16

  /** `enum sys_action` */
  datatype Action = NoAction | ActDirect | ActRDirect | ActIdentKPhys | ActIdentMachPhys

  /** `struct sys_region` */
  datatype Region = Region(first: Addr, last: Addr, meth: nat, act: Action) {
    predicate Wf() { first <= last && meth < METH_NUM }

    ghost predicate Covers(a: Addr) { first <= a <= last }
  }

  predicate AllWf(layout: seq<Region>) {
    forall i :: 0 <= i < |layout| ==> layout[i].Wf()
  }

  /** A translation system while it is set up: the updates of each of its maps, which
      `AddrMap.RunMeaning` relates to the range arrays, and its methods. */
  datatype State = State(maps: map<MapIdx, seq<AddrMap.Update>>, meths: seq<Meth>) {
    predicate Wf() { |meths| == METH_NUM }

    function Updates(m: MapIdx): seq<AddrMap.Update> { if m in maps then maps[m] else [] }
  }

  /** Negation of a 64-bit offset */
  function Negated(a: Addr): Addr { if a == 0 then 0 else ADDR_SPAN - a }

  /** The offset of a method, if it is linear; the others have all their parameters zero
      when a layout is set. */
  function OffsetOf(m: Meth): Addr { if m.Linear? then m.off else 0 }

  function SetMeth(st: State, i: nat, m: Meth): State
    requires st.Wf() && i < METH_NUM
  {
    st.(meths := st.meths[i := m])
  }

  /** `map_set` for a region */
  function SetRange(st: State, m: MapIdx, r: Region): State
    requires r.Wf()
  {
    st.(maps := st.maps[m := st.Updates(m) + [AddrMap.Update(r.first, r.last - r.first, r.meth)]])
  }

  /** `act_rdirect`, `act_ident_kphys` and `act_ident_machphys` */
  function SimpleAction(st: State, r: Region): (s: State)
    requires st.Wf() && r.Wf()
    ensures s.Wf() && s.maps == st.maps
  {
    match r.act
    case ActRDirect => SetMeth(st, r.meth, Linear(Negated(OffsetOf(st.meths[METH_DIRECT])), KvAddr))
    case ActIdentKPhys => SetMeth(st, r.meth, Linear(0, KPhysAddr))
    case ActIdentMachPhys => SetMeth(st, r.meth, Linear(0, MachPhysAddr))
    case _ => st
  }

  function Reverse(r: Region): Region
    requires r.Wf()
  {
    Region(0, r.last - r.first, METH_RDIRECT, ActRDirect)
  }

  /** `act_direct` */
  function DirectAction(st: State, r: Region): (s: State)
    requires st.Wf() && r.Wf()
    ensures s.Wf()
  {
    var linear := SetMeth(st, r.meth, Linear(Negated(r.first), KPhysAddr));
    SetRange(SimpleAction(linear, Reverse(r)), KPhysDirect, Reverse(r))
  }

  /** One region of a layout */
  function Apply(st: State, m: MapIdx, r: Region): (s: State)
    requires st.Wf() && r.Wf()
    ensures s.Wf()
  {
    SetRange(if r.act == ActDirect then DirectAction(st, r) else SimpleAction(st, r), m, r)
  }

  /** `sys_set_layout` */
  function WithLayout(st: State, m: MapIdx, layout: seq<Region>): (s: State)
    requires st.Wf() && AllWf(layout)
    ensures s.Wf()
  {
    if layout == [] then st
    else Apply(WithLayout(st, m, layout[..|layout| - 1]), m, layout[|layout| - 1])
  }

  // ---------------------------------------------------------------------------
  // Direct mappings

  lemma PaintedLast(us: seq<AddrMap.Update>, u: AddrMap.Update, q: nat)
    ensures AddrMap.Painted(us + [u], q) == if u.Covers(q) then u.meth else AddrMap.Painted(us, q)
  {
    assert (us + [u])[..|us|] == us;
  }

  /** What a direct region at the end of a layout sets up. */
  ghost predicate Direct(st: State, r: Region) {
    && st.Wf() && r.Wf()
    && st.meths[METH_DIRECT] == Linear(Negated(r.first), KPhysAddr)
    && st.meths[METH_RDIRECT] == Linear(r.first, KvAddr)
    && forall p: Addr :: p <= r.last - r.first ==> AddrMap.Painted(st.Updates(KPhysDirect), p) == METH_RDIRECT
  }

  lemma DirectSet(st: State, r: Region)
    requires st.Wf() && r.Wf() && r.act == ActDirect && r.meth == METH_DIRECT
    ensures Direct(Apply(st, KvPhys, r), r)
    ensures forall v: Addr :: r.Covers(v) ==> AddrMap.Painted(Apply(st, KvPhys, r).Updates(KvPhys), v) == METH_DIRECT
  {
    var s := Apply(st, KvPhys, r);
    var d := DirectAction(st, r);
    var rev := Reverse(r);
    forall p: Addr | p <= r.last - r.first ensures AddrMap.Painted(s.Updates(KPhysDirect), p) == METH_RDIRECT {
      PaintedLast(st.Updates(KPhysDirect), AddrMap.Update(rev.first, rev.last - rev.first, rev.meth), p);
    }
    forall v: Addr | r.Covers(v) ensures AddrMap.Painted(s.Updates(KvPhys), v) == METH_DIRECT {
      PaintedLast(d.Updates(KvPhys), AddrMap.Update(r.first, r.last - r.first, r.meth), v);
    }
  }

  /** Region `r` leaves a direct region that begins at `first` as it is, and the method of `v`. */
  ghost predicate Leaves(r: Region, first: Addr, v: Addr) {
    && (r.Covers(v) ==> r.meth == METH_DIRECT)
    && match r.act
       case NoAction => true
       case ActDirect => r.meth == METH_DIRECT ==> r.first == first
       case ActRDirect => r.meth != METH_DIRECT
       case _ => r.meth != METH_DIRECT && r.meth != METH_RDIRECT
  }

  lemma KeepsMethods(st: State, r: Region, d: Region, v: Addr)
    requires Direct(st, d) && r.Wf() && Leaves(r, d.first, v)
    ensures Apply(st, KvPhys, r).meths[METH_DIRECT] == st.meths[METH_DIRECT]
    ensures Apply(st, KvPhys, r).meths[METH_RDIRECT] == st.meths[METH_RDIRECT]
  {
  }

  lemma KeepsDirect(st: State, r: Region, d: Region, v: Addr)
    requires Direct(st, d) && AddrMap.Painted(st.Updates(KvPhys), v) == METH_DIRECT && r.Wf() && Leaves(r, d.first, v)
    ensures Direct(Apply(st, KvPhys, r), d)
    ensures AddrMap.Painted(Apply(st, KvPhys, r).Updates(KvPhys), v) == METH_DIRECT
  {
    var s := Apply(st, KvPhys, r);
    KeepsMethods(st, r, d, v);
    hide AddrMap.Painted, Negated;
    forall p: Addr | p <= d.last - d.first ensures AddrMap.Painted(s.Updates(KPhysDirect), p) == METH_RDIRECT {
      PaintedLast(st.Updates(KPhysDirect), AddrMap.Update(0, r.last - r.first, METH_RDIRECT), p);
    }
    PaintedLast(st.Updates(KvPhys), AddrMap.Update(r.first, r.last - r.first, r.meth), v);
  }

  /** Later regions that leave a direct region as it is. */
  lemma {:induction false} DirectStays(st: State, layout: seq<Region>, i: nat, v: Addr)
    requires st.Wf() && AllWf(layout) && i < |layout|
    requires layout[i].act == ActDirect && layout[i].meth == METH_DIRECT && layout[i].Covers(v)
    requires forall j :: i < j < |layout| ==> Leaves(layout[j], layout[i].first, v)
    ensures var s := WithLayout(st, KvPhys, layout);
            Direct(s, layout[i]) && AddrMap.Painted(s.Updates(KvPhys), v) == METH_DIRECT
  {
    var n := |layout| - 1;
    var before := WithLayout(st, KvPhys, layout[..n]);
    if i == n {
      DirectSet(before, layout[n]);
    } else {
      assert layout[..n][i] == layout[i];
      DirectStays(st, layout[..n], i, v);
      KeepsDirect(before, layout[n], layout[i], v);
    }
  }

  /** `sys` is the translation system that `st` describes. */
  ghost predicate Realizes(sys: Sys, st: State) {
    && sys.Wf() && sys.meths == st.meths
    && forall m :: AddrMap.Run(st.Updates(m), sys.maps(m))
  }

  lemma Selects(sys: Sys, st: State, m: MapIdx, a: Addr, i: nat)
    requires Realizes(sys, st) && st.Wf() && i < METH_NUM && AddrMap.Painted(st.Updates(m), a) == i
    ensures sys.Select(m, a) == Some(st.meths[i])
  {
    AddrMap.RunMeaning(st.Updates(m), sys.maps(m));
    assert AddrMap.Search(sys.maps(m), a) == i;
  }

  /** Within a direct region that later ones leave as it is, a virtual address is translated to its
      offset in the region as physical address, and from there back to itself. */
  lemma DirectRoundTrip(c: Ctx, st: State, layout: seq<Region>, i: nat, v: Addr)
    requires c.Wf() && st.Wf() && AllWf(layout) && i < |layout|
    requires layout[i].act == ActDirect && layout[i].meth == METH_DIRECT && layout[i].Covers(v)
    requires forall j :: i < j < |layout| ==> Leaves(layout[j], layout[i].first, v)
    requires Realizes(c.sys, WithLayout(st, KvPhys, layout))
    ensures var p := FullAddr(v - layout[i].first, KPhysAddr);
            && Guarded(c, {KPhysAddr}, FullAddr(v, KvAddr), []) == Reached(p)
            && Guarded(c, {KvAddr}, p, []) == Reached(FullAddr(v, KvAddr))
  {
    hide Guarded, WithLayout, Realizes, Sys.Select, AllWf, Negated;
    DirectSelects(c.sys, st, layout, i, v);
    LinearRoundTrip(c, layout[i].first, v);
  }

  lemma LinearRoundTrip(c: Ctx, first: Addr, v: Addr)
    requires c.Wf() && first <= v
    requires c.sys.Select(KvPhys, v) == Some(Linear(Negated(first), KPhysAddr))
    requires c.sys.Select(KPhysDirect, v - first) == Some(Linear(first, KvAddr))
    ensures Guarded(c, {KPhysAddr}, FullAddr(v, KvAddr), []) == Reached(FullAddr(v - first, KPhysAddr))
    ensures Guarded(c, {KvAddr}, FullAddr(v - first, KPhysAddr), []) == Reached(FullAddr(v, KvAddr))
  {
    WrapAround(v, first);
    hide Guarded, Sys.Select, Negated;
    var phys, virt := FullAddr(v - first, KPhysAddr), FullAddr(v, KvAddr);
    OneHop(c, {KPhysAddr}, virt, Kv2Phys, KvPhys, Linear(Negated(first), KPhysAddr), phys);
    OneHop(c, {KvAddr}, phys, KPhys2Direct, KPhysDirect, Linear(first, KvAddr), virt);
  }

  lemma DirectSelects(sys: Sys, st: State, layout: seq<Region>, i: nat, v: Addr)
    requires st.Wf() && AllWf(layout) && i < |layout|
    requires layout[i].act == ActDirect && layout[i].meth == METH_DIRECT && layout[i].Covers(v)
    requires forall j :: i < j < |layout| ==> Leaves(layout[j], layout[i].first, v)
    requires Realizes(sys, WithLayout(st, KvPhys, layout))
    ensures sys.Select(KvPhys, v) == Some(Linear(Negated(layout[i].first), KPhysAddr))
    ensures sys.Select(KPhysDirect, v - layout[i].first) == Some(Linear(layout[i].first, KvAddr))
  {
    hide WithLayout, Realizes, Sys.Select, Leaves, AddrMap.Painted;
    var s := WithLayout(st, KvPhys, layout);
    DirectStays(st, layout, i, v);
    Selects(sys, s, KvPhys, v, METH_DIRECT);
    Selects(sys, s, KPhysDirect, v - layout[i].first, METH_RDIRECT);
  }

  lemma WrapAround(v: Addr, first: Addr)
    requires first <= v
    ensures (v + Negated(first)) % ADDR_SPAN == v - first && (v - first + first) % ADDR_SPAN == v
  {
  }

  /** A linear method that is selected first and leads to the requested space. */
  lemma OneHop(c: Ctx, caps: set<Space>, fa: FullAddr, chain: Chain, m: MapIdx, meth: Meth, to: FullAddr)
    requires c.Wf() && PlanFor(caps, fa.space) == Along(chain)
    requires Alternatives(chain)[0][0] == m && fa.space == Expects(m)
    requires c.sys.Select(m, fa.addr) == Some(meth) && meth.Linear?
    requires to == FullAddr((fa.addr + meth.off) % ADDR_SPAN, meth.target) && to.space in caps
    ensures Guarded(c, caps, fa, []) == Reached(to)
  {
    var mem := GuardedMemory(c, [] + [InFlight(fa, chain)]);
    hide GuardedMemory;
    var alts := Alternatives(chain);
    assert TryAlternatives(c.sys, mem, fa, alts[0], 0) == Moved(to);
    assert FollowChain(c.sys, mem, caps, fa, alts, 0) == Reached(to);
  }

  // ---------------------------------------------------------------------------
  // Identity mappings

  /** `sys_set_physmaps` */
  function WithPhysMaps(st: State, maxaddr: Addr): (s: State)
    requires st.Wf()
    ensures s.Wf()
  {
    WithLayout(WithLayout(st, MachPhysKPhys, [Region(0, maxaddr, METH_MACHPHYS_KPHYS, ActIdentKPhys)]),
               KPhysMachPhys, [Region(0, maxaddr, METH_KPHYS_MACHPHYS, ActIdentMachPhys)])
  }

  /** Up to the highest physical address, kernel and machine physical addresses are then the same,
      whatever was set before. */
  lemma IdentityRoundTrip(c: Ctx, st: State, maxaddr: Addr, a: Addr)
    requires c.Wf() && st.Wf() && a <= maxaddr && Realizes(c.sys, WithPhysMaps(st, maxaddr))
    ensures Guarded(c, {MachPhysAddr}, FullAddr(a, KPhysAddr), []) == Reached(FullAddr(a, MachPhysAddr))
    ensures Guarded(c, {KPhysAddr}, FullAddr(a, MachPhysAddr), []) == Reached(FullAddr(a, KPhysAddr))
  {
    hide Guarded, WithPhysMaps, Realizes, Sys.Select;
    var s := WithPhysMaps(st, maxaddr);
    PhysMapsSet(st, maxaddr, a);
    Selects(c.sys, s, MachPhysKPhys, a, METH_MACHPHYS_KPHYS);
    Selects(c.sys, s, KPhysMachPhys, a, METH_KPHYS_MACHPHYS);
    var kphys, mach := FullAddr(a, KPhysAddr), FullAddr(a, MachPhysAddr);
    OneHop(c, {MachPhysAddr}, kphys, KPhys2MachPhys, KPhysMachPhys, Linear(0, MachPhysAddr), mach);
    OneHop(c, {KPhysAddr}, mach, MachPhys2Direct, MachPhysKPhys, Linear(0, KPhysAddr), kphys);
  }

  lemma OneRegion(st: State, m: MapIdx, r: Region)
    requires st.Wf() && r.Wf()
    ensures WithLayout(st, m, [r]) == Apply(st, m, r)
  {
    assert [r][..0] == [];
    assert WithLayout(st, m, [r][..0]) == st;
  }

  lemma PhysMapsSet(st: State, maxaddr: Addr, a: Addr)
    requires st.Wf() && a <= maxaddr
    ensures var s := WithPhysMaps(st, maxaddr);
            && AddrMap.Painted(s.Updates(MachPhysKPhys), a) == METH_MACHPHYS_KPHYS
            && AddrMap.Painted(s.Updates(KPhysMachPhys), a) == METH_KPHYS_MACHPHYS
            && s.meths[METH_MACHPHYS_KPHYS] == Linear(0, KPhysAddr)
            && s.meths[METH_KPHYS_MACHPHYS] == Linear(0, MachPhysAddr)
  {
    var r0 := Region(0, maxaddr, METH_MACHPHYS_KPHYS, ActIdentKPhys);
    var r1 := Region(0, maxaddr, METH_KPHYS_MACHPHYS, ActIdentMachPhys);
    var s0 := Apply(st, MachPhysKPhys, r0);
    OneRegion(st, MachPhysKPhys, r0);
    OneRegion(s0, KPhysMachPhys, r1);
    hide WithLayout, AddrMap.Painted;
    PaintedLast(st.Updates(MachPhysKPhys), AddrMap.Update(0, maxaddr, METH_MACHPHYS_KPHYS), a);
    PaintedLast(s0.Updates(KPhysMachPhys), AddrMap.Update(0, maxaddr, METH_KPHYS_MACHPHYS), a);
  }

  // ---------------------------------------------------------------------------
  // Hardware maps

  /** `layout_generic`, `layout_5level` and the layout in `init_hw_map`: the two halves of an
      address space of `bits` bits. */
  function Halves(bits: nat): seq<Region>
    requires 0 < bits < 64
  {
    HalfFits(bits);
    [Region(0, Pow2(bits - 1) - 1, METH_PGT, NoAction),
     Region(ADDR_SPAN - Pow2(bits - 1), ADDR_SPAN - 1, METH_PGT, NoAction)]
  }

  lemma HalfFits(bits: nat)
    requires 0 < bits < 64
    ensures 2 * Pow2(bits - 1) == Pow2(bits) && 2 * Pow2(bits) <= ADDR_SPAN
  {
    Pow2Grows(bits, 63);
    Pow2Of63();
  }

  /** The paging forms of x86_64 and riscv64 for the numbers of address bits they know. */
  function FormFor(fmt: Format, bits: nat): Form
    requires bits in {39, 48, 57}
  {
    Form(fmt, if bits == 39 then [12, 9, 9, 9] else if bits == 48 then [12, 9, 9, 9, 9] else [12, 9, 9, 9, 9, 9])
  }

  lemma FormBits(fmt: Format, bits: nat)
    requires bits in {39, 48, 57}
    ensures FormFor(fmt, bits).Wf() && Width(FormFor(fmt, bits).fieldsz, |FormFor(fmt, bits).fieldsz|) == bits
  {
    var f := FormFor(fmt, bits).fieldsz;
    assert Width(f, 0) == 0 && Width(f, 1) == 12 && Width(f, 2) == 21 && Width(f, 3) == 30 && Width(f, 4) == 39;
    assert |f| > 4 ==> Width(f, 5) == 48;
    assert |f| > 5 ==> Width(f, 6) == 57;
  }

  /** The new hardware map has the page table method for exactly the addresses whose walk can
      start, and no method for the others. */
  lemma HardwareMap(st: State, p: Pgt, bits: nat, a: Addr)
    requires st.Wf() && st.Updates(HW) == [] && p.root.space != NoAddr && p.pf.fmt != Arm
    requires bits in {39, 48, 57} && p.pf == FormFor(p.pf.fmt, bits)
    ensures p.pf.Wf()
    ensures AddrMap.Painted(WithLayout(st, HW, Halves(bits)).Updates(HW), a)
         == if Launches(p, a) then METH_PGT else AddrMap.METH_NONE
  {
    hide FormFor, Width, Halves, Pow2, Span, AddrMap.Painted, WithLayout, Form.Wf;
    FormBits(p.pf.fmt, bits);
    FormSpan(p.pf.fmt, bits);
    HalvesPainted(st, bits, a);
    BothHalves(a, Pow2(bits - 1), Pow2(64 - bits));
  }

  lemma FormSpan(fmt: Format, bits: nat)
    requires bits in {39, 48, 57}
    ensures Span(FormFor(fmt, bits).fieldsz, |FormFor(fmt, bits).fieldsz|) == 2 * Pow2(bits - 1)
    ensures 2 * Pow2(bits - 1) * Pow2(64 - bits) == ADDR_SPAN
  {
    hide FormFor, Width, Pow2;
    FormBits(fmt, bits);
    HalfFits(bits);
    Pow2Sum(bits, 64 - bits);
    Pow2Sum(1, 63);
    Pow2Of63();
    assert Pow2(1) == 2 by { Doubled(0); }
  }

  lemma Doubled(k: nat)
    ensures Pow2(k + 1) == 2 * Pow2(k) && Pow2(0) == 1
  {
  }

  lemma HalvesPainted(st: State, bits: nat, a: Addr)
    requires st.Wf() && st.Updates(HW) == [] && 0 < bits < 64
    ensures AddrMap.Painted(WithLayout(st, HW, Halves(bits)).Updates(HW), a)
         == if a < Pow2(bits - 1) || a >= ADDR_SPAN - Pow2(bits - 1) then METH_PGT else AddrMap.METH_NONE
  {
    HalfFits(bits);
    var l := Halves(bits);
    var u0 := AddrMap.Update(l[0].first, l[0].last - l[0].first, METH_PGT);
    var u1 := AddrMap.Update(l[1].first, l[1].last - l[1].first, METH_PGT);
    var l1 := l[..|l| - 1];
    assert l1 == [l[0]] && l1[..|l1| - 1] == [];
    assert WithLayout(st, HW, l1[..|l1| - 1]) == st;
    var s1 := WithLayout(st, HW, l1);
    assert s1 == Apply(st, HW, l[0]) && s1.Updates(HW) == [] + [u0];
    assert WithLayout(st, HW, l) == Apply(s1, HW, l[1]);
    assert WithLayout(st, HW, l).Updates(HW) == [] + [u0] + [u1];
    PaintedLast([] + [u0], u1, a);
    PaintedLast([], u0, a);
  }

  lemma BothHalves(a: Addr, half: nat, k: nat)
    requires 0 < half && 0 < k && 2 * half * k == ADDR_SPAN
    ensures var low := a % (2 * half);
            (a == if low < half then low else low + (ADDR_SPAN - 2 * half)) <==> a < half || a >= ADDR_SPAN - half
  {
    var m, low := 2 * half, a % (2 * half);
    if a < m {
      ModUnique(a, m, 0, a);
    } else if a >= ADDR_SPAN - m {
      Distribute(m, k - 1, 1);
      ModUnique(a, m, k - 1, a - m * (k - 1));
    }
  }

  // ---------------------------------------------------------------------------
  // Setting a layout

  datatype Result = Done | NoMem

  class System {
    var st: State

    constructor ()
      ensures st.Wf() && st.maps == map[]
    {
      st := State(map[], seq(METH_NUM, _ => NoMethod));
    }

    /** `act_direct`, which sets the layout of the reverse map */
    method ActDirect(r: Region) returns (res: Result)
      requires st.Wf() && r.Wf()
      modifies this
      ensures st.Wf() && (res == Done ==> st == DirectAction(old(st), r))
      decreases 1
    {
      var layout := [Reverse(r)];
      st := SetMeth(st, r.meth, Linear(Negated(r.first), KPhysAddr));
      res := SetSimple(KPhysDirect, layout[0]);
    }

    /** The part of `sys_set_layout` for a region that needs no other layout */
    method SetSimple(m: MapIdx, r: Region) returns (res: Result)
      requires st.Wf() && r.Wf()
      modifies this
      ensures st.Wf() && (res == Done ==> st == SetRange(SimpleAction(old(st), r), m, r))
      decreases 0
    {
      st := SimpleAction(st, r);
      var memory: bool := *;
      if !memory {
        return NoMem;
      }
      st := SetRange(st, m, r);
      res := Done;
    }

    /** `sys_set_layout` */
    method SetLayout(m: MapIdx, layout: seq<Region>) returns (res: Result)
      requires st.Wf() && AllWf(layout)
      modifies this
      ensures st.Wf() && (res == Done ==> st == WithLayout(old(st), m, layout))
    {
      var i := 0;
      while i < |layout|
        invariant 0 <= i <= |layout| && st.Wf() && st == WithLayout(old(st), m, layout[..i])
      {
        var r := layout[i];
        assert layout[..i + 1][..i] == layout[..i];
        if r.act == Action.ActDirect {
          res := ActDirect(r);
          if res != Done {
            return;
          }
          var memory: bool := *;
          if !memory {
            return NoMem;
          }
          st := SetRange(st, m, r);
        } else {
          res := SetSimple(m, r);
          if res != Done {
            return;
          }
        }
        i := i + 1;
      }
      assert layout[..|layout|] == layout;
      res := Done;
    }

    /** `sys_set_physmaps` */
    method SetPhysMaps(maxaddr: Addr) returns (res: Result)
      requires st.Wf()
      modifies this
      ensures st.Wf() && (res == Done ==> st == WithPhysMaps(old(st), maxaddr))
    {
      res := SetLayout(MachPhysKPhys, [Region(0, maxaddr, METH_MACHPHYS_KPHYS, ActIdentKPhys)]);
      if res == Done {
        res := SetLayout(KPhysMachPhys, [Region(0, maxaddr, METH_KPHYS_MACHPHYS, ActIdentMachPhys)]);
      }
    }
  }
}
