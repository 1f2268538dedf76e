/** The read cache of the address translation context (`src/addrxlat/ctx.c`): four slots on a
    ring kept in order of recency, filled by the page callback. */
module ReadCache {
  import opened CacheInvariant
  import opened PageTable
  import opened RingList
  import Bitmap
  import Bits
  import CacheRecency
  import CacheSpec

  type Byte = Bitmap.Byte

  /** `READ_CACHE_SLOTS` */
  const SLOTS: nat := 4

  datatype ByteOrder = BigEndian | LittleEndian

  /** `addrxlat_buffer_t`: bytes held by the callback, or a null pointer and a size. */
  datatype Buffer =
    | Held(addr: FullAddr, order: ByteOrder, bytes: seq<Byte>)
    | Nowhere(addr: FullAddr, size: nat)
  {
    function Size(): nat {
      if Held? then |bytes| else size
    }
  }

  /** What the page callback answers. */
  datatype Reply = Page(buf: Buffer) | Failed(error: Error)

  type Callback = FullAddr -> Reply

  /** The unsigned 64-bit difference `a - b`. */
  function Ahead(a: Addr, b: Addr): Addr {
    (a - b) % ADDR_SPAN
  }

  predicate Covers(b: Buffer, a: FullAddr) {
    b.Size() > Ahead(a.addr, b.addr.addr) && b.addr.space == a.space
  }

  /** The slots, the order of the ring from the most recently used slot on, and the buffers that
      were obtained from the page callback and given back to it so far. */
  datatype Cache = Cache(slots: seq<Buffer>, order: seq<nat>, obtained: seq<Buffer>, released: seq<Buffer>) {
    ghost predicate Wf() {
      && |slots| == |order| == SLOTS
      && NoDup(order) && Below(order, SLOTS)
    }

    function Release(s: nat): Cache
      requires s < |slots|
    {
      if slots[s].Size() > 0 then this.(released := released + [slots[s]]) else this
    }

    function Fill(s: nat, b: Buffer): Cache
      requires s < |slots|
    {
      this.(slots := slots[s := b], obtained := if b.Size() > 0 then obtained + [b] else obtained)
    }
  }

  /** The context starts zeroed, with the slots linked in index order. */
  function Initial(): Cache {
    var empty := Nowhere(FullAddr(0, KPhysAddr), 0);
    Cache([empty, empty, empty, empty], [0, 1, 2, 3], [], [])
  }

  /** The first slot from `i` on that holds `a`, or `SLOTS`. */
  function Find(slots: seq<Buffer>, a: FullAddr, i: nat): (s: nat)
    requires |slots| == SLOTS && i <= SLOTS
    ensures i <= s <= SLOTS
    ensures s < SLOTS ==> Covers(slots[s], a)
    ensures forall j :: i <= j < s ==> !Covers(slots[j], a)
    decreases SLOTS - i
  {
    if i == SLOTS || Covers(slots[i], a) then i else Find(slots, a, i + 1)
  }

  function Touched(order: seq<nat>, s: nat): seq<nat> {
    [s] + CacheSpec.Del(order, s)
  }

  function Buried(order: seq<nat>, s: nat): seq<nat> {
    CacheSpec.Del(order, s) + [s]
  }

  datatype Outcome = Outcome(cache: Cache, read: Read<Buffer>)

  function Deliver(c: Cache, s: nat): Outcome
    requires s < |c.slots|
  {
    if c.slots[s].Held? then Outcome(c.(order := Touched(c.order, s)), Got(c.slots[s]))
    else Outcome(c, Lost(NoData))
  }

  /** `get_cache_buf` on values. */
  function Fetch(page: Callback, c: Cache, a: FullAddr): Outcome
    requires c.Wf()
  {
    var s := Find(c.slots, a, 0);
    if s < SLOTS then Deliver(c, s)
    else
      var victim := c.order[SLOTS - 1];
      var freed := c.Release(victim);
      match page(a)
      case Failed(e) => Outcome(freed.Fill(victim, Nowhere(a, 0)), Lost(e))
      case Page(b) => Deliver(freed.Fill(victim, b), victim)
  }

  /** `bury_cache_buffer` on values. */
  function Bury(c: Cache, a: FullAddr): Cache
    requires c.Wf()
  {
    var s := Find(c.slots, a, 0);
    if s < SLOTS then c.(order := Buried(c.order, s)) else c
  }

  // ---------------------------------------------------------------------------
  // Runs

  datatype Op = OpFetch(addr: FullAddr) | OpBury(addr: FullAddr)

  function Step(page: Callback, c: Cache, op: Op): Cache
    requires c.Wf()
  {
    match op
    case OpFetch(a) => Fetch(page, c, a).cache
    case OpBury(a) => Bury(c, a)
  }

  /** The cache of a context after any mix of fetches and burials. */
  function After(page: Callback, ops: seq<Op>): (c: Cache)
    ensures c.Wf()
  {
    if ops == [] then Initial()
    else
      var c := After(page, ops[..|ops| - 1]);
      StepWf(page, c, ops[|ops| - 1]);
      Step(page, c, ops[|ops| - 1])
  }

  lemma MovedWf(order: seq<nat>, s: nat)
    requires NoDup(order) && Below(order, SLOTS) && |order| == SLOTS && s < SLOTS
    ensures s in order
    ensures NoDup(Touched(order, s)) && Below(Touched(order, s), SLOTS) && |Touched(order, s)| == SLOTS
    ensures NoDup(Buried(order, s)) && Below(Buried(order, s), SLOTS) && |Buried(order, s)| == SLOTS
  {
    assert s in order by {
      assert order[0] != order[1] && order[0] != order[2] && order[0] != order[3];
      assert order[1] != order[2] && order[1] != order[3] && order[2] != order[3];
    }
    DelFacts(order, s);
    DelBelow(order, s, SLOTS);
    var rest := CacheSpec.Del(order, s);
    assert forall k :: 0 <= k < |rest| ==> rest[k] in rest;
  }

  lemma OneMoreFetch(page: Callback, ops: seq<Op>, a: FullAddr)
    ensures After(page, ops + [OpFetch(a)]) == Fetch(page, After(page, ops), a).cache
  {
    var more := ops + [OpFetch(a)];
    assert more[..|more| - 1] == ops;
    hide Fetch;
  }

  lemma StepWf(page: Callback, c: Cache, op: Op)
    requires c.Wf()
    ensures Step(page, c, op).Wf()
  {
    var s := Find(c.slots, op.addr, 0);
    MovedWf(c.order, if s < SLOTS then s else c.order[SLOTS - 1]);
  }

  // ---------------------------------------------------------------------------
  // The cache does not change what is read

  /** What a fetch gives when nothing is cached. */
  function Direct(page: Callback, a: FullAddr): (r: Read<Buffer>)
    ensures r.Got? ==> r.value.Held?
  {
    match page(a)
    case Failed(e) => Lost(e)
    case Page(b) => if b.Held? then Got(b) else Lost(NoData)
  }

  ghost predicate Answered(page: Callback, b: Buffer) {
    exists q :: page(q) == Page(b)
  }

  /** Every filled slot holds an answer of the page callback. */
  ghost predicate Genuine(page: Callback, slots: seq<Buffer>) {
    forall s :: 0 <= s < |slots| && slots[s].Size() > 0 ==> Answered(page, slots[s])
  }

  lemma StepGenuine(page: Callback, c: Cache, op: Op)
    requires c.Wf() && Genuine(page, c.slots)
    ensures Genuine(page, Step(page, c, op).slots)
  {
    if page(op.addr).Page? {
      assert Answered(page, page(op.addr).buf);
    }
  }

  lemma {:induction false} AlwaysGenuine(page: Callback, ops: seq<Op>)
    ensures Genuine(page, After(page, ops).slots)
  {
    hide Step;
    if ops == [] {
    } else {
      AlwaysGenuine(page, ops[..|ops| - 1]);
      StepGenuine(page, After(page, ops[..|ops| - 1]), ops[|ops| - 1]);
    }
  }

  /** One answer for all addresses of a page. */
  ghost predicate Uniform(page: Callback) {
    forall q, a :: page(q).Page? && Covers(page(q).buf, a) ==> page(a) == page(q)
  }

  /** Whatever was fetched and buried before, a fetch gives what the callback alone gives. */
  lemma Transparent(page: Callback, ops: seq<Op>, a: FullAddr)
    requires Uniform(page)
    ensures Fetch(page, After(page, ops), a).read == Direct(page, a)
  {
    AlwaysGenuine(page, ops);
    var c := After(page, ops);
    var s := Find(c.slots, a, 0);
    if s < SLOTS {
      var q :| page(q) == Page(c.slots[s]);
      assert Covers(page(q).buf, a);
    }
  }

  /** The number that bytes stand for. */
  function Value(order: ByteOrder, bytes: seq<Byte>): nat {
    if bytes == [] then 0
    else if order == LittleEndian then bytes[0] + 256 * Value(order, bytes[1..])
    else bytes[|bytes| - 1] + 256 * Value(order, bytes[..|bytes| - 1])
  }

  lemma {:induction false} ValueBound(order: ByteOrder, bytes: seq<Byte>)
    ensures Value(order, bytes) < Bits.Power256(|bytes|)
  {
    if bytes == [] {
    } else {
      ValueBound(order, if order == LittleEndian then bytes[1..] else bytes[..|bytes| - 1]);
    }
  }

  /** Byte `i` of a number, from the lowest one on, is the one at `i`, or for big-endian numbers the
      one as far from the end. */
  lemma {:induction false} ValueByte(order: ByteOrder, bytes: seq<Byte>, i: nat)
    requires i < |bytes|
    ensures Value(order, bytes) / Bits.Power256(i) % 256
         == bytes[if order == LittleEndian then i else |bytes| - 1 - i]
    decreases i
  {
    var n := |bytes| - 1;
    var low := if order == LittleEndian then bytes[0] else bytes[n];
    var rest := if order == LittleEndian then bytes[1..] else bytes[..n];
    Bits.ModUnique(Value(order, bytes), 256, Value(order, rest), low);
    if i == 0 {
    } else {
      Bits.DigitAbove(Value(order, bytes), i - 1);
      ValueByte(order, rest, i - 1);
    }
  }

  /** The buffer does not end within the `n` bytes from `a` on. */
  ghost predicate RoomIn(r: Read<Buffer>, a: FullAddr, n: nat) {
    r.Got? ==> r.value.Held? && Ahead(a.addr, r.value.addr.addr) + n <= |r.value.bytes|
  }

  /** The word at `a` as a buffer tells it. */
  function WordIn(r: Read<Buffer>, a: FullAddr, n: nat): Read<nat>
    requires RoomIn(r, a, n)
  {
    match r
    case Lost(e) => Lost(e)
    case Got(b) =>
      var k := Ahead(a.addr, b.addr.addr);
      Got(Value(b.order, b.bytes[k..k + n]))
  }

  /** The callback answers with a buffer around the address, filled from `mem`. */
  ghost predicate Honest(page: Callback, mem: FullAddr -> Byte) {
    forall q :: page(q).Page? && page(q).buf.Held? ==>
      Covers(page(q).buf, q) && Agrees(page(q).buf, mem)
  }

  ghost predicate Agrees(b: Buffer, mem: FullAddr -> Byte)
    requires b.Held?
  {
    forall k :: 0 <= k < |b.bytes| ==> b.bytes[k] == mem(FullAddr((b.addr.addr + k) % ADDR_SPAN, b.addr.space))
  }

  lemma AheadBack(a: Addr, b: Addr)
    ensures (b + Ahead(a, b)) % ADDR_SPAN == a
  {
  }

  /** Even when pages overlap in odd ways: a fetched buffer is around the address, and has the
      byte of the memory at its place. */
  lemma TrueByte(page: Callback, ops: seq<Op>, mem: FullAddr -> Byte, a: FullAddr)
    requires Honest(page, mem) && Fetch(page, After(page, ops), a).read.Got?
    ensures RightAt(Fetch(page, After(page, ops), a).read.value, mem, a)
  {
    var b := Fetch(page, After(page, ops), a).read.value;
    var q := FetchedFrom(page, ops, a);
    hide Fetch, After;
    AgreesAt(b, mem, a);
  }

  /** Where byte `i` of a word of `n` bytes at `a` is in memory. */
  function ByteAddr(order: ByteOrder, a: FullAddr, n: nat, i: nat): FullAddr
    requires i < n
  {
    a.(addr := (a.addr + if order == LittleEndian then i else n - 1 - i) % ADDR_SPAN)
  }

  /** So the bytes of a word, in the order of the page, are those of the memory. */
  lemma TrueWord(page: Callback, ops: seq<Op>, mem: FullAddr -> Byte, a: FullAddr, n: nat)
    requires Honest(page, mem) && Fetch(page, After(page, ops), a).read.Got?
    requires RoomIn(Fetch(page, After(page, ops), a).read, a, n)
    ensures var r := Fetch(page, After(page, ops), a).read;
            var w := WordIn(r, a, n).value;
            && w < Bits.Power256(n)
            && forall i: nat :: i < n ==> w / Bits.Power256(i) % 256 == mem(ByteAddr(r.value.order, a, n, i))
  {
    hide Fetch, After, RightAt, WordIn, Bits.Power256;
    var r := Fetch(page, After(page, ops), a).read;
    TrueByte(page, ops, mem, a);
    BoundedWord(r, mem, a, n);
    forall i: nat | i < n
      ensures WordIn(r, a, n).value / Bits.Power256(i) % 256 == mem(ByteAddr(r.value.order, a, n, i))
    {
      TrueWordByte(r, mem, a, n, i);
    }
  }

  lemma BoundedWord(r: Read<Buffer>, mem: FullAddr -> Byte, a: FullAddr, n: nat)
    requires r.Got? && RoomIn(r, a, n)
    ensures WordIn(r, a, n).Got? && WordIn(r, a, n).value < Bits.Power256(n)
  {
    var k := Ahead(a.addr, r.value.addr.addr);
    ValueBound(r.value.order, r.value.bytes[k..k + n]);
    hide Value, Ahead;
  }

  lemma TrueWordByte(r: Read<Buffer>, mem: FullAddr -> Byte, a: FullAddr, n: nat, i: nat)
    requires r.Got? && RoomIn(r, a, n) && RightAt(r.value, mem, a) && i < n
    ensures WordIn(r, a, n).Got?
    ensures WordIn(r, a, n).value / Bits.Power256(i) % 256 == mem(ByteAddr(r.value.order, a, n, i))
  {
    hide Value, Ahead, RightAt, Bits.Power256, Covers, Agrees;
    var b := r.value;
    var k := Ahead(a.addr, b.addr.addr);
    var j: nat := if b.order == LittleEndian then i else n - 1 - i;
    ValueByte(b.order, b.bytes[k..k + n], i);
    WordByte(b, mem, a, j);
    assert b.bytes[k..k + n][j] == b.bytes[k + j];
  }

  lemma WordByte(b: Buffer, mem: FullAddr -> Byte, a: FullAddr, j: nat)
    requires RightAt(b, mem, a) && Ahead(a.addr, b.addr.addr) + j < |b.bytes|
    ensures b.bytes[Ahead(a.addr, b.addr.addr) + j] == mem(a.(addr := (a.addr + j) % ADDR_SPAN))
  {
    var k := Ahead(a.addr, b.addr.addr);
    AheadOn(a.addr, b.addr.addr, j);
    hide Ahead;
    assert b.bytes[k + j] == mem(FullAddr((b.addr.addr + (k + j)) % ADDR_SPAN, b.addr.space));
  }

  lemma AheadOn(a: Addr, b: Addr, j: nat)
    ensures (b + (Ahead(a, b) + j)) % ADDR_SPAN == (a + j) % ADDR_SPAN
  {
  }

  ghost predicate RightAt(b: Buffer, mem: FullAddr -> Byte, a: FullAddr) {
    b.Held? && Covers(b, a) && Agrees(b, mem) && b.bytes[Ahead(a.addr, b.addr.addr)] == mem(a)
  }

  lemma AgreesAt(b: Buffer, mem: FullAddr -> Byte, a: FullAddr)
    requires b.Held? && Covers(b, a) && Agrees(b, mem)
    ensures RightAt(b, mem, a)
  {
    AheadBack(a.addr, b.addr.addr);
    var k := Ahead(a.addr, b.addr.addr);
    hide Ahead;
    assert b.bytes[k] == mem(FullAddr((b.addr.addr + k) % ADDR_SPAN, b.addr.space));
  }

  lemma FetchedFrom(page: Callback, ops: seq<Op>, a: FullAddr) returns (q: FullAddr)
    requires Fetch(page, After(page, ops), a).read.Got?
    ensures var b := Fetch(page, After(page, ops), a).read.value;
      b.Held? && page(q) == Page(b) && (q == a || Covers(b, a))
  {
    AlwaysGenuine(page, ops);
    var c := After(page, ops);
    var s := Find(c.slots, a, 0);
    q := a;
    if s < SLOTS {
      q :| page(q) == Page(c.slots[s]);
    }
  }

  // ---------------------------------------------------------------------------
  // The ring is in order of recency

  /** The slot that serves a fetch. */
  function Served(c: Cache, a: FullAddr): (s: nat)
    requires c.Wf()
    ensures s < SLOTS
  {
    var s := Find(c.slots, a, 0);
    if s < SLOTS then s else c.order[SLOTS - 1]
  }

  /** What an operation does to the order of the ring. */
  datatype Effect = Front(slot: nat) | Back(slot: nat) | Stay

  function EffectOf(page: Callback, c: Cache, op: Op): (e: Effect)
    requires c.Wf()
    ensures !e.Stay? ==> e.slot < SLOTS
  {
    match op
    case OpFetch(a) => if Fetch(page, c, a).read.Got? then Front(Served(c, a)) else Stay
    case OpBury(a) =>
      var s := Find(c.slots, a, 0);
      if s < SLOTS then Back(s) else Stay
  }

  function Reordered(order: seq<nat>, e: Effect): seq<nat> {
    match e
    case Front(s) => Touched(order, s)
    case Back(s) => Buried(order, s)
    case Stay => order
  }

  lemma EffectOnOrder(page: Callback, c: Cache, op: Op)
    requires c.Wf()
    ensures Step(page, c, op).order == Reordered(c.order, EffectOf(page, c, op))
  {
  }

  /** How recently slot `s` was used: the number of the last operation that delivered it;
      burying makes it older than anything before, a slot that was never used counts by its index. */
  function Recency(page: Callback, ops: seq<Op>, s: nat): int {
    if ops == [] then 0 - s
    else
      var before := ops[..|ops| - 1];
      match EffectOf(page, After(page, before), ops[|ops| - 1])
      case Front(x) => if x == s then |ops| else Recency(page, before, s)
      case Back(x) => if x == s then 0 - SLOTS - |ops| else Recency(page, before, s)
      case Stay => Recency(page, before, s)
  }

  ghost function Recencies(page: Callback, ops: seq<Op>): (f: seq<int>)
    ensures |f| == SLOTS && forall s :: 0 <= s < SLOTS ==> f[s] == Recency(page, ops, s)
  {
    [Recency(page, ops, 0), Recency(page, ops, 1), Recency(page, ops, 2), Recency(page, ops, 3)]
  }

  ghost predicate InOrder(f: seq<int>, order: seq<nat>) {
    && Below(order, |f|)
    && forall i, j :: 0 <= i < j < |order| ==> f[order[i]] > f[order[j]]
  }

  lemma {:induction false} RecencyBounds(page: Callback, ops: seq<Op>, s: nat)
    requires s < SLOTS
    ensures 0 - SLOTS - |ops| <= Recency(page, ops, s) <= |ops|
    ensures ops == [] ==> 0 - SLOTS < Recency(page, ops, s)
  {
    hide EffectOf, After;
    if ops == [] {
    } else {
      RecencyBounds(page, ops[..|ops| - 1], s);
    }
  }

  ghost predicate Within(f: seq<int>, n: nat) {
    |f| == SLOTS && forall s :: 0 <= s < SLOTS ==> 0 - SLOTS - n < f[s] < n
  }

  ghost function Aged(f: seq<int>, n: nat, e: Effect): seq<int>
    requires |f| == SLOTS && (!e.Stay? ==> e.slot < SLOTS)
  {
    match e
    case Front(s) => f[s := n]
    case Back(s) => f[s := 0 - SLOTS - n]
    case Stay => f
  }

  lemma AgedInOrder(f: seq<int>, n: nat, order: seq<nat>, e: Effect)
    requires Within(f, n) && InOrder(f, order) && NoDup(order) && (!e.Stay? ==> e.slot < SLOTS)
    ensures InOrder(Aged(f, n, e), Reordered(order, e))
  {
    hide InOrder, Touched, Buried;
    match e
    case Front(s) => TouchedInOrder(f, f[s := n], order, s);
    case Back(s) => BuriedInOrder(f, f[s := 0 - SLOTS - n], order, s);
    case Stay =>
  }

  lemma RecencyStep(page: Callback, before: seq<Op>, op: Op, s: nat)
    requires s < SLOTS
    ensures var e, n := EffectOf(page, After(page, before), op), |before| + 1;
      Recency(page, before + [op], s)
      == if !e.Stay? && e.slot == s then (if e.Front? then n else 0 - SLOTS - n) else Recency(page, before, s)
  {
    hide EffectOf, After;
    assert (before + [op])[..|before|] == before && (before + [op])[|before|] == op;
  }

  lemma RecenciesWithin(page: Callback, ops: seq<Op>)
    ensures Within(Recencies(page, ops), |ops| + 1)
  {
    hide Recencies, Recency;
    forall s: nat | s < SLOTS ensures 0 - SLOTS - |ops| - 1 < Recency(page, ops, s) < |ops| + 1 {
      RecencyBounds(page, ops, s);
    }
  }

  lemma RecenciesStep(page: Callback, before: seq<Op>, op: Op)
    ensures Recencies(page, before + [op])
         == Aged(Recencies(page, before), |before| + 1, EffectOf(page, After(page, before), op))
  {
    hide EffectOf, After, Recency, Recencies;
    var e := EffectOf(page, After(page, before), op);
    var f, g := Recencies(page, before), Aged(Recencies(page, before), |before| + 1, e);
    forall s: nat | s < SLOTS ensures Recency(page, before + [op], s) == g[s] {
      RecencyStep(page, before, op, s);
    }
    assert |g| == SLOTS;
  }

  /** The ring always is in order of recency, so what a miss replaces is the slot that was not
      used for the longest time, and buried slots go first. */
  lemma {:induction false} MostRecentFirst(page: Callback, ops: seq<Op>)
    ensures InOrder(Recencies(page, ops), After(page, ops).order)
  {
    if ops == [] {
    } else {
      var before, op := ops[..|ops| - 1], ops[|ops| - 1];
      assert before + [op] == ops;
      MostRecentFirst(page, before);
      var c := After(page, before);
      EffectOnOrder(page, c, op);
      RecenciesWithin(page, before);
      RecenciesStep(page, before, op);
      AgedInOrder(Recencies(page, before), |ops|, c.order, EffectOf(page, c, op));
      assert After(page, ops).order == Step(page, c, op).order;
    }
  }

  lemma RestInOrder(f: seq<int>, f': seq<int>, order: seq<nat>, s: nat)
    requires InOrder(f, order) && NoDup(order) && s < |f| && |f'| == |f| && f' == f[s := f'[s]]
    ensures InOrder(f', CacheSpec.Del(order, s)) && s !in CacheSpec.Del(order, s)
  {
    DelFacts(order, s);
    DelBelow(order, s, |f|);
    var rest := CacheSpec.Del(order, s);
    forall i, j | 0 <= i < j < |rest| ensures f'[rest[i]] > f'[rest[j]] {
      var i', j' := CacheRecency.DelIsSubsequence(order, s, i, j);
      assert f[order[i']] > f[order[j']];
      assert rest[i] in rest && rest[j] in rest;
    }
  }

  lemma TouchedInOrder(f: seq<int>, f': seq<int>, order: seq<nat>, s: nat)
    requires InOrder(f, order) && NoDup(order) && s < |f| && |f'| == |f| && f' == f[s := f'[s]]
    requires forall x :: 0 <= x < |f| ==> f[x] < f'[s]
    ensures InOrder(f', Touched(order, s))
  {
    RestInOrder(f, f', order, s);
    var rest := CacheSpec.Del(order, s);
    assert forall i :: 0 <= i < |rest| ==> rest[i] in rest;
  }

  lemma BuriedInOrder(f: seq<int>, f': seq<int>, order: seq<nat>, s: nat)
    requires InOrder(f, order) && NoDup(order) && s < |f| && |f'| == |f| && f' == f[s := f'[s]]
    requires forall x :: 0 <= x < |f| ==> f[x] > f'[s]
    ensures InOrder(f', Buried(order, s))
  {
    RestInOrder(f, f', order, s);
    var rest := CacheSpec.Del(order, s);
    assert forall i :: 0 <= i < |rest| ==> rest[i] in rest;
  }

  // ---------------------------------------------------------------------------
  // How long a fetched buffer stays

  function Place(order: seq<nat>, s: nat): (k: nat)
    ensures k <= |order| && (k < |order| ==> order[k] == s)
    ensures s in order ==> k < |order|
  {
    if order == [] || order[0] == s then 0 else 1 + Place(order[1..], s)
  }

  /** Slot `s` holds `b`, and is at most `k` places behind the most recently used one. */
  ghost predicate Keeps(c: Cache, s: nat, b: Buffer, k: nat) {
    && c.Wf() && s < SLOTS && c.slots[s] == b && Place(c.order, s) <= k
  }

  lemma {:induction false} DelPlace(order: seq<nat>, x: nat, s: nat)
    requires x != s
    ensures Place(CacheSpec.Del(order, x), s) <= Place(order, s)
  {
    if order != [] && order[0] != s && order[0] != x {
      var rest := CacheSpec.Del(order[1..], x);
      assert ([order[0]] + rest)[1..] == rest;
      DelPlace(order[1..], x, s);
    }
  }

  lemma {:induction false} AppendPlace(order: seq<nat>, x: nat, s: nat)
    requires s in order
    ensures Place(order + [x], s) == Place(order, s)
  {
    if order[0] != s {
      assert (order + [x])[1..] == order[1..] + [x];
      AppendPlace(order[1..], x, s);
    }
  }

  lemma ReorderedPlace(order: seq<nat>, e: Effect, s: nat)
    requires NoDup(order) && s in order && (e.Back? ==> e.slot != s)
    ensures Place(Reordered(order, e), s) <= Place(order, s) + 1
  {
    if !e.Stay? && e.slot != s {
      var rest := CacheSpec.Del(order, e.slot);
      DelFacts(order, e.slot);
      DelPlace(order, e.slot, s);
      assert ([e.slot] + rest)[1..] == rest;
      AppendPlace(rest, e.slot, s);
    }
  }

  ghost predicate Buries(op: Op, b: Buffer) {
    op.OpBury? && Covers(b, op.addr)
  }

  lemma NotVictim(c: Cache, s: nat, b: Buffer, k: nat)
    requires Keeps(c, s, b, k) && k < SLOTS - 1
    ensures s in c.order && c.order[SLOTS - 1] != s
  {
    MovedWf(c.order, s);
  }

  lemma StepHolds(page: Callback, c: Cache, op: Op, s: nat)
    requires c.Wf() && s < SLOTS && c.order[SLOTS - 1] != s
    ensures Step(page, c, op).Wf() && Step(page, c, op).slots[s] == c.slots[s]
  {
    StepWf(page, c, op);
  }

  lemma OnlyOwnBurial(page: Callback, c: Cache, op: Op)
    requires c.Wf() && EffectOf(page, c, op).Back?
    ensures Buries(op, c.slots[EffectOf(page, c, op).slot])
  {
  }

  lemma StepKeeps(page: Callback, c: Cache, op: Op, s: nat, b: Buffer, k: nat)
    requires Keeps(c, s, b, k) && k < SLOTS - 1 && !Buries(op, b)
    ensures Keeps(Step(page, c, op), s, b, k + 1)
  {
    hide EffectOf, Reordered, Place, Step, Buries;
    NotVictim(c, s, b, k);
    EffectOnOrder(page, c, op);
    StepHolds(page, c, op, s);
    var e := EffectOf(page, c, op);
    if e.Back? {
      OnlyOwnBurial(page, c, op);
    }
    ReorderedPlace(c.order, e, s);
  }

  lemma {:induction false} RunKeeps(page: Callback, ops: seq<Op>, later: seq<Op>, s: nat, b: Buffer)
    requires Keeps(After(page, ops), s, b, 0) && |later| < SLOTS
    requires forall i :: 0 <= i < |later| ==> !Buries(later[i], b)
    ensures Keeps(After(page, ops + later), s, b, |later|)
  {
    hide Step, Buries;
    if later == [] {
      assert ops + later == ops;
    } else {
      var most, last := later[..|later| - 1], later[|later| - 1];
      RunKeeps(page, ops, most, s, b);
      assert (ops + later)[..|ops + later| - 1] == ops + most && (ops + later)[|ops + later| - 1] == last;
      StepKeeps(page, After(page, ops + most), last, s, b, |most|);
    }
  }

  /** A buffer that was fetched is still there after any three further operations that do not
      bury it: the callback is not asked again for an address inside it. */
  lemma StaysCached(page: Callback, ops: seq<Op>, a: FullAddr, later: seq<Op>, a': FullAddr)
    requires Fetch(page, After(page, ops), a).read.Got?
    requires |later| < SLOTS && Covers(Fetch(page, After(page, ops), a).read.value, a')
    requires forall i :: 0 <= i < |later| ==> !Buries(later[i], Fetch(page, After(page, ops), a).read.value)
    ensures Find(After(page, ops + [OpFetch(a)] + later).slots, a', 0) < SLOTS
  {
    var c := After(page, ops);
    var b := Fetch(page, c, a).read.value;
    var run := ops + [OpFetch(a)];
    assert run[..|run| - 1] == ops && run[|run| - 1] == OpFetch(a);
    assert After(page, run) == Fetch(page, c, a).cache;
    var s := Served(c, a);
    assert Keeps(After(page, run), s, b, 0);
    RunKeeps(page, run, later, s, b);
  }

  // ---------------------------------------------------------------------------
  // Every page that was obtained is given back

  ghost function Holding(b: Buffer): multiset<Buffer> {
    if b.Size() > 0 then multiset{b} else multiset{}
  }

  ghost function Filled(slots: seq<Buffer>): multiset<Buffer>
    requires |slots| == SLOTS
  {
    Holding(slots[0]) + Holding(slots[1]) + Holding(slots[2]) + Holding(slots[3])
  }

  ghost function FilledBelow(slots: seq<Buffer>, k: nat): multiset<Buffer>
    requires k <= |slots|
  {
    if k == 0 then multiset{} else FilledBelow(slots, k - 1) + Holding(slots[k - 1])
  }

  /** What the first `k` slots hold has been given back. */
  ghost predicate GivenBack(before: seq<Buffer>, now: seq<Buffer>, slots: seq<Buffer>, k: nat) {
    k <= |slots| && multiset(now) == multiset(before) + FilledBelow(slots, k)
  }

  lemma GivenOneMore(before: seq<Buffer>, mid: seq<Buffer>, now: seq<Buffer>, slots: seq<Buffer>, k: nat)
    requires GivenBack(before, mid, slots, k) && k < |slots| && multiset(now) == multiset(mid) + Holding(slots[k])
    ensures GivenBack(before, now, slots, k + 1)
  {
    FilledOneMore(multiset(before), slots, k);
    hide Holding;
  }

  lemma GivenAll(before: seq<Buffer>, now: seq<Buffer>, slots: seq<Buffer>)
    requires |slots| == SLOTS && GivenBack(before, now, slots, SLOTS)
    ensures multiset(now) == multiset(before) + Filled(slots)
  {
    FilledUpTo(slots);
    hide Holding, Filled;
  }

  lemma FilledOneMore(m: multiset<Buffer>, slots: seq<Buffer>, k: nat)
    requires k < |slots|
    ensures m + FilledBelow(slots, k + 1) == (m + FilledBelow(slots, k)) + Holding(slots[k])
  {
    hide Holding;
  }

  lemma FilledUpTo(slots: seq<Buffer>)
    requires |slots| == SLOTS
    ensures FilledBelow(slots, SLOTS) == Filled(slots)
  {
    hide Holding;
    assert FilledBelow(slots, 1) == FilledBelow(slots, 0) + Holding(slots[0]) == Holding(slots[0]);
    assert FilledBelow(slots, 2) == Holding(slots[0]) + Holding(slots[1]);
    assert FilledBelow(slots, 3) == FilledBelow(slots, 2) + Holding(slots[2]);
  }

  lemma FilledUpdate(slots: seq<Buffer>, s: nat, b: Buffer)
    requires |slots| == SLOTS && s < SLOTS
    ensures Filled(slots[s := b]) + Holding(slots[s]) == Filled(slots) + Holding(b)
  {
    hide Holding;
  }

  ghost predicate Balanced(c: Cache)
    requires |c.slots| == SLOTS
  {
    multiset(c.obtained) == multiset(c.released) + Filled(c.slots)
  }

  lemma Exchange(r: multiset<Buffer>, f: multiset<Buffer>, f': multiset<Buffer>, out: multiset<Buffer>,
                 put: multiset<Buffer>)
    requires f' + out == f + put
    ensures (r + f) + put == (r + out) + f'
  {
    assert (r + f) + put == r + (f + put);
  }

  lemma ReplacedTraces(c: Cache, s: nat, b: Buffer)
    requires s < |c.slots|
    ensures var c' := c.Release(s).Fill(s, b);
      && multiset(c'.released) == multiset(c.released) + Holding(c.slots[s])
      && multiset(c'.obtained) == multiset(c.obtained) + Holding(b)
      && c'.slots == c.slots[s := b]
  {
  }

  lemma ReplaceBalanced(c: Cache, s: nat, b: Buffer)
    requires |c.slots| == SLOTS && Balanced(c) && s < SLOTS
    ensures Balanced(c.Release(s).Fill(s, b))
  {
    ReplacedTraces(c, s, b);
    FilledUpdate(c.slots, s, b);
    Exchange(multiset(c.released), Filled(c.slots), Filled(c.slots[s := b]), Holding(c.slots[s]), Holding(b));
    hide Filled, Holding;
  }

  lemma StepBalanced(page: Callback, c: Cache, op: Op)
    requires c.Wf() && Balanced(c)
    ensures Balanced(Step(page, c, op))
  {
    hide Step, Balanced, SameTraces;
    var victim := c.order[SLOTS - 1];
    var b := if page(op.addr).Page? then page(op.addr).buf else Nowhere(op.addr, 0);
    var c' := Step(page, c, op);
    StepTraces(page, c, op, b);
    if SameTraces(c, c') {
      SameBalance(c, c');
    } else {
      ReplaceBalanced(c, victim, b);
      SameBalance(c.Release(victim).Fill(victim, b), c');
    }
  }

  lemma StepTraces(page: Callback, c: Cache, op: Op, b: Buffer)
    requires c.Wf() && b == if page(op.addr).Page? then page(op.addr).buf else Nowhere(op.addr, 0)
    ensures var c', v := Step(page, c, op), c.order[SLOTS - 1];
      |c'.slots| == SLOTS && (SameTraces(c, c') || SameTraces(c.Release(v).Fill(v, b), c'))
  {
  }

  ghost predicate SameTraces(c: Cache, c': Cache) {
    c'.slots == c.slots && c'.obtained == c.obtained && c'.released == c.released
  }

  lemma SameBalance(c: Cache, c': Cache)
    requires |c.slots| == |c'.slots| == SLOTS
    ensures SameTraces(c, c') ==> Balanced(c) == Balanced(c')
  {
  }

  /** At any time the callback has been given back what it handed out, except for what the slots
      hold. */
  lemma {:induction false} AlwaysBalanced(page: Callback, ops: seq<Op>)
    ensures Balanced(After(page, ops))
  {
    if ops == [] {
    } else {
      AlwaysBalanced(page, ops[..|ops| - 1]);
      StepBalanced(page, After(page, ops[..|ops| - 1]), ops[|ops| - 1]);
    }
  }

  // ---------------------------------------------------------------------------
  // The slots as they are linked

  /** Only the last slot of the ring is followed by the first one. */
  lemma LastLink(next: seq<nat>, prev: seq<nat>, order: seq<nat>, s: nat)
    requires Ring(next, prev, order) && s in order
    ensures next[s] == order[0] <==> s == order[|order| - 1]
    ensures prev[order[0]] == order[|order| - 1]
  {
    var k :| 0 <= k < |order| && order[k] == s;
    assert LinkedAt(next, prev, order, k) && LinkedAt(next, prev, order, 0);
  }

  lemma BuriedLast(rest: seq<nat>, s: nat)
    requires NoDup(rest + [s])
    ensures Buried(rest + [s], s) == rest + [s]
    ensures Touched(rest + [s], s) == [s] + rest
  {
    var t := rest + [s];
    assert s !in rest by {
      assert forall i :: 0 <= i < |rest| ==> t[i] == rest[i] && t[i] != t[|rest|];
    }
    DelSplit(rest, s, []);
    assert rest + [s] + [] == t && rest + [] == rest;
  }

  lemma InIndexOrder(next: seq<nat>, prev: seq<nat>)
    requires |next| == |prev| == SLOTS
    requires forall i :: 0 <= i < SLOTS ==> next[i] == Succ(i, SLOTS) && prev[Succ(i, SLOTS)] == i
    ensures Ring(next, prev, [0, 1, 2, 3])
  {
    assert prev[Succ(0, SLOTS)] == 0 && prev[Succ(1, SLOTS)] == 1 && prev[Succ(2, SLOTS)] == 2
           && prev[Succ(3, SLOTS)] == 3;
  }

  /** `struct read_cache`.  Slots are known by their index.  The ghost fields record the order of
      the ring, the buffers exchanged with the callback, and the operations so far. */
  class Slots {
    const page: Callback
    const next: array<nat>
    const prev: array<nat>
    const buf: array<Buffer>
    var mru: nat
    ghost var order: seq<nat>
    ghost var obtained: seq<Buffer>
    ghost var released: seq<Buffer>
    ghost var run: seq<Op>

    ghost predicate Linked()
      reads this, next, prev
    {
      && next != prev && next.Length == prev.Length == buf.Length == |order| == SLOTS
      && Ring(next[..], prev[..], order) && mru == order[0]
    }

    ghost function View(): (c: Cache)
      requires Linked()
      reads this, next, prev, buf
      ensures c.Wf()
    {
      Cache(buf[..], order, obtained, released)
    }

    /** The links and the slots are what the operations so far have made of them. */
    ghost predicate Valid()
      reads this, next, prev, buf
    {
      Linked() && View() == After(page, run)
    }

    /** `init_cache` */
    constructor (page: Callback)
      ensures Valid() && fresh(next) && fresh(prev) && fresh(buf) && this.page == page
      ensures run == []
    {
      this.page := page;
      next, prev := new nat[SLOTS], new nat[SLOTS];
      buf := new Buffer[SLOTS](_ => Nowhere(FullAddr(0, KPhysAddr), 0));
      mru := 0;
      order, obtained, released, run := [0, 1, 2, 3], [], [], [];
      new;
      var slot := 0;
      while slot < SLOTS
        invariant slot <= SLOTS && buf[..] == Initial().slots
        invariant mru == 0 && order == [0, 1, 2, 3] && obtained == released == [] && run == []
        invariant forall i :: 0 <= i < slot ==> next[i] == Succ(i, SLOTS) && prev[Succ(i, SLOTS)] == i
      {
        next[slot] := if slot + 1 < SLOTS then slot + 1 else 0;
        prev[next[slot]] := slot;
        slot := slot + 1;
      }
      InIndexOrder(next[..], prev[..]);
      hide Ring;
    }

    /** Take a slot out of the ring and put it before the most recently used one. */
    method Relink(slot: nat)
      requires Linked() && slot in order && slot != mru
      modifies next, prev, `order
      ensures Linked() && order == Buried(old(order), slot)
    {
      ghost var k :| 0 <= k < |order| && order[k] == slot;
      ghost var a, b := order[..k], order[k + 1..];
      assert order == a + [slot] + b;
      assert slot !in a;
      DelSplit(a, slot, b);
      DelFacts(order, slot);
      Remove(next, prev, slot, a, b);
      assert (a + b)[0] == mru;
      AddLast(next, prev, slot, mru, a + b);
      order := a + b + [slot];
    }

    /** `touch_cache_slot` */
    method Touch(slot: nat)
      requires Linked() && slot in order
      modifies next, prev, `order, `mru
      ensures Linked() && order == Touched(old(order), slot)
    {
      if slot == mru {
        return;
      }
      LastLink(next[..], prev[..], order, slot);
      ghost var rest := CacheSpec.Del(order, slot);
      if next[slot] != mru {
        Relink(slot);
      } else {
        assert order == order[..SLOTS - 1] + [slot];
        BuriedLast(order[..SLOTS - 1], slot);
      }
      assert order == rest + [slot];
      mru := slot;
      Rotate(next[..], prev[..], rest, [slot]);
      order := [slot] + rest;
    }

    /** The first slot that holds `a`. */
    method Lookup(a: FullAddr) returns (slot: nat)
      requires buf.Length == SLOTS
      ensures slot == Find(buf[..], a, 0)
    {
      slot := 0;
      while slot < SLOTS && !Covers(buf[slot], a)
        invariant slot <= SLOTS
        invariant Find(buf[..], a, 0) == Find(buf[..], a, slot)
      {
        slot := slot + 1;
      }
    }

    /** `bury_cache_buffer` */
    method BuryBuffer(a: FullAddr)
      requires Valid()
      modifies this, next, prev
      ensures Valid() && run == old(run) + [OpBury(a)]
    {
      ghost var c := View();
      var slot := Lookup(a);
      if slot < SLOTS {
        MovedWf(order, slot);
        Sink(slot);
      }
      assert View() == Bury(c, a);
      run := run + [OpBury(a)];
      assert run[..|run| - 1] == old(run);
    }

    method Sink(slot: nat)
      requires Linked() && slot in order
      modifies next, prev, `order, `mru
      ensures Linked() && order == Buried(old(order), slot)
    {
      LastLink(next[..], prev[..], order, slot);
      if next[slot] == mru {
        assert order == order[..SLOTS - 1] + [slot];
        BuriedLast(order[..SLOTS - 1], slot);
        return;
      }
      if slot != mru {
        Relink(slot);
      } else {
        assert order == [slot] + order[1..];
        assert LinkedAt(next[..], prev[..], order, 0);
        Rotate(next[..], prev[..], [slot], order[1..]);
        mru := next[slot];
        order := order[1..] + [slot];
      }
    }

    /** Give back what a slot holds. */
    method PutPage(slot: nat)
      requires Linked() && slot < SLOTS
      modifies `released
      ensures Linked() && View() == old(View()).Release(slot)
      ensures multiset(released) == old(multiset(released)) + Holding(buf[slot])
    {
      if buf[slot].Size() > 0 {
        released := released + [buf[slot]];
      }
    }

    /** Replace what a slot holds by the page around `a`. */
    method Refill(slot: nat, a: FullAddr) returns (status: Status)
      requires Linked() && slot < SLOTS
      modifies `released, `obtained, buf
      ensures Linked()
      ensures match page(a)
        case Failed(e) => status == e && View() == old(View()).Release(slot).Fill(slot, Nowhere(a, 0))
        case Page(b) => status == Ok && View() == old(View()).Release(slot).Fill(slot, b)
    {
      PutPage(slot);
      match page(a)
      case Failed(e) =>
        buf[slot] := Nowhere(a, 0);
        status := e;
      case Page(b) =>
        buf[slot] := b;
        if b.Size() > 0 {
          obtained := obtained + [b];
        }
        status := Ok;
    }

    /** The slot that holds `a`, after replacing the least recently used one if need be. */
    method Choose(a: FullAddr) returns (slot: nat, status: Status)
      requires Linked()
      modifies `released, `obtained, buf
      ensures Linked() && slot < SLOTS
      ensures Fetch(page, old(View()), a)
           == if status == Ok then Deliver(View(), slot) else Outcome(View(), Lost(status))
    {
      ghost var c := View();
      slot := Lookup(a);
      status := Ok;
      if slot == SLOTS {
        LastLink(next[..], prev[..], order, mru);
        slot := prev[mru];
        status := Refill(slot, a);
      }
      hide Linked, Covers, Find, Deliver;
    }

    /** `get_cache_buf` */
    method GetBuf(a: FullAddr) returns (r: Read<Buffer>)
      requires Valid()
      modifies this, next, prev, buf
      ensures Valid() && run == old(run) + [OpFetch(a)]
      ensures r == Fetch(page, After(page, old(run)), a).read
    {
      hide After, Fetch, Deliver, Ring, Buffer.Size;
      OneMoreFetch(page, run, a);
      run := run + [OpFetch(a)];
      var slot, status := Choose(a);
      if status == Ok {
        r := Give(slot);
      } else {
        r := Lost(status);
      }
    }

    /** Hand out what a slot holds. */
    method Give(slot: nat) returns (r: Read<Buffer>)
      requires Linked() && slot < SLOTS
      modifies next, prev, `order, `mru
      ensures Linked() && Outcome(View(), r) == Deliver(old(View()), slot)
    {
      if buf[slot].Nowhere? {
        return Lost(NoData);
      }
      MovedWf(order, slot);
      Touch(slot);
      r := Got(buf[slot]);
    }

    /** `do_read32` and `do_read64`, for `n` bytes: the word that the fetched buffer holds; and if the
        callback answers alike for all addresses of a page, the one that the callback alone tells. */
    method ReadWord(a: FullAddr, n: nat) returns (r: Read<nat>)
      requires Valid() && RoomIn(Fetch(page, After(page, run), a).read, a, n)
      modifies this, next, prev, buf
      ensures Valid() && run == old(run) + [OpFetch(a)]
      ensures r == WordIn(Fetch(page, After(page, old(run)), a).read, a, n)
      ensures Uniform(page) && RoomIn(Direct(page, a), a, n) ==> r == WordIn(Direct(page, a), a, n)
    {
      if Uniform(page) { Transparent(page, run, a); }
      hide After, Fetch, Direct, Uniform, WordIn, RoomIn, Linked;
      var got := GetBuf(a);
      r := WordOf(got, a, n);
    }

    /** The word at `a` in a buffer. */
    static method WordOf(got: Read<Buffer>, a: FullAddr, n: nat) returns (r: Read<nat>)
      requires RoomIn(got, a, n)
      ensures r == WordIn(got, a, n)
    {
      match got
      case Lost(e) => r := Lost(e);
      case Got(b) =>
        var k := Ahead(a.addr, b.addr.addr);
        r := Got(Value(b.order, b.bytes[k..k + n]));
    }

    lemma BeginCleanup()
      requires Valid()
      ensures Linked() && |buf[..]| == SLOTS && GivenBack(released, released, buf[..], 0)
      ensures multiset(obtained) == multiset(released) + Filled(buf[..])
    {
      AlwaysBalanced(page, run);
    }

    /** `cleanup_cache`: in the end the callback has got back exactly what it handed out. */
    method Cleanup()
      requires Valid()
      modifies `released
      ensures multiset(released) == multiset(obtained)
    {
      hide *;
      BeginCleanup();
      ghost var s, before := buf[..], released;
      var slot := 0;
      while slot < SLOTS
        invariant Linked() && slot <= SLOTS && buf[..] == s && GivenBack(before, released, s, slot)
      {
        ghost var mid := released;
        PutPage(slot);
        GivenOneMore(before, mid, released, s, slot);
        slot := slot + 1;
      }
      GivenAll(before, released, s);
    }
  }
}
