/** Reads through the file cache (`src/kdumpfile/fcache.c`) with mmap disabled. */
module FileCache {
  import opened Bits
  import opened Cache
  import opened CacheCount
  import opened CacheInvariant
  import opened CacheRuns
  import opened CacheSpec
  import opened CacheTheorems
  import opened Options

  newtype byte = x: int | 0 <= x < 256

  datatype Status = Ok | Busy | System

  /** `struct fcache_entry`: `len` bytes at offset `off` of the buffer of entry `ce`. */
  datatype Chunk = Chunk(ce: nat, buffer: Buffer, off: nat, len: nat)

  // ---------------------------------------------------------------------------
  // What a read should return

  /** A byte of a file, zero beyond its end. */
  function ByteAt(file: seq<byte>, pos: nat): byte {
    if pos < |file| then file[pos] else 0
  }

  function Slice(file: seq<byte>, pos: nat, len: nat): (s: seq<byte>)
    ensures |s| == len
  {
    seq(len, j requires 0 <= j < len => ByteAt(file, pos + j))
  }

  /** The page that belongs to a cache key: the low digits number the file. */
  ghost function Page(files: seq<seq<byte>>, pgsz: nat, key: Key): seq<byte>
    requires pgsz > 0
  {
    if key % pgsz < |files| then Slice(files[key % pgsz], key - key % pgsz, pgsz) else []
  }

  lemma SliceJoin(file: seq<byte>, pos: nat, a: nat, b: nat)
    ensures Slice(file, pos, a + b) == Slice(file, pos, a) + Slice(file, pos + a, b)
  {
  }

  lemma SlicePrefix(file: seq<byte>, pos: nat, page: seq<byte>, off: nat, len: nat)
    requires off + len <= |page| && page[off..] == Slice(file, pos, |page| - off)
    ensures page[off..off + len] == Slice(file, pos, len)
  {
    assert page[off..off + len] == page[off..][..len];
  }

  /** Distinct blocks of distinct files get distinct keys. */
  lemma KeyOf(pos: nat, fidx: nat, shift: nat)
    requires fidx < Pow2(shift)
    ensures var key := Or(AndNot(pos, Pow2(shift) - 1), fidx);
            key % Pow2(shift) == fidx && key - fidx == pos - pos % Pow2(shift)
  {
    hide Pow2, Or, And, AndNot;
    var m := Pow2(shift);
    Multiple(pos, m, fidx);
    LowMask(pos, shift);
    OrAdds(pos - pos % m, fidx, shift);
  }

  lemma KeysAreInjective(pos: nat, fidx: nat, pos': nat, fidx': nat, shift: nat)
    requires fidx < Pow2(shift) && fidx' < Pow2(shift)
    ensures Or(AndNot(pos, Pow2(shift) - 1), fidx) == Or(AndNot(pos', Pow2(shift) - 1), fidx')
       <==> fidx == fidx' && pos - pos % Pow2(shift) == pos' - pos' % Pow2(shift)
  {
    KeyOf(pos, fidx, shift);
    KeyOf(pos', fidx', shift);
    hide Pow2, Or, AndNot;
  }

  // ---------------------------------------------------------------------------
  // The contents of the buffers

  /** Every cached entry holds the page its key stands for. */
  ghost predicate Holds(files: seq<seq<byte>>, pgsz: nat, st: State, pages: seq<seq<byte>>)
    requires pgsz > 0
  {
    forall i :: 0 <= i < |st.ce| && st.Cached(i) ==>
                  st.ce[i].data.Some? && st.ce[i].data.value < |pages|
                  && pages[st.ce[i].data.value] == Page(files, pgsz, st.ce[i].key)
  }

  /** What is true of the cache between calls. */
  ghost predicate Quiet(st: State) {
    CacheInvariant.Valid(st) && Calm(st) && st.flight == []
  }

  /** No reference was gained or lost, and what they refer to did not change. */
  ghost predicate Undisturbed(st: State, pages: seq<seq<byte>>, r: State, pages': seq<seq<byte>>) {
    && |r.ce| == |st.ce| && |pages'| == |pages|
    && (forall i :: 0 <= i < |st.ce| ==> r.ce[i].refcnt == st.ce[i].refcnt)
    && Untouched(st, pages, r, pages')
  }

  ghost predicate Untouched(st: State, pages: seq<seq<byte>>, r: State, pages': seq<seq<byte>>) {
    forall i :: 0 <= i < |st.ce| && st.ce[i].refcnt > 0 ==>
                  i < |r.ce| && r.ce[i].key == st.ce[i].key && r.ce[i].data == st.ce[i].data
                  && st.ce[i].data.Some? && st.ce[i].data.value < |pages| == |pages'|
                  && pages'[st.ce[i].data.value] == pages[st.ce[i].data.value]
  }

  /** What is cached afterwards was cached before, as it is. */
  ghost predicate OnlyOld(st: State, r: State) {
    && |r.ce| == |st.ce|
    && forall i :: 0 <= i < |r.ce| && r.Cached(i) ==>
                     st.Cached(i) && r.ce[i].key == st.ce[i].key && r.ce[i].data == st.ce[i].data
  }

  lemma EvictForOnlyOld(st: State, x: nat, bias: nat)
    requires Shape(st) && Partition(st) && x < |st.ce| && !st.Cached(x)
    ensures OnlyOld(st, EvictFor(st, x, bias)) && Partition(EvictFor(st, x, bias))
    ensures !EvictFor(st, x, bias).Cached(x) && EvictFor(st, x, bias).flight == st.flight
  {
    var v := Victim(st, bias);
    if v.Some? {
      var to := if v.value in st.probe then GhostProbe else GhostPrec;
      EvictForShape(st, x, bias, v.value, to);
      Apart(st, v.value);
      GhostOnlyOld(st, v.value, to);
      hide Move, Victim, Partition;
      var m, r := Move(st, v.value, to), EvictFor(st, x, bias);
      SameListsAgree(m, r);
      OnlyOldTwice(st, m, r);
    }
  }

  lemma GhostOnlyOld(st: State, v: nat, to: Place)
    requires Partition(st) && v < |st.ce| && v !in st.flight && (to == GhostPrec || to == GhostProbe)
    ensures var m := Move(st, v, to);
            Partition(m) && !m.Cached(v) && (forall i :: m.Cached(i) ==> st.Cached(i)) && m.flight == st.flight
            && OnlyOld(st, m)
  {
    MoveMembers(st, v, to);
    DelFacts(st.flight, v);
  }

  lemma SameListsAgree(m: State, r: State)
    requires Partition(m) && CacheInvariant.SameLists(m, r)
    ensures Partition(r) && forall i :: r.Cached(i) == m.Cached(i)
  {
    assert forall p :: r.At(p) == m.At(p);
  }

  lemma LaunchOnlyOld(st: State, x: nat, e: Entry)
    requires Partition(st) && x < |st.ce| && x !in st.flight
    ensures var r := Ref(SetEntry(Move(st, x, Flight), x, e), x); OnlyOld(st, r) && r.flight == st.flight + [x]
  {
    MoveMembers(st, x, Flight);
    DelFacts(st.flight, x);
    var m := Move(st, x, Flight);
    assert m.flight == st.flight + [x] && m.ce == st.ce;
    SameListsAgree(m, Ref(SetEntry(m, x, e), x));
    hide Move, Partition, Del;
  }

  /** A request adds nothing to what is cached; a new entry is in flight. */
  lemma GetOnlyOld(st: State, key: Key)
    requires CacheInvariant.Valid(st)
    ensures var (r, found) := Get(st, key);
            && OnlyOld(st, r)
            && (found.Some? && st.flight == [] ==>
                  || (st.Cached(found.value) && r.flight == [])
                  || (!st.Cached(found.value) && r.flight == [found.value]))
            && (found.None? ==> r.flight == st.flight)
  {
    hide Move, GhostHit, Miss, OnlyOld, FindKey, Adapt;
    if Lookup(st, key, Prec).Some? {
      HitOnlyOld(st, Lookup(st, key, Prec).value);
    } else if Lookup(st, key, Probe).Some? {
      HitOnlyOld(st, Lookup(st, key, Probe).value);
    } else if Lookup(st, key, Flight).Some? {
      assert st.flight != [];
      SameOnlyOld(st, Get(st, key).0);
    } else if Full(st) {
      SameOnlyOld(st, st);
    } else {
      if Lookup(st, key, GhostPrec).Some? {
        GhostHitOnlyOld(st, Lookup(st, key, GhostPrec).value);
      } else if Lookup(st, key, GhostProbe).Some? {
        GhostHitOnlyOld(st, Lookup(st, key, GhostProbe).value);
      } else {
        MissOnlyOld(st, key);
      }
    }
  }

  lemma SameOnlyOld(st: State, r: State)
    requires CacheInvariant.SameLists(st, r)
    requires forall i :: 0 <= i < |st.ce| ==> r.ce[i].key == st.ce[i].key && r.ce[i].data == st.ce[i].data
    ensures OnlyOld(st, r)
  {
  }

  lemma HitOnlyOld(st: State, x: nat)
    requires CacheInvariant.Valid(st) && x < |st.ce| && st.Cached(x)
    ensures OnlyOld(st, Ref(Move(st, x, Prec), x)) && Move(st, x, Prec).flight == st.flight
  {
    MoveMembers(st, x, Prec);
    Apart(st, x);
    DelFacts(st.flight, x);
  }

  lemma GhostHitOnlyOld(st: State, x: nat)
    requires CacheInvariant.Valid(st) && x < |st.ce| && st.Ghost(x)
    ensures var r := Ref(GhostHit(st, x), x); OnlyOld(st, r) && !st.Cached(x) && r.flight == st.flight + [x]
  {
    Apart(st, x);
    AdaptKeeps(st, x);
    var a := Adapt(st, x);
    ReclaimOnlyOld(a, x);
    var f := ReclaimFor(a, x);
    LaunchOnlyOld(f, x, f.ce[x].(state := CsPrecious));
    OnlyOldTwice(st, a, f);
    OnlyOldTwice(st, f, Ref(GhostHit(st, x), x));
  }

  lemma OnlyOldTwice(a: State, b: State, c: State)
    requires OnlyOld(a, b) && OnlyOld(b, c)
    ensures OnlyOld(a, c)
  {
  }

  lemma ReclaimOnlyOld(a: State, x: nat)
    requires CacheInvariant.Valid(a) && x < |a.ce| && !a.Cached(x)
    ensures var f := ReclaimFor(a, x);
            OnlyOld(a, f) && Partition(f) && !f.Cached(x) && f.flight == a.flight
  {
    var f := ReclaimFor(a, x);
    if a.Total() < a.cap {
      var e := a.unused[|a.unused| - 1];
      assert e in a.unused;
      Apart(a, e);
      assert forall p :: f.At(p) == a.At(p);
    } else {
      EvictForOnlyOld(a, x, 0);
    }
  }

  lemma MissOnlyOld(st: State, key: Key)
    requires CacheInvariant.Valid(st)
    ensures var x, r := Recycled(st), Ref(Miss(st, key), Recycled(st));
            OnlyOld(st, r) && !st.Cached(x) && r.flight == st.flight + [x]
  {
    var x := Recycled(st);
    assert st.Ghost(x) || x in st.unused;
    Apart(st, x);
    EvictForOnlyOld(st, x, 1);
    var f := if st.ce[x].data.None? then EvictFor(st, x, 1) else st;
    LaunchOnlyOld(f, x, f.ce[x].(key := key, state := CsProbe));
  }

  // ---------------------------------------------------------------------------
  // One block at a time

  /** The cache while a request for `key` is being served by entry `x`. */
  ghost predicate Serving(st: State, key: Key, r: State, x: nat) {
    && CacheInvariant.Valid(r) && Calm(r) && Granted(st, key, r, x)
    && x < |r.ce| && r.ce[x].data.Some? && r.ce[x].data.value < r.cap == st.cap
    && r.flight == (if r.ce[x].state == CsValid then [] else [x])
    && (r.ce[x].state == CsValid ==> r.Cached(x))
    && (r.ce[x].state != CsValid ==> r.ce[x].refcnt == 1)
  }

  lemma ServingIs(st: State, key: Key, r: State, x: nat)
    requires Serving(st, key, r, x)
    ensures Structured(r) && Exclusive(r.ce, r.cap) && x < |r.ce| && (r.ce[x].state != CsValid ==> Held(r, x))
  {
    hide Structured, Exclusive, Granted, Calm;
  }

  lemma GetServes(st: State, key: Key)
    requires Quiet(st)
    ensures var (r, found) := Get(st, key);
            && (found.None? <==> Full(st) && !CachedOrInFlight(st, key))
            && (found.Some? ==> Serving(st, key, r, found.value))
            && (found.None? ==> r == st)
            && OnlyOld(st, r)
  {
    ValidFeeds(st, key);
    GetResult(st, key);
    GetOnlyOld(st, key);
    GetKeepsCalm(st, key);
    GetValid(st, key);
    var (r, found) := Get(st, key);
    if found.Some? {
      ServedWhere(st, key, r, found.value);
    }
  }

  lemma ServedWhere(st: State, key: Key, r: State, x: nat)
    requires Quiet(st) && CacheInvariant.Valid(r) && Calm(r) && Granted(st, key, r, x) && r.cap == st.cap
    requires (st.Cached(x) && r.flight == []) || (!st.Cached(x) && r.flight == [x])
    ensures Serving(st, key, r, x)
  {
    assert Placed(r, x) && Buffered(r, x) && Placed(st, x);
    HeldPlace(r, x);
    if !st.Cached(x) {
      assert x in r.flight;
      assert st.Live(x) || x in st.unused;
    }
  }

  /** Only one buffer is written, and it belongs to the entry in flight. */
  lemma OthersUntouched(st: State, key: Key, r: State, x: nat, pages: seq<seq<byte>>, page: seq<byte>)
    requires CacheInvariant.Valid(st) && Serving(st, key, r, x) && |pages| == st.cap
    requires r.ce[x].state != CsValid && st.flight == []
    ensures Untouched(st, pages, r, pages[r.ce[x].data.value := page])
  {
    forall i | 0 <= i < |st.ce| && st.ce[i].refcnt > 0
      ensures i != x && st.ce[i].data.Some? && st.ce[i].data.value < |pages| && st.ce[i].data != r.ce[x].data
    {
      assert Placed(st, i) && Buffered(st, i);
      assert st.Live(i) || i in st.unused;
      assert r.ce[i].data == st.ce[i].data;
    }
  }

  /** A valid entry already holds its page. */
  lemma HitHolds(files: seq<seq<byte>>, pgsz: nat, st: State, key: Key, r: State, x: nat, pages: seq<seq<byte>>)
    requires pgsz > 0 && Quiet(st) && Serving(st, key, r, x) && OnlyOld(st, r) && |pages| == st.cap
    requires Holds(files, pgsz, st, pages) && r.ce[x].state == CsValid
    ensures Quiet(r) && Holds(files, pgsz, r, pages) && Untouched(st, pages, r, pages)
    ensures pages[r.ce[x].data.value] == Page(files, pgsz, key) && r.ce[x].refcnt > 0
  {
    forall i | 0 <= i < |st.ce| && st.ce[i].refcnt > 0 ensures st.Cached(i) { ReferencedAreCached(st, i); }
  }

  lemma Padded(file: seq<byte>, pos: nat, rd: nat, len: nat)
    requires rd <= len && (rd < len ==> |file| <= pos + rd)
    ensures Slice(file, pos, rd) + seq(len - rd, _ => 0) == Slice(file, pos, len)
  {
    var padded := Slice(file, pos, rd) + seq(len - rd, _ => 0);
    forall j | 0 <= j < len ensures padded[j] == Slice(file, pos, len)[j] {
      assert Slice(file, pos, len)[j] == ByteAt(file, pos + j);
      if j < rd {
        assert padded[j] == Slice(file, pos, rd)[j];
      } else {
        assert padded[j] == 0;
      }
    }
  }

  lemma PageTail(files: seq<seq<byte>>, pgsz: nat, key: Key, fidx: nat, pos: nat)
    requires pgsz > 0 && fidx < |files| && key % pgsz == fidx && key - fidx == pos - pos % pgsz
    ensures |Page(files, pgsz, key)| == pgsz
    ensures Page(files, pgsz, key)[pos % pgsz..] == Slice(files[fidx], pos, pgsz - pos % pgsz)
  {
  }

  /** The entry in flight gets its page and is inserted. */
  lemma Filled(files: seq<seq<byte>>, pgsz: nat, st: State, key: Key, r: State, x: nat, pages: seq<seq<byte>>)
    requires pgsz > 0 && Quiet(st) && Serving(st, key, r, x) && OnlyOld(st, r) && |pages| == st.cap
    requires Holds(files, pgsz, st, pages) && r.ce[x].state != CsValid
    ensures var (n, pages') := (Insert(r, x), pages[r.ce[x].data.value := Page(files, pgsz, key)]);
            && Quiet(n) && Holds(files, pgsz, n, pages') && Untouched(st, pages, n, pages')
            && Granted(st, key, n, x) && n.cap == st.cap && n.ce[x].data == r.ce[x].data
  {
    InsertKeeps(r, x);
    InsertKeepsCalm(r, x);
    OthersUntouched(st, key, r, x, pages, Page(files, pgsz, key));
    InsertedWhere(r, x);
    hide Move, Insert, Calm, CacheInvariant.Valid, Holds, OnlyOld;
    var n := Insert(r, x);
    var pages' := pages[r.ce[x].data.value := Page(files, pgsz, key)];
    StateOnly(st, key, r, n, x, pages, pages');
    HoldsBut(files, pgsz, st, r, n, x, pages, pages');
    hide Untouched, Granted;
  }

  /** An insertion changes neither keys nor buffers nor references. */
  lemma StateOnly(st: State, key: Key, r: State, n: State, x: nat, pages: seq<seq<byte>>, pages': seq<seq<byte>>)
    requires Untouched(st, pages, r, pages') && Granted(st, key, r, x)
    requires x < |r.ce| && n.ce == r.ce[x := r.ce[x].(state := CsValid)]
    ensures Untouched(st, pages, n, pages') && Granted(st, key, n, x)
  {
  }

  /** All but entry `x` is as before. */
  lemma HoldsBut(files: seq<seq<byte>>, pgsz: nat, st: State, r: State, n: State, x: nat,
                 pages: seq<seq<byte>>, pages': seq<seq<byte>>)
    requires pgsz > 0 && Holds(files, pgsz, st, pages) && OnlyOld(st, r) && Exclusive(r.ce, r.cap)
    requires x < |r.ce| && r.ce[x].data.Some? && r.ce[x].data.value < |pages|
    requires |n.ce| == |r.ce| && forall i :: 0 <= i < |r.ce| && i != x ==> n.ce[i] == r.ce[i]
    requires forall i :: n.Cached(i) && i != x ==> r.Cached(i)
    requires |pages'| == |pages|
    requires forall b :: 0 <= b < |pages| && b != r.ce[x].data.value ==> pages'[b] == pages[b]
    requires n.Cached(x) ==>
             n.ce[x].data == r.ce[x].data && pages'[r.ce[x].data.value] == Page(files, pgsz, n.ce[x].key)
    ensures Holds(files, pgsz, n, pages')
  {
    forall i | 0 <= i < |n.ce| && n.Cached(i)
      ensures n.ce[i].data.Some? && n.ce[i].data.value < |pages'|
      ensures pages'[n.ce[i].data.value] == Page(files, pgsz, n.ce[i].key)
    {
      if i != x {
        assert r.Cached(i) && r.ce[i].data != r.ce[x].data;
      }
    }
  }

  lemma InsertedWhere(r: State, x: nat)
    requires CacheInvariant.Valid(r) && x < |r.ce| && r.ce[x].state != CsValid && r.flight == [x]
    ensures var n := Insert(r, x);
            && n.flight == [] && n.cap == r.cap && n.ce == r.ce[x := r.ce[x].(state := CsValid)]
            && forall i :: n.Cached(i) <==> i == x || r.Cached(i)
  {
    MoveMembers(r, x, if r.ce[x].state == CsProbe then Probe else Prec);
  }

  lemma DiscardedWhere(r: State, x: nat)
    requires CacheInvariant.Valid(r) && x < |r.ce| && r.ce[x].state != CsValid && r.flight == [x]
    requires r.ce[x].refcnt == 1
    ensures var n := Discard(r, x);
            && n.flight == [] && n.cap == r.cap && n.ce == r.ce[x := r.ce[x].(refcnt := 0)]
            && forall i :: n.Cached(i) ==> i != x && r.Cached(i)
  {
    PutKeeps(r, x);
    MoveMembers(Put(r, x), x, Unused);
  }

  /** The page could not be read: the entry in flight is discarded. */
  lemma Dropped(files: seq<seq<byte>>, pgsz: nat, st: State, key: Key, r: State, x: nat, pages: seq<seq<byte>>,
                junk: seq<byte>)
    requires pgsz > 0 && Quiet(st) && Serving(st, key, r, x) && OnlyOld(st, r) && |pages| == st.cap
    requires Holds(files, pgsz, st, pages) && r.ce[x].state != CsValid
    ensures var (n, pages') := (Discard(r, x), pages[r.ce[x].data.value := junk]);
            Quiet(n) && Holds(files, pgsz, n, pages') && Undisturbed(st, pages, n, pages') && n.cap == st.cap
  {
    ServingIs(st, key, r, x);
    hide Move, Discard, Calm, CacheInvariant.Valid, Structured, Exclusive, Granted, Holds, OnlyOld, Untouched,
         Undisturbed;
    var n := Discard(r, x);
    var pages' := pages[r.ce[x].data.value := junk];
    DiscardKeeps(r, x);
    DiscardKeepsCalm(r, x);
    OthersUntouched(st, key, r, x, pages, junk);
    DiscardedWhere(r, x);
    DroppedAgain(st, key, r, n, x, pages, pages');
    HoldsBut(files, pgsz, st, r, n, x, pages, pages');
  }

  /** Taking a reference and dropping it again. */
  lemma DroppedAgain(st: State, key: Key, r: State, n: State, x: nat, pages: seq<seq<byte>>, pages': seq<seq<byte>>)
    requires Granted(st, key, r, x) && Untouched(st, pages, r, pages') && |pages'| == |pages|
    requires r.ce[x].refcnt == 1 && n.ce == r.ce[x := r.ce[x].(refcnt := 0)]
    ensures Undisturbed(st, pages, n, pages')
  {
  }

  /** The reference is given back. */
  lemma GivenBack(files: seq<seq<byte>>, pgsz: nat, st: State, pages: seq<seq<byte>>, key: Key,
                  n: State, pages': seq<seq<byte>>, x: nat)
    requires pgsz > 0 && Quiet(n) && Holds(files, pgsz, n, pages') && |pages'| == |pages|
    requires Granted(st, key, n, x) && Untouched(st, pages, n, pages')
    ensures var r := Put(n, x);
            Quiet(r) && Holds(files, pgsz, r, pages') && Undisturbed(st, pages, r, pages') && r.cap == n.cap
  {
    PutKeeps(n, x);
  }

  lemma UndisturbedSame(st: State, pages: seq<seq<byte>>)
    requires Quiet(st) && |pages| == st.cap
    ensures Undisturbed(st, pages, st, pages)
  {
    forall i | 0 <= i < |st.ce| && st.ce[i].refcnt > 0 ensures st.Cached(i) && Buffered(st, i) {
      ReferencedAreCached(st, i);
    }
  }

  lemma UndisturbedTwice(a: State, p: seq<seq<byte>>, b: State, q: seq<seq<byte>>, c: State, r: seq<seq<byte>>)
    requires Undisturbed(a, p, b, q) && Undisturbed(b, q, c, r)
    ensures Undisturbed(a, p, c, r)
  {
  }

  lemma ReferencedAreCached(st: State, i: nat)
    requires Quiet(st) && i < |st.ce| && st.ce[i].refcnt > 0
    ensures st.Cached(i)
  {
    assert Placed(st, i);
    assert st.Live(i) || i in st.unused;
  }

  /** Whether the cache is full depends on the reference counts alone. */
  lemma FullByReferences(a: State, b: State)
    requires Quiet(a) && Quiet(b) && a.cap == b.cap && |a.ce| == |b.ce|
    requires forall i :: 0 <= i < |a.ce| ==> a.ce[i].refcnt == b.ce[i].refcnt
    requires Full(b)
    ensures Full(a)
  {
    FullMeans(a);
    FullMeans(b);
    var held, cached := Elems(b.prec) + Elems(b.probe), Elems(a.prec) + Elems(a.probe);
    CachedSize(a);
    CachedSize(b);
    forall i | i in held ensures i in cached && a.ce[i].refcnt > 0 {
      assert b.Cached(i);
      ReferencedAreCached(a, i);
    }
    SubsetSize(held, cached);
    forall i: nat | a.Cached(i) ensures a.ce[i].refcnt > 0 { assert i in held; }
  }

  lemma FullStays(a: State, p: seq<seq<byte>>, b: State, q: seq<seq<byte>>)
    requires Quiet(a) && Quiet(b) && a.cap == b.cap && Undisturbed(a, p, b, q)
    ensures Full(b) ==> Full(a)
  {
    if Full(b) { FullByReferences(a, b); }
  }

  lemma CachedSize(st: State)
    requires CacheInvariant.Valid(st)
    ensures |Elems(st.prec) + Elems(st.probe)| == |st.prec| + |st.probe|
  {
    ElemsSize(st.prec);
    ElemsSize(st.probe);
    forall i | i in st.prec ensures i !in st.probe { Apart(st, i); }
    assert Elems(st.prec) !! Elems(st.probe);
  }

  // ---------------------------------------------------------------------------
  // Output buffers

  /** Only the `n` elements from `at` on may differ. */
  ghost predicate KeptAround(before: seq<byte>, now: seq<byte>, at: nat, n: nat) {
    |now| == |before| && forall i :: 0 <= i < |now| && !(at <= i < at + n) ==> now[i] == before[i]
  }

  /** `now` is `before` with `done` bytes of `file` from `pos` on written at index `at`. */
  ghost predicate HasRead(file: seq<byte>, before: seq<byte>, now: seq<byte>, at: nat, done: nat, pos: nat) {
    && |now| == |before| && at + done <= |now| && now[at..at + done] == Slice(file, pos, done)
    && KeptAround(before, now, at, done)
  }

  lemma ReadOn(file: seq<byte>, before: seq<byte>, was: seq<byte>, now: seq<byte>, at: nat, done: nat, part: nat,
               pos: nat)
    requires HasRead(file, before, was, at, done, pos) && |now| == |was| && at + done + part <= |now|
    requires now[at + done..at + done + part] == Slice(file, pos + done, part)
    requires KeptAround(was, now, at + done, part)
    ensures HasRead(file, before, now, at, done + part, pos)
  {
    hide Slice, ByteAt;
    SliceJoin(file, pos, done, part);
    assert now[at..at + done] == was[at..at + done];
    assert now[at..at + done + part] == now[at..at + done] + now[at + done..at + done + part];
  }

  lemma NothingRead(file: seq<byte>, before: seq<byte>, was: seq<byte>, now: seq<byte>, at: nat, done: nat, pos: nat)
    requires HasRead(file, before, was, at, done, pos) && KeptAround(was, now, at + done, 0)
    ensures HasRead(file, before, now, at, done, pos)
  {
    assert now == was;
  }

  // ---------------------------------------------------------------------------
  // The file cache

  class FileCache {
    const shift: nat
    const pgsz: nat
    /** The contents of the cached files. */
    const files: seq<seq<byte>>
    const fbcache: EntryCache
    /** The data area of the cache, one page for each buffer. */
    const data: array<seq<byte>>

    ghost predicate Valid()
      reads fbcache, fbcache.next, fbcache.prev, fbcache.ce, data
    {
      && pgsz == Pow2(shift) && |files| <= pgsz
      && fbcache.View() == Some(fbcache.st) && Quiet(fbcache.st)
      && Contents(fbcache.st, data[..])
    }

    ghost predicate Contents(st: State, pages: seq<seq<byte>>) {
      && pgsz > 0 && st.cap == fbcache.cap == |pages|
      && (forall b :: 0 <= b < |pages| ==> |pages[b]| == pgsz)
      && Holds(files, pgsz, st, pages)
    }

    /** `fcache_new` without its mmap cache. */
    constructor (fds: seq<seq<byte>>, n: nat, pageShift: nat)
      requires n > 0 && |fds| <= Pow2(pageShift)
      ensures Valid() && files == fds && fbcache.cap == n && pgsz == Pow2(pageShift)
      ensures fresh(fbcache) && fresh(fbcache.next) && fresh(fbcache.prev) && fresh(fbcache.ce) && fresh(data)
    {
      shift := pageShift;
      pgsz := Pow2(pageShift);
      files := fds;
      fbcache := new EntryCache(n);
      var size := Pow2(pageShift);
      data := new seq<byte>[n](_ => seq(size, _ => 0));
      new;
      FlushedValid(n, fbcache.st.ce);
      hide CacheInvariant.Valid, Calm;
    }

    /** `pread` of one page of a regular file: it fails, and leaves anything in the
        buffer, or it returns all there is. */
    method ReadPage(fidx: nat, blkpos: nat, buffer: Buffer) returns (rd: int)
      requires fidx < |files| && buffer < data.Length && |data[buffer]| == pgsz
      modifies data
      ensures forall b :: 0 <= b < data.Length && b != buffer ==> data[b] == old(data[b])
      ensures |data[buffer]| == pgsz && rd <= pgsz
      ensures rd >= 0 ==> rd == (if blkpos + pgsz <= |files[fidx]| then pgsz
                                 else if blkpos <= |files[fidx]| then |files[fidx]| - blkpos else 0)
      ensures rd >= 0 ==> data[buffer][..rd] == Slice(files[fidx], blkpos, rd)
    {
      var page: seq<byte> := *;
      if |page| == pgsz {
        data[buffer] := page;
        rd := -1;
      } else {
        var file := files[fidx];
        rd := if blkpos + pgsz <= |file| then pgsz else if blkpos <= |file| then |file| - blkpos else 0;
        data[buffer] := Slice(file, blkpos, rd) + data[buffer][rd..];
      }
    }

    /** Read the page for `key`, with zeroes beyond the end of the file. */
    method ReadPadded(fidx: nat, blkpos: nat, ghost key: Key, buffer: Buffer, ghost pages: seq<seq<byte>>)
      returns (ok: bool)
      requires pgsz > 0 && fidx < |files| && key % pgsz == fidx && key - fidx == blkpos
      requires data[..] == pages && buffer < |pages| && |pages[buffer]| == pgsz
      modifies data
      ensures |data[buffer]| == pgsz && data[..] == pages[buffer := data[buffer]]
      ensures ok ==> data[buffer] == Page(files, pgsz, key)
    {
      var rd := ReadPage(fidx, blkpos, buffer);
      if rd >= 0 {
        ghost var head := data[buffer][..rd];
        if rd < pgsz {
          data[buffer] := data[buffer][..rd] + seq(pgsz - rd, _ => 0);
        }
        assert data[buffer] == head + seq(pgsz - rd, _ => 0);
        Padded(files[fidx], blkpos, rd, pgsz);
      }
      ok := rd >= 0;
    }

    /** The cache and its buffers after a request for `key`. */
    ghost predicate Served(st: State, pages: seq<seq<byte>>, key: Key, status: Status, x: nat)
      requires Quiet(st) && pgsz > 0
      reads fbcache`st, data
    {
      && (status == Busy <==> Full(st) && !CachedOrInFlight(st, key))
      && (status == Ok ==> Granted(st, key, fbcache.st, x) && Untouched(st, pages, fbcache.st, data[..]))
      && (status != Ok ==> Undisturbed(st, pages, fbcache.st, data[..]))
    }

    /** Entry `x` is referenced and its buffer holds `page`. */
    ghost predicate InPlace(x: nat, page: seq<byte>)
      reads fbcache`st, data
    {
      && x < |fbcache.st.ce| && fbcache.st.ce[x].refcnt > 0 && fbcache.st.ce[x].data.Some?
      && fbcache.st.ce[x].data.value < data.Length && data[fbcache.st.ce[x].data.value] == page
    }

    /** The part of `fcache_get_read` that fills the in-flight entry `x`. */
    method Fill(fidx: nat, blkpos: nat, ghost key: Key, x: nat, ghost st: State, ghost pages: seq<seq<byte>>)
      returns (status: Status)
      requires pgsz == Pow2(shift) && |files| <= pgsz && fidx < |files|
      requires fbcache.View() == Some(fbcache.st) && Quiet(st) && Contents(st, pages) && data[..] == pages
      requires Serving(st, key, fbcache.st, x) && OnlyOld(st, fbcache.st) && fbcache.ce[x].state != CsValid
      requires key % pgsz == fidx && key - fidx == blkpos && !(Full(st) && !CachedOrInFlight(st, key))
      modifies fbcache, fbcache.next, fbcache.prev, fbcache.ce, data
      ensures Valid() && Served(st, pages, key, status, x)
      ensures status == Ok ==> InPlace(x, Page(files, pgsz, key))
    {
      ghost var r := fbcache.st;
      var buffer := fbcache.ce[x].data.value;
      var ok := ReadPadded(fidx, blkpos, key, buffer, pages);
      hide Valid, Served, Quiet, Contents, OnlyOld, Page, Full, CachedOrInFlight, InPlace;
      if ok {
        Keep(key, x, buffer, st, pages);
        status := Ok;
      } else {
        Drop(key, x, buffer, st, pages);
        status := System;
      }
    }

    /** The in-flight entry `x` is being filled: its buffer alone may have changed. */
    ghost predicate Filling(key: Key, x: nat, buffer: nat, st: State, pages: seq<seq<byte>>)
      reads this, fbcache, fbcache.next, fbcache.prev, fbcache.ce, data
    {
      && pgsz == Pow2(shift) && |files| <= pgsz
      && fbcache.View() == Some(fbcache.st) && Quiet(st) && Contents(st, pages)
      && Serving(st, key, fbcache.st, x) && OnlyOld(st, fbcache.st) && x < |fbcache.st.ce|
      && fbcache.st.ce[x].state != CsValid
      && fbcache.st.ce[x].data == Some(buffer) && buffer < data.Length == |pages| && |data[buffer]| == pgsz
      && data[..] == pages[buffer := data[buffer]]
    }

    method Keep(ghost key: Key, x: nat, ghost buffer: nat, ghost st: State, ghost pages: seq<seq<byte>>)
      requires Filling(key, x, buffer, st, pages) && data[buffer] == Page(files, pgsz, key)
      requires !(Full(st) && !CachedOrInFlight(st, key))
      modifies fbcache, fbcache.next, fbcache.prev, fbcache.ce
      ensures Valid() && Served(st, pages, key, Ok, x) && InPlace(x, Page(files, pgsz, key))
    {
      ghost var r := fbcache.st;
      assert CacheInvariant.Valid(r) && Structured(r) && Held(r, x);
      hide Insert, Move, Get, Calm, Quiet, Untouched, Undisturbed, Granted, OnlyOld, Page, Full, CachedOrInFlight,
           FindKey;
      hide EntryCache.View, CacheInvariant.Valid, Holds, CacheRuns.Held, Structured;
      fbcache.Insert(x);
      Filled(files, pgsz, st, key, r, x, pages);
    }

    method Drop(ghost key: Key, x: nat, ghost buffer: nat, ghost st: State, ghost pages: seq<seq<byte>>)
      requires Filling(key, x, buffer, st, pages) && !(Full(st) && !CachedOrInFlight(st, key))
      modifies fbcache, fbcache.next, fbcache.prev, fbcache.ce
      ensures Valid() && Served(st, pages, key, System, x)
    {
      ghost var r := fbcache.st;
      assert CacheInvariant.Valid(r) && Structured(r) && Held(r, x);
      hide Discard, Move, Get, Calm, Quiet, Untouched, Undisturbed, Granted, OnlyOld, Page, Full, CachedOrInFlight,
           FindKey;
      hide EntryCache.View, CacheInvariant.Valid, Holds, CacheRuns.Held, Structured;
      fbcache.Discard(x);
      Dropped(files, pgsz, st, key, r, x, pages, data[buffer]);
    }

    /** Get the page for `key` into the cache. */
    method GetPage(fidx: nat, blkpos: nat, key: Key) returns (status: Status, x: nat)
      requires Valid() && fidx < |files| && key % pgsz == fidx && key - fidx == blkpos
      modifies fbcache, fbcache.next, fbcache.prev, fbcache.ce, data
      ensures Valid() && Served(old(fbcache.st), old(data[..]), key, status, x)
      ensures status == Ok ==> InPlace(x, Page(files, pgsz, key))
    {
      ghost var st, pages := fbcache.st, data[..];
      assert pgsz == Pow2(shift) && pgsz > 0 && |files| <= pgsz && Contents(st, pages) && Quiet(st);
      hide Valid, Contents, Quiet, EntryCache.View, Served, InPlace, OnlyOld, Page, Full, CachedOrInFlight;
      var found := EntryFor(key, st, pages);
      if found == None {
        return Busy, 0;
      }
      x := found.value;
      if fbcache.ce[x].state != CsValid {
        status := Fill(fidx, blkpos, key, x, st, pages);
      } else {
        HitServed(st, pages, key, x);
        status := Ok;
      }
    }

    lemma HitServed(st: State, pages: seq<seq<byte>>, key: Key, x: nat)
      requires pgsz == Pow2(shift) && |files| <= pgsz
      requires fbcache.View() == Some(fbcache.st) && Quiet(st) && Contents(st, pages) && data[..] == pages
      requires Serving(st, key, fbcache.st, x) && OnlyOld(st, fbcache.st) && fbcache.st.ce[x].state == CsValid
      requires !(Full(st) && !CachedOrInFlight(st, key))
      ensures Valid() && Served(st, pages, key, Ok, x) && InPlace(x, Page(files, pgsz, key))
    {
      HitHolds(files, pgsz, st, key, fbcache.st, x, pages);
      hide Quiet, Untouched, Undisturbed, OnlyOld, Page, Full, CachedOrInFlight, Holds;
      hide EntryCache.View, CacheInvariant.Valid, Calm, Granted;
    }

    /** The first step of `fcache_get_read`. */
    method EntryFor(key: Key, ghost st: State, ghost pages: seq<seq<byte>>) returns (found: Option<nat>)
      requires Valid() && st == fbcache.st && pages == data[..] && key % pgsz < |files|
      modifies fbcache, fbcache.next, fbcache.prev, fbcache.ce
      ensures found == None ==> Valid() && Served(st, pages, key, Busy, 0)
      ensures found.Some? ==> fbcache.View() == Some(fbcache.st) && Serving(st, key, fbcache.st, found.value)
      ensures found.Some? ==> OnlyOld(st, fbcache.st) && fbcache.st.ce == fbcache.ce[..]
      ensures found.Some? ==> !(Full(st) && !CachedOrInFlight(st, key))
    {
      ValidFeeds(st, key);
      GetServes(st, key);
      UndisturbedSame(st, pages);
      found := fbcache.GetEntry(key);
    }

    /** A chunk whose bytes are those of file `fidx` from `pos` on. */
    ghost predicate Shows(c: Chunk, fidx: nat, pos: nat)
      requires fidx < |files|
      reads fbcache`st, data
    {
      && c.ce < |fbcache.st.ce| && fbcache.st.ce[c.ce].refcnt > 0 && fbcache.st.ce[c.ce].data == Some(c.buffer)
      && c.len > 0 && c.off + c.len == pgsz && c.buffer < data.Length && |data[c.buffer]| == pgsz
      && data[c.buffer][c.off..] == Slice(files[fidx], pos, c.len)
    }

    /** `fcache_get_read`, which is `fcache_get` when mmap is never used. */
    method GetRead(fidx: nat, pos: nat) returns (status: Status, fce: Chunk, ghost key: Key)
      requires Valid() && fidx < |files|
      modifies fbcache, fbcache.next, fbcache.prev, fbcache.ce, data
      ensures Valid() && Served(old(fbcache.st), old(data[..]), key, status, fce.ce)
      ensures status == Ok ==> Shows(fce, fidx, pos)
    {
      hide And, Or, AndNot, Pow2, Page, Slice, Served, EntryCache.View, Quiet, Contents, Valid;
      ValidShape();
      var blkpos := AndNot(pos, pgsz - 1);
      var off := And(pos, pgsz - 1);
      key := Or(blkpos, fidx);
      BlockOf(fidx, pos);
      var x;
      status, x := GetPage(fidx, blkpos, Or(blkpos, fidx));
      fce := Chunk(x, 0, off, pgsz - off);
      if status == Ok {
        ShownBy(x, Or(blkpos, fidx), off, fidx, pos);
        fce := fce.(buffer := fbcache.ce[x].data.value);
      }
    }

    lemma ShownBy(x: nat, key: Key, off: nat, fidx: nat, pos: nat)
      requires Valid() && fidx < |files| && off < pgsz && InPlace(x, Page(files, pgsz, key))
      requires |Page(files, pgsz, key)| == pgsz && Page(files, pgsz, key)[off..] == Slice(files[fidx], pos, pgsz - off)
      ensures x < fbcache.ce.Length && fbcache.ce[x].data.Some?
      ensures Shows(Chunk(x, fbcache.ce[x].data.value, off, pgsz - off), fidx, pos)
    {
      hide Slice, Page, Quiet, Holds;
    }

    /** Key, offset and contents of the block that holds `pos`. */
    lemma BlockOf(fidx: nat, pos: nat)
      requires Valid() && fidx < |files|
      ensures var blkpos, off := AndNot(pos, pgsz - 1), And(pos, pgsz - 1);
        var key := Or(blkpos, fidx);
        && key % pgsz == fidx && key - fidx == blkpos && off < pgsz
        && |Page(files, pgsz, key)| == pgsz && Page(files, pgsz, key)[off..] == Slice(files[fidx], pos, pgsz - off)
    {
      ValidShape();
      hide Valid, Pow2, Or, And, AndNot, Page, Slice;
      KeyOf(pos, fidx, shift);
      LowMask(pos, shift);
      PageTail(files, pgsz, Or(AndNot(pos, pgsz - 1), fidx), fidx, pos);
    }

    lemma ValidShape()
      requires Valid()
      ensures pgsz == Pow2(shift) && |files| <= pgsz
    {
    }

    /** `fcache_put` */
    method Put(fce: Chunk, ghost st: State, ghost pages: seq<seq<byte>>, ghost key: Key)
      requires Valid() && Quiet(st) && |pages| == data.Length
      requires Granted(st, key, fbcache.st, fce.ce) && Untouched(st, pages, fbcache.st, data[..])
      modifies fbcache, fbcache.ce
      ensures Valid() && Undisturbed(st, pages, fbcache.st, data[..])
    {
      GivenBack(files, pgsz, st, pages, key, fbcache.st, data[..], fce.ce);
      fbcache.PutEntry(fce.ce);
    }

    /** Copy the first bytes of a chunk. */
    method CopyOut(buf: array<byte>, at: nat, len: nat, fce: Chunk, fidx: nat, pos: nat) returns (partlen: nat)
      requires fidx < |files| && Shows(fce, fidx, pos) && 0 < len && at + len <= buf.Length
      modifies buf
      ensures 0 < partlen <= len && buf[at..at + partlen] == Slice(files[fidx], pos, partlen)
      ensures KeptAround(old(buf[..]), buf[..], at, partlen)
    {
      partlen := if fce.len < len then fce.len else len;
      CopyPart(buf, at, data[fce.buffer][fce.off..fce.off + partlen]);
      SlicePrefix(files[fidx], pos, data[fce.buffer], fce.off, partlen);
    }

    /** What one turn of the loop in `fcache_pread` has done, with a cache that was in state `st` and
        a buffer that held `before`. */
    ghost predicate PartRead(st: State, pages: seq<seq<byte>>, buf: array<byte>, before: seq<byte>, at: nat, len: nat,
                             fidx: nat, pos: nat, status: Status, partlen: nat)
      reads *
    {
      && Valid() && fidx < |files| && Quiet(st) && Undisturbed(st, pages, fbcache.st, data[..])
      && (status == Busy ==> Full(st)) && (if status == Ok then 0 < partlen <= len else partlen == 0)
      && at + partlen <= buf.Length && buf[at..at + partlen] == Slice(files[fidx], pos, partlen)
      && KeptAround(before, buf[..], at, partlen)
    }

    /** One turn of the loop in `fcache_pread`. */
    method ReadPart(buf: array<byte>, at: nat, len: nat, fidx: nat, pos: nat) returns (status: Status, partlen: nat)
      requires Valid() && fidx < |files| && 0 < len && at + len <= buf.Length
      modifies fbcache, fbcache.next, fbcache.prev, fbcache.ce, data, buf
      ensures PartRead(old(fbcache.st), old(data[..]), buf, old(buf[..]), at, len, fidx, pos, status, partlen)
    {
      ghost var st, pages := fbcache.st, data[..];
      ghost var key;
      var fce;
      hide *;
      ValidMeans();
      status, fce, key := GetRead(fidx, pos);
      ServedMeans(st, pages, key, status, fce.ce);
      if status == Ok {
        partlen := Deliver(buf, at, len, fce, fidx, pos, st, pages, key);
      } else {
        partlen := 0;
        NoPartRead(st, pages, buf, at, len, fidx, pos, status);
      }
    }

    lemma NoPartRead(st: State, pages: seq<seq<byte>>, buf: array<byte>, at: nat, len: nat, fidx: nat, pos: nat,
                     status: Status)
      requires Valid() && fidx < |files| && Quiet(st) && at + len <= buf.Length
      requires Undisturbed(st, pages, fbcache.st, data[..]) && status != Ok && (status == Busy ==> Full(st))
      ensures PartRead(st, pages, buf, buf[..], at, len, fidx, pos, status, 0)
    {
      hide Valid, Quiet, Undisturbed, Full;
    }

    /** Copy from a chunk and give it back. */
    method Deliver(buf: array<byte>, at: nat, len: nat, fce: Chunk, fidx: nat, pos: nat,
                   ghost st: State, ghost pages: seq<seq<byte>>, ghost key: Key)
      returns (partlen: nat)
      requires Valid() && Quiet(st) && |pages| == data.Length
      requires Granted(st, key, fbcache.st, fce.ce) && Untouched(st, pages, fbcache.st, data[..])
      requires fidx < |files| && Shows(fce, fidx, pos) && 0 < len && at + len <= buf.Length
      modifies fbcache, fbcache.ce, buf
      ensures PartRead(st, pages, buf, old(buf[..]), at, len, fidx, pos, Ok, partlen)
    {
      hide Valid, Quiet, Undisturbed, Untouched, Granted, Full, Shows, Slice, KeptAround;
      partlen := CopyOut(buf, at, len, fce, fidx, pos);
      Put(fce, st, pages, key);
    }

    lemma ServedMeans(st: State, pages: seq<seq<byte>>, key: Key, status: Status, x: nat)
      requires Quiet(st) && pgsz > 0 && Served(st, pages, key, status, x)
      ensures status == Busy ==> Full(st)
      ensures status == Ok ==> Granted(st, key, fbcache.st, x) && Untouched(st, pages, fbcache.st, data[..])
      ensures status != Ok ==> Undisturbed(st, pages, fbcache.st, data[..])
    {
      hide Full, Granted, Untouched, Undisturbed, Quiet;
    }

    /** The `memcpy` of `fcache_pread`. */
    static method CopyPart(buf: array<byte>, at: nat, part: seq<byte>)
      requires at + |part| <= buf.Length
      modifies buf
      ensures buf[at..at + |part|] == part
      ensures forall i :: 0 <= i < buf.Length && !(at <= i < at + |part|) ==> buf[i] == old(buf[i])
    {
      forall j | 0 <= j < |part| {
        buf[at + j] := part[j];
      }
    }

    /** A read that has come so far, from a cache in state `st` and a buffer that held `before`. */
    ghost predicate Reading(st: State, pages: seq<seq<byte>>, buf: array<byte>, before: seq<byte>, at: nat, done: nat,
                            fidx: nat, pos: nat)
      reads *
    {
      && Valid() && fidx < |files| && Undisturbed(st, pages, fbcache.st, data[..])
      && HasRead(files[fidx], before, buf[..], at, done, pos)
    }

    /** One turn of the loop, and what it adds to what was read before. */
    method ReadMore(buf: array<byte>, at: nat, done: nat, len: nat, fidx: nat, pos: nat,
                    ghost st: State, ghost pages: seq<seq<byte>>, ghost before: seq<byte>)
      returns (status: Status, partlen: nat)
      requires Reading(st, pages, buf, before, at, done, fidx, pos) && done < len && at + len <= buf.Length
      requires Quiet(st) && |pages| == st.cap == fbcache.cap
      modifies fbcache, fbcache.next, fbcache.prev, fbcache.ce, data, buf
      ensures Reading(st, pages, buf, before, at, done + partlen, fidx, pos) && done + partlen <= len
      ensures (status == Ok ==> partlen > 0) && (status == Busy ==> Full(st))
    {
      ghost var st', pages', was := fbcache.st, data[..], buf[..];
      ValidMeans();
      hide Valid, Full, Undisturbed, Quiet, Slice, ByteAt, HasRead, KeptAround;
      status, partlen := ReadPart(buf, at + done, len - done, fidx, pos + done);
      ReadsOn(st, pages, st', pages', buf, was, before, at, done, len, fidx, pos, status, partlen);
    }

    lemma ReadsOn(st: State, pages: seq<seq<byte>>, st': State, pages': seq<seq<byte>>, buf: array<byte>,
                  was: seq<byte>,
                  before: seq<byte>, at: nat, done: nat, len: nat, fidx: nat, pos: nat, status: Status, partlen: nat)
      requires Quiet(st) && |pages| == st.cap && Quiet(st') && st'.cap == st.cap
      requires Undisturbed(st, pages, st', pages') && at + len <= buf.Length && done <= len && fidx < |files|
      requires HasRead(files[fidx], before, was, at, done, pos) && |was| == buf.Length
      requires PartRead(st', pages', buf, was, at + done, len - done, fidx, pos + done, status, partlen)
      ensures Reading(st, pages, buf, before, at, done + partlen, fidx, pos) && done + partlen <= len
      ensures (status == Ok ==> partlen > 0) && (status == Busy ==> Full(st))
    {
      hide Valid, Full, Undisturbed, Quiet, Slice, ByteAt, HasRead, KeptAround;
      UndisturbedTwice(st, pages, st', pages', fbcache.st, data[..]);
      if status == Ok {
        ReadOn(files[fidx], before, was, buf[..], at, done, partlen, pos);
      } else {
        NothingRead(files[fidx], before, was, buf[..], at, done, pos);
        FullStays(st, pages, st', pages');
      }
    }

    /** What has been read when the loop in `fcache_pread` ends. */
    ghost predicate HaveRead(st: State, pages: seq<seq<byte>>, buf: array<byte>, before: seq<byte>, at: nat, len: nat,
                             fidx: nat, pos: nat, done: nat, status: Status)
      reads *
    {
      && Reading(st, pages, buf, before, at, done, fidx, pos) && done <= len && (status == Ok ==> done == len)
      && Shape(st) && (status == Busy ==> Full(st))
    }

    /** The loop in `fcache_pread`. */
    method ReadAll(buf: array<byte>, at: nat, len: nat, fidx: nat, pos: nat,
                   ghost st: State, ghost pages: seq<seq<byte>>, ghost before: seq<byte>)
      returns (status: Status, done: nat)
      requires Reading(st, pages, buf, before, at, 0, fidx, pos) && at + len <= buf.Length
      requires Shape(st) && Quiet(st) && |pages| == st.cap == fbcache.cap
      modifies fbcache, fbcache.next, fbcache.prev, fbcache.ce, data, buf
      ensures HaveRead(st, pages, buf, before, at, len, fidx, pos, done, status)
    {
      hide Reading, Quiet, Full;
      var partlen: nat := 0;
      done, status := 0, Ok;
      while status == Ok && done < len
        invariant done <= len && Reading(st, pages, buf, before, at, done, fidx, pos)
        invariant status == Busy ==> Full(st)
        decreases if status == Ok then len - done + 1 else 0
      {
        status, partlen := ReadMore(buf, at, done, len, fidx, pos, st, pages, before);
        done := done + partlen;
      }
    }

    /** `fcache_pread`, into `buf` from index `at` on. */
    method Pread(buf: array<byte>, at: nat, len: nat, fidx: nat, pos: nat) returns (status: Status)
      requires Valid() && fidx < |files| && at + len <= buf.Length
      modifies fbcache, fbcache.next, fbcache.prev, fbcache.ce, data, buf
      ensures Valid() && Undisturbed(old(fbcache.st), old(data[..]), fbcache.st, data[..])
      ensures Quiet(old(fbcache.st)) && (status == Busy ==> Full(old(fbcache.st)))
      ensures status == Ok ==> buf[at..at + len] == Slice(files[fidx], pos, len)
      ensures forall i :: 0 <= i < buf.Length && !(at <= i < at + len) ==> buf[i] == old(buf[i])
    {
      ghost var st, pages, before := fbcache.st, data[..], buf[..];
      hide *;
      ValidMeans();
      NothingYet(buf, at, fidx, pos);
      var done;
      status, done := ReadAll(buf, at, len, fidx, pos, st, pages, before);
      HaveReadMeans(st, pages, buf, before, at, len, fidx, pos, done, status);
    }

    lemma NothingYet(buf: array<byte>, at: nat, fidx: nat, pos: nat)
      requires Valid() && fidx < |files| && at <= buf.Length
      ensures Reading(fbcache.st, data[..], buf, buf[..], at, 0, fidx, pos)
    {
      UndisturbedSame(fbcache.st, data[..]);
    }

    lemma HaveReadMeans(st: State, pages: seq<seq<byte>>, buf: array<byte>, before: seq<byte>, at: nat, len: nat,
                        fidx: nat, pos: nat, done: nat, status: Status)
      requires HaveRead(st, pages, buf, before, at, len, fidx, pos, done, status)
      ensures Valid() && Undisturbed(st, pages, fbcache.st, data[..]) && at + done <= buf.Length == |before|
      ensures status == Busy ==> Full(st)
      ensures status == Ok ==> buf[at..at + len] == Slice(files[fidx], pos, len)
      ensures forall i :: 0 <= i < buf.Length && !(at <= i < at + len) ==> buf[i] == before[i]
    {
      hide Valid, Undisturbed, Slice, Full;
    }

    lemma ValidMeans()
      requires Valid()
      ensures Quiet(fbcache.st) && Shape(fbcache.st) && fbcache.st.cap == fbcache.cap == data.Length && pgsz > 0
    {
    }
  }
}
