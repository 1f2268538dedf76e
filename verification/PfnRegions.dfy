/** Regions of page frame numbers made from a bitmap (`src/kdumpfile/pfn.c`). */
module PfnRegions {
  import opened Bits
  import opened Bitmap

  // ---------------------------------------------------------------------------
  // Skipping bits

  /** What the `skip_` functions look at first: byte `b` from bit `k` on.  `want` is the
      value of the bit that ends the skip. */
  function FirstVal(msb: bool, want: bool, b: Byte, k: nat): Byte
    requires k < 8
  {
    if msb then
      assert Pow2(8) == 256;
      if want then Low(Shl(b, k), 8) else NotByte(Low(Shl(b, k), 8))
    else if want || b < 128 then
      if want then High(b, k) else NotByte(High(b, k))
    else NotByte(SignedShift(b, k))
  }

  /** `(signed char)b >> k` of a negative number, as a byte */
  function SignedShift(b: Byte, k: nat): Byte
    requires k < 8 && b >= 128
  {
    ShiftFits(b, k); High(b, k) + (256 - Pow2(8 - k))
  }

  lemma ShiftFits(b: Byte, k: nat)
    requires k < 8
    ensures High(b, k) < Pow2(8 - k) <= 256
  {
    assert Pow2(8) == 256;
    Pow2Sum(k, 8 - k);
    Pow2Grows(8 - k, 8);
    DivMod(b, Pow2(k));
    var h, m := High(b, k), Pow2(8 - k);
    if h >= m { MulGrows(Pow2(k), h - m); Distribute(Pow2(k), m, h - m); }
  }

  lemma FirstBitsUp(want: bool, b: Byte, k: nat, i: nat)
    requires k < 8 && i < 8
    ensures BitFrom(false, FirstVal(false, want, b, k), 8, i)
         == if k + i < 8 then BitFrom(false, b, 8, k + i) == want else !want && !Bit(b, 7)
  {
    assert Pow2(8) == 256 && Pow2(7) == 128;
    hide Pow2, High;
    BitHigh(b, k, i);
    if k + i >= 8 { BitSmall(b, 8, k + i); }
    if want {
    } else if b < 128 {
      ByteBits(0, High(b, k), 0, i);
      BitSmall(b, 7, 7);
    } else {
      TopIsSet(b, 8);
      SignBits(b, k, i);
      ByteBits(0, SignedShift(b, k), 0, i);
    }
  }

  lemma FirstBits(msb: bool, want: bool, b: Byte, k: nat, i: nat)
    requires k < 8 && i < 8
    ensures BitFrom(msb, FirstVal(msb, want, b, k), 8, i)
         == if k + i < 8 then BitFrom(msb, b, 8, k + i) == want else !want && (msb || !Bit(b, 7))
  {
    assert Pow2(8) == 256;
    if msb {
      BitLow(Shl(b, k), 8, 7 - i);
      BitConcat(0, b, k, 7 - i);
      BitSmall(0, 0, 7 - i);
      ByteBits(0, Low(Shl(b, k), 8), 0, 7 - i);
    } else {
      FirstBitsUp(want, b, k, i);
    }
  }

  lemma SignBits(b: Byte, k: nat, i: nat)
    requires k < 8 && i < 8 && b >= 128
    ensures Bit(SignedShift(b, k), i) == if i < 8 - k then Bit(High(b, k), i) else true
  {
    ShiftFits(b, k);
    UpperOnes(k);
    assert SignedShift(b, k) == High(b, k) + Shl(Pow2(k) - 1, 8 - k);
    hide SignedShift, High, Shl;
    BitConcat(High(b, k), Pow2(k) - 1, 8 - k, i);
    if i >= 8 - k { BitMask(k, i - (8 - k)); }
  }

  lemma UpperOnes(k: nat)
    requires k <= 8
    ensures Shl(Pow2(k) - 1, 8 - k) == 256 - Pow2(8 - k)
  {
    assert Pow2(8) == 256;
    Pow2Sum(8 - k, k);
    Distribute(Pow2(8 - k), Pow2(k) - 1, 1);
  }

  /** The same for a whole byte. */
  function NextVal(want: bool, b: Byte): Byte { if want then b else NotByte(b) }

  /** `le32toh` or `be32toh` of four bytes */
  function WordOf(msb: bool, a: Byte, b: Byte, c: Byte, d: Byte): (w: nat)
    ensures w < Pow2(32)
  {
    WordFits(a, b, c, d);
    WordFits(d, c, b, a);
    if msb then Join(d, Join(c, Join(b, a))) else Join(a, Join(b, Join(c, d)))
  }

  function Join(a: nat, b: nat): nat { a + Shl(b, 8) }

  lemma JoinFits(a: Byte, b: nat, k: nat)
    requires b < Pow2(k)
    ensures Join(a, b) < Pow2(8 + k)
  {
    assert Pow2(8) == 256;
    Pow2Sum(8, k);
    Below(256, Pow2(k), b, a);
  }

  lemma WordFits(a: Byte, b: Byte, c: Byte, d: Byte)
    ensures Join(a, Join(b, Join(c, d))) < Pow2(32)
  {
    assert Pow2(8) == 256;
    JoinFits(c, d, 8);
    JoinFits(b, Join(c, d), 16);
    JoinFits(a, Join(b, Join(c, d)), 24);
  }

  lemma JoinBits(a: Byte, b: nat, i: nat)
    ensures Bit(Join(a, b), i) == if i < 8 then Bit(a, i) else Bit(b, i - 8)
  {
    assert Pow2(8) == 256;
    BitConcat(a, b, 8, i);
  }

  /** The bits of four bytes joined. */
  lemma FourBits(bs: seq<Byte>, j: nat)
    requires |bs| == 4 && j < 32
    ensures Bit(Join(bs[0], Join(bs[1], Join(bs[2], bs[3]))), j) == Bit(bs[j / 8], j % 8)
  {
    hide Join, Bit;
    var (a, b, c, d) := (bs[0], bs[1], bs[2], bs[3]);
    JoinBits(a, Join(b, Join(c, d)), j);
    if j >= 8 { JoinBits(b, Join(c, d), j - 8); }
    if j >= 16 { JoinBits(c, d, j - 16); }
  }

  lemma WordBits(msb: bool, bs: seq<Byte>, i: nat)
    requires |bs| == 4 && i < 32
    ensures BitFrom(msb, WordOf(msb, bs[0], bs[1], bs[2], bs[3]), 32, i) == BitFrom(msb, bs[i / 8], 8, i % 8)
  {
    hide Join, Bit;
    if msb {
      FourBits([bs[3], bs[2], bs[1], bs[0]], 31 - i);
      assert [bs[3], bs[2], bs[1], bs[0]][(31 - i) / 8] == bs[i / 8] && (31 - i) % 8 == 7 - i % 8;
    } else {
      FourBits(bs, i);
    }
  }

  /** The word, complemented unless set bits are wanted */
  function NextWord(msb: bool, want: bool, bs: seq<Byte>): (w: nat)
    requires |bs| == 4
    ensures w < Pow2(32)
  {
    var w := WordOf(msb, bs[0], bs[1], bs[2], bs[3]);
    if want then w else Pow2(32) - 1 - w
  }

  lemma NextWordBits(msb: bool, want: bool, bs: seq<Byte>, i: nat)
    requires |bs| == 4 && i < 32
    ensures BitFrom(msb, NextWord(msb, want, bs), 32, i) == (BitFrom(msb, bs[i / 8], 8, i % 8) == want)
  {
    WordBits(msb, bs, i);
    if !want { BitNot(WordOf(msb, bs[0], bs[1], bs[2], bs[3]), 32, if msb then 31 - i else i); }
  }

  /** The one case in which a skip ends too early: from within a byte whose other bits are
      all set, `skip_set_msb0` goes to the next byte and no further. */
  ghost predicate StopsEarly(bitmap: seq<Byte>, msb: bool, p: nat) {
    && msb && p % 8 != 0 && p / 8 < |bitmap|
    && forall q: nat :: p <= q < 8 * (p / 8 + 1) ==> Has(bitmap, true, q)
  }

  /** All bits from `p` to `r` differ from `want`. */
  ghost predicate NoneBetween(bitmap: seq<Byte>, msb: bool, want: bool, p: nat, r: nat) {
    forall q: nat :: p <= q < r && q / 8 < |bitmap| ==> Has(bitmap, msb, q) != want
  }

  /** The result of a skip. */
  ghost predicate Skipped(bitmap: seq<Byte>, msb: bool, want: bool, p: nat, r: nat) {
    && p <= r && NoneBetween(bitmap, msb, want, p, r)
    && (!want && StopsEarly(bitmap, msb, p) ==> r == 8 * (p / 8 + 1))
    && (!(!want && StopsEarly(bitmap, msb, p)) && r / 8 < |bitmap| ==> Has(bitmap, msb, r) == want)
  }

  /** The bits of the first value, as `FirstBits` tells. */
  ghost predicate ShowsByte(msb: bool, want: bool, b: Byte, k: nat, v: Byte) {
    forall i: nat :: i < 8 ==>
      BitFrom(msb, v, 8, i) == if k + i < 8 then BitFrom(msb, b, 8, k + i) == want else !want && (msb || !Bit(b, 7))
  }

  lemma FirstByte(bitmap: seq<Byte>, msb: bool, want: bool, p: nat)
    requires p / 8 < |bitmap|
    ensures var v := FirstVal(msb, want, bitmap[p / 8], p % 8);
            && (v == 0 ==> NoneBetween(bitmap, msb, want, p, 8 * (p / 8 + 1)) && !(!want && StopsEarly(bitmap, msb, p)))
            && (v != 0 ==> v < Pow2(8) && Skipped(bitmap, msb, want, p, p + Zeros(msb, v, 8)))
  {
    assert Pow2(8) == 256;
    var b, k := bitmap[p / 8], p % 8;
    var v := FirstVal(msb, want, b, k);
    assert ShowsByte(msb, want, b, k, v) by {
      forall i: nat | i < 8
        ensures BitFrom(msb, v, 8, i)
             == if k + i < 8 then BitFrom(msb, b, 8, k + i) == want else !want && (msb || !Bit(b, 7))
      {
        FirstBits(msb, want, b, k, i);
      }
    }
    if v == 0 {
      forall i: nat | i < 8 ensures !BitFrom(msb, v, 8, i) { BitSmall(0, 0, if msb then 7 - i else i); }
      forall q: nat | p <= q < 8 * (p / 8 + 1) ensures Has(bitmap, msb, q) != want {
        assert !BitFrom(msb, v, 8, q - p);
      }
      assert k != 0 ==> !BitFrom(msb, v, 8, 8 - k);
      assert !want && msb ==> k == 0;
    } else {
      ZerosIs(msb, v, 8);
      FirstByteStop(bitmap, msb, want, p, Zeros(msb, v, 8), v);
    }
  }

  lemma FirstByteStop(bitmap: seq<Byte>, msb: bool, want: bool, p: nat, t: nat, v: Byte)
    requires p / 8 < |bitmap| && t < 8 && BitFrom(msb, v, 8, t)
    requires forall i :: 0 <= i < t ==> !BitFrom(msb, v, 8, i)
    requires ShowsByte(msb, want, bitmap[p / 8], p % 8, v)
    ensures Skipped(bitmap, msb, want, p, p + t)
  {
    var b, k := bitmap[p / 8], p % 8;
    var d := 8 - k;
    assert k > 0 ==> BitFrom(msb, v, 8, d) == (!want && (msb || !Bit(b, 7)));
    assert t >= d ==> !BitFrom(msb, v, 8, d - 1);
    assert t <= d && (t == d ==> msb && !want);
    hide Bit;
    forall q: nat | p <= q < p + t ensures q / 8 == p / 8 && Has(bitmap, msb, q) != want {
      assert !BitFrom(msb, v, 8, q - p);
    }
    if t < d {
      assert Has(bitmap, msb, p + t) == want;
    }
  }

  /** Whole bytes behind a skipped part. */
  lemma SkipBytes(bitmap: seq<Byte>, msb: bool, want: bool, p: nat, i: nat, n: nat, v: nat)
    requires p <= 8 * i && n > 0 && i + n <= |bitmap| && v < Pow2(8 * n)
    requires NoneBetween(bitmap, msb, want, p, 8 * i) && !(!want && StopsEarly(bitmap, msb, p))
    requires forall j: nat :: j < 8 * n ==> BitFrom(msb, v, 8 * n, j) == (Has(bitmap, msb, 8 * i + j) == want)
    ensures v == 0 ==> NoneBetween(bitmap, msb, want, p, 8 * (i + n))
    ensures v != 0 ==> Skipped(bitmap, msb, want, p, 8 * i + Zeros(msb, v, 8 * n))
  {
    if v == 0 {
      forall q: nat | p <= q < 8 * (i + n) && q / 8 < |bitmap| ensures Has(bitmap, msb, q) != want {
        if q >= 8 * i {
          BitSmall(0, 0, if msb then 8 * n - 1 - (q - 8 * i) else q - 8 * i);
          assert !BitFrom(msb, v, 8 * n, q - 8 * i);
        }
      }
    } else {
      ZerosIs(msb, v, 8 * n);
      var t := Zeros(msb, v, 8 * n);
      forall q: nat | p <= q < 8 * i + t && q / 8 < |bitmap| ensures Has(bitmap, msb, q) != want {
        if q >= 8 * i { assert !BitFrom(msb, v, 8 * n, q - 8 * i); }
      }
      assert Has(bitmap, msb, 8 * i + t) == want;
    }
  }

  lemma ByteIs(bitmap: seq<Byte>, msb: bool, want: bool, i: nat)
    requires i < |bitmap|
    ensures NextVal(want, bitmap[i]) < Pow2(8)
    ensures forall j: nat :: j < 8 ==>
            BitFrom(msb, NextVal(want, bitmap[i]), 8, j) == (Has(bitmap, msb, 8 * i + j) == want)
  {
    assert Pow2(8) == 256;
    forall j: nat | j < 8
      ensures BitFrom(msb, NextVal(want, bitmap[i]), 8, j) == (Has(bitmap, msb, 8 * i + j) == want)
    {
      ByteBits(0, bitmap[i], 0, if msb then 7 - j else j);
      assert (8 * i + j) / 8 == i && (8 * i + j) % 8 == j;
      hide Bit;
    }
  }

  lemma WordIs(bitmap: seq<Byte>, msb: bool, want: bool, i: nat, w: nat)
    requires i + 4 <= |bitmap| && w == NextWord(msb, want, bitmap[i..i + 4])
    ensures forall j: nat :: j < 32 ==> BitFrom(msb, w, 32, j) == (Has(bitmap, msb, 8 * i + j) == want)
  {
    forall j: nat | j < 32 ensures BitFrom(msb, w, 32, j) == (Has(bitmap, msb, 8 * i + j) == want) {
      NextWordBits(msb, want, bitmap[i..i + 4], j);
      assert (8 * i + j) / 8 == i + j / 8 && (8 * i + j) % 8 == j % 8;
    }
  }

  /** One turn of the loops over bytes: stop if there is a wanted bit. */
  method SkipByte(bitmap: seq<Byte>, msb: bool, want: bool, pfn: nat, i: nat) returns (found: bool, r: nat)
    requires pfn <= 8 * i && i < |bitmap|
    requires NoneBetween(bitmap, msb, want, pfn, 8 * i) && !(!want && StopsEarly(bitmap, msb, pfn))
    ensures if found then Skipped(bitmap, msb, want, pfn, r) else NoneBetween(bitmap, msb, want, pfn, 8 * (i + 1))
  {
    ByteIs(bitmap, msb, want, i);
    hide Skipped, NoneBetween, StopsEarly, Has, BitFrom;
    var val := NextVal(want, bitmap[i]);
    SkipBytes(bitmap, msb, want, pfn, i, 1, val);
    found := val != 0;
    r := if found then 8 * i + Zeros(msb, val, 8) else pfn;
  }

  /** One turn of the loop over words. */
  method SkipWord(bitmap: seq<Byte>, msb: bool, want: bool, pfn: nat, i: nat) returns (found: bool, r: nat)
    requires pfn <= 8 * i && i + 4 <= |bitmap|
    requires NoneBetween(bitmap, msb, want, pfn, 8 * i) && !(!want && StopsEarly(bitmap, msb, pfn))
    ensures if found then Skipped(bitmap, msb, want, pfn, r) else NoneBetween(bitmap, msb, want, pfn, 8 * (i + 4))
  {
    var val := NextWord(msb, want, bitmap[i..i + 4]);
    WordIs(bitmap, msb, want, i, val);
    hide Skipped, NoneBetween, StopsEarly, Has, BitFrom, NextWord;
    SkipBytes(bitmap, msb, want, pfn, i, 4, val);
    found := val != 0;
    r := if found then 8 * i + Zeros(msb, val, 32) else pfn;
  }

  /** `skip_clear_lsb0`, `skip_clear_msb0`, `skip_set_lsb0` and `skip_set_msb0`; `align` is
      the address of the bitmap in memory. */
  method Skip(bitmap: seq<Byte>, msb: bool, want: bool, align: nat, pfn: nat) returns (r: nat)
    ensures Skipped(bitmap, msb, want, pfn, r)
  {
    var i, size := pfn / 8, |bitmap|;
    if i >= size {
      return pfn;
    }
    var val: nat := FirstVal(msb, want, bitmap[i], pfn % 8);
    FirstByte(bitmap, msb, want, pfn);
    if val != 0 {
      return pfn + Zeros(msb, val, 8);
    }
    hide Skipped, NoneBetween, StopsEarly, Has, BitFrom, FirstVal;
    i := i + 1;
    var found: bool;
    while size - i >= 1 && (align + i) % 4 != 0
      invariant pfn <= 8 * i && i <= size && NoneBetween(bitmap, msb, want, pfn, 8 * i)
    {
      found, r := SkipByte(bitmap, msb, want, pfn, i);
      if found {
        return;
      }
      i := i + 1;
    }
    while size - i >= 4
      invariant pfn <= 8 * i && i <= size && NoneBetween(bitmap, msb, want, pfn, 8 * i)
    {
      found, r := SkipWord(bitmap, msb, want, pfn, i);
      if found {
        return;
      }
      i := i + 4;
    }
    while size - i >= 1
      invariant pfn <= 8 * i && i <= size && NoneBetween(bitmap, msb, want, pfn, 8 * i)
    {
      found, r := SkipByte(bitmap, msb, want, pfn, i);
      if found {
        return;
      }
      i := i + 1;
    }
    r := 8 * i;
    SkippedAll(bitmap, msb, want, pfn);
  }

  lemma SkippedAll(bitmap: seq<Byte>, msb: bool, want: bool, p: nat)
    requires p <= 8 * |bitmap| && NoneBetween(bitmap, msb, want, p, 8 * |bitmap|)
             && !(!want && StopsEarly(bitmap, msb, p))
    ensures Skipped(bitmap, msb, want, p, 8 * |bitmap|)
  {
  }

  // ---------------------------------------------------------------------------
  // Regions

  /** `struct pfn_region` */
  datatype Region = Region(pfn: nat, cnt: nat, pos: int) {
    function End(): nat { pfn + cnt }

    ghost predicate Holds(p: nat) { pfn <= p < End() }
  }

  /** The page frames that should be in regions. */
  ghost predicate Mapped(bitmap: seq<Byte>, msb: bool, start: nat, end: nat, p: nat)
    requires 8 * |bitmap| >= end
  {
    start <= p < end && Has(bitmap, msb, p)
  }

  /** The file position of the `n`-th object. */
  function FileOff(fileoff: int, elemsz: int, n: nat): int { fileoff + elemsz * n }

  lemma Advance(fileoff: int, elemsz: int, c: nat, d: nat)
    ensures FileOff(fileoff, elemsz, c + d) == FileOff(fileoff, elemsz, c) + elemsz * d
    ensures FileOff(fileoff, elemsz, 0) == fileoff
  {
  }

  /** How many of them there are below `p`. */
  ghost function Count(bitmap: seq<Byte>, msb: bool, start: nat, end: nat, p: nat): nat
    requires 8 * |bitmap| >= end
  {
    if p == 0 then 0
    else Count(bitmap, msb, start, end, p - 1) + if Mapped(bitmap, msb, start, end, p - 1) then 1 else 0
  }

  lemma {:induction false} CountRun(bitmap: seq<Byte>, msb: bool, start: nat, end: nat, p: nat, q: nat, value: bool)
    requires 8 * |bitmap| >= end && p <= q
    requires forall k: nat :: p <= k < q ==> Mapped(bitmap, msb, start, end, k) == value
    ensures Count(bitmap, msb, start, end, q) == Count(bitmap, msb, start, end, p) + if value then q - p else 0
    decreases q
  {
    if p == q {
    } else {
      CountRun(bitmap, msb, start, end, p, q - 1, value);
    }
  }

  ghost predicate InSome(rs: seq<Region>, p: nat) {
    exists i :: 0 <= i < |rs| && rs[i].Holds(p)
  }

  ghost predicate Ordered(rs: seq<Region>) {
    && (forall i :: 0 <= i < |rs| ==> rs[i].cnt > 0)
    && forall i, j :: 0 <= i < j < |rs| ==> rs[i].End() <= rs[j].pfn
  }

  /** Where a region that begins at `first` must end. */
  ghost predicate EndsRight(bitmap: seq<Byte>, msb: bool, end: nat, first: nat, e: nat)
    requires 8 * |bitmap| >= end
  {
    if StopsEarly(bitmap, msb, first) then e == (if 8 * (first / 8 + 1) < end then 8 * (first / 8 + 1) else end)
    else e == end || (e < end && !Has(bitmap, msb, e))
  }

  /** The regions describe the bitmap below `done`, and so do the file positions. */
  ghost predicate Describe(bitmap: seq<Byte>, msb: bool, start: nat, end: nat, fileoff: int, elemsz: int,
                           rs: seq<Region>, done: nat)
    requires 8 * |bitmap| >= end
  {
    && Ordered(rs)
    && (forall p: nat :: p < done ==> (InSome(rs, p) <==> Mapped(bitmap, msb, start, end, p)))
    && (forall i :: 0 <= i < |rs| ==> rs[i].End() <= done && EndsRight(bitmap, msb, end, rs[i].pfn, rs[i].End()))
    && (forall i :: 0 <= i < |rs| ==> rs[i].pos == FileOff(fileoff, elemsz, Count(bitmap, msb, start, end, rs[i].pfn)))
  }

  /** Regions that leave gaps between them. */
  ghost predicate Maximal(rs: seq<Region>) {
    forall i :: 0 < i < |rs| ==> rs[i - 1].End() < rs[i].pfn
  }

  /** One more region, at the end of the others. */
  lemma OneMore(bitmap: seq<Byte>, msb: bool, start: nat, end: nat, fileoff: int, elemsz: int,
                rs: seq<Region>, done: nat, r: Region)
    requires 8 * |bitmap| >= end && Describe(bitmap, msb, start, end, fileoff, elemsz, rs, done)
    requires done <= r.pfn && r.cnt > 0 && EndsRight(bitmap, msb, end, r.pfn, r.End())
    requires forall p: nat :: done <= p < r.End() ==> Mapped(bitmap, msb, start, end, p) == (p >= r.pfn)
    requires r.pos == FileOff(fileoff, elemsz, Count(bitmap, msb, start, end, r.pfn))
    ensures Describe(bitmap, msb, start, end, fileoff, elemsz, rs + [r], r.End())
  {
    hide FileOff;
    var all := rs + [r];
    forall p: nat | p < r.End() ensures InSome(all, p) <==> Mapped(bitmap, msb, start, end, p) {
      if p < done {
        assert InSome(rs, p) <==> Mapped(bitmap, msb, start, end, p);
        if i :| 0 <= i < |rs| && rs[i].Holds(p) { assert all[i].Holds(p); }
      } else if p >= r.pfn {
        assert all[|rs|].Holds(p);
      }
    }
  }

  /** Nothing more up to `to`. */
  lemma NoMore(bitmap: seq<Byte>, msb: bool, start: nat, end: nat, fileoff: int, elemsz: int,
               rs: seq<Region>, done: nat, to: nat)
    requires 8 * |bitmap| >= end && Describe(bitmap, msb, start, end, fileoff, elemsz, rs, done) && done <= to
    requires forall p: nat :: done <= p < to ==> !Mapped(bitmap, msb, start, end, p)
    ensures Describe(bitmap, msb, start, end, fileoff, elemsz, rs, to)
  {
    hide FileOff;
  }

  /** Every page of a region has its place in the file, `elemsz` bytes for each mapped page
      before it. */
  lemma FilePosition(bitmap: seq<Byte>, msb: bool, start: nat, end: nat, fileoff: int, elemsz: int,
                     rs: seq<Region>, done: nat, i: nat, p: nat)
    requires 8 * |bitmap| >= end && Describe(bitmap, msb, start, end, fileoff, elemsz, rs, done)
    requires i < |rs| && rs[i].Holds(p)
    ensures rs[i].pos + elemsz * (p - rs[i].pfn) == FileOff(fileoff, elemsz, Count(bitmap, msb, start, end, p))
  {
    hide FileOff, EndsRight, Count, Mapped, Ordered;
    forall k: nat | rs[i].pfn <= k < p ensures Mapped(bitmap, msb, start, end, k) {
      assert rs[i].Holds(k);
      assert InSome(rs, k);
    }
    CountRun(bitmap, msb, start, end, rs[i].pfn, p, true);
    var c, d := Count(bitmap, msb, start, end, rs[i].pfn), p - rs[i].pfn;
    assert rs[i].pos == FileOff(fileoff, elemsz, c) && Count(bitmap, msb, start, end, p) == c + d;
    hide *;
    Advance(fileoff, elemsz, c, d);
  }

  // ---------------------------------------------------------------------------
  // Which regions touch

  /** A run of mapped pages that begins inside a byte and goes on in the next one. */
  ghost predicate Crosses(bitmap: seq<Byte>, msb: bool, start: nat, end: nat, q: nat)
    requires 8 * |bitmap| >= end
  {
    && Mapped(bitmap, msb, start, end, q) && (q == start || !Mapped(bitmap, msb, start, end, q - 1))
    && q % 8 != 0 && forall k: nat :: q <= k <= 8 * (q / 8 + 1) ==> Mapped(bitmap, msb, start, end, k)
  }

  /** Page `p` is in the first byte of such a run. */
  ghost predicate InCut(bitmap: seq<Byte>, msb: bool, start: nat, end: nat, p: nat)
    requires 8 * |bitmap| >= end
  {
    msb && exists q: nat :: q <= p < 8 * (q / 8 + 1) && Crosses(bitmap, msb, start, end, q)
  }

  /** The region that a page is in. */
  lemma RegionOf(bitmap: seq<Byte>, msb: bool, start: nat, end: nat, fileoff: int, elemsz: int, rs: seq<Region>, p: nat)
    returns (i: nat)
    requires 8 * |bitmap| >= end && Describe(bitmap, msb, start, end, fileoff, elemsz, rs, end)
    requires Mapped(bitmap, msb, start, end, p)
    ensures i < |rs| && rs[i].Holds(p)
  {
    hide FileOff;
    assert InSome(rs, p);
    i :| 0 <= i < |rs| && rs[i].Holds(p);
  }

  lemma InRegion(bitmap: seq<Byte>, msb: bool, start: nat, end: nat, fileoff: int, elemsz: int, rs: seq<Region>,
                 i: nat, p: nat)
    requires 8 * |bitmap| >= end && Describe(bitmap, msb, start, end, fileoff, elemsz, rs, end)
    requires i < |rs| && rs[i].Holds(p)
    ensures Mapped(bitmap, msb, start, end, p)
  {
    hide FileOff;
    assert InSome(rs, p);
  }

  /** A region that begins inside a byte begins a run. */
  lemma BeginsRun(bitmap: seq<Byte>, msb: bool, start: nat, end: nat, fileoff: int, elemsz: int, rs: seq<Region>,
                  i: nat)
    requires 8 * |bitmap| >= end && Describe(bitmap, msb, start, end, fileoff, elemsz, rs, end)
    requires i < |rs| && rs[i].pfn % 8 != 0
    ensures rs[i].pfn == start || !Mapped(bitmap, msb, start, end, rs[i].pfn - 1)
  {
    var p := rs[i].pfn;
    assert Ordered(rs) && rs[i].cnt > 0;
    hide Describe, Mapped, Ordered, FileOff;
    InRegion(bitmap, msb, start, end, fileoff, elemsz, rs, i, p);
    if p != start && Mapped(bitmap, msb, start, end, p - 1) {
      var j := RegionOf(bitmap, msb, start, end, fileoff, elemsz, rs, p - 1);
      Adjacent(rs, j, i);
      EndsClean(bitmap, msb, start, end, fileoff, elemsz, rs, j);
    }
  }

  lemma Adjacent(rs: seq<Region>, j: nat, i: nat)
    requires Ordered(rs) && i < |rs| && j < |rs| && rs[i].pfn > 0 && rs[j].Holds(rs[i].pfn - 1)
    ensures rs[j].End() == rs[i].pfn
  {
  }

  lemma EndsClean(bitmap: seq<Byte>, msb: bool, start: nat, end: nat, fileoff: int, elemsz: int, rs: seq<Region>,
                  j: nat)
    requires 8 * |bitmap| >= end && Describe(bitmap, msb, start, end, fileoff, elemsz, rs, end) && j < |rs|
    ensures var e := rs[j].End(); e % 8 == 0 || e == end || !Mapped(bitmap, msb, start, end, e)
  {
    assert EndsRight(bitmap, msb, end, rs[j].pfn, rs[j].End()) by { hide FileOff, StopsEarly, Has, Count; }
    hide Describe, StopsEarly, Has, Count;
  }

  /** Touching regions come from a run that crosses a byte boundary. */
  lemma TouchingCrosses(bitmap: seq<Byte>, msb: bool, start: nat, end: nat, fileoff: int, elemsz: int,
                        rs: seq<Region>, i: nat)
    requires 8 * |bitmap| >= end && Describe(bitmap, msb, start, end, fileoff, elemsz, rs, end)
    requires i + 1 < |rs| && rs[i].End() == rs[i + 1].pfn
    ensures msb && Crosses(bitmap, msb, start, end, rs[i].pfn) && rs[i].End() == 8 * (rs[i].pfn / 8 + 1)
  {
    hide FileOff;
    var r := rs[i];
    InRegion(bitmap, msb, start, end, fileoff, elemsz, rs, i + 1, r.End());
    assert EndsRight(bitmap, msb, end, r.pfn, r.End());
    assert StopsEarly(bitmap, msb, r.pfn) && r.End() == 8 * (r.pfn / 8 + 1);
    forall k: nat | r.pfn <= k < r.End() ensures Mapped(bitmap, msb, start, end, k) {
      InRegion(bitmap, msb, start, end, fileoff, elemsz, rs, i, k);
    }
    BeginsRun(bitmap, msb, start, end, fileoff, elemsz, rs, i);
    hide Describe, EndsRight, StopsEarly, Mapped;
  }

  /** A run that crosses a byte boundary is cut there, with MSB 0 numbering. */
  lemma CrossingTouches(bitmap: seq<Byte>, start: nat, end: nat, fileoff: int, elemsz: int, rs: seq<Region>, q: nat)
    requires 8 * |bitmap| >= end && Describe(bitmap, true, start, end, fileoff, elemsz, rs, end)
    requires Crosses(bitmap, true, start, end, q)
    ensures !Maximal(rs)
  {
    var b := 8 * (q / 8 + 1);
    var i := CutAtByte(bitmap, start, end, fileoff, elemsz, rs, q);
    var j := RegionOf(bitmap, true, start, end, fileoff, elemsz, rs, b);
    assert Ordered(rs) by { hide FileOff, Count, Mapped, EndsRight, Ordered; }
    hide Describe, EndsRight, StopsEarly, Mapped, Crosses;
    assert i < j && rs[i + 1].pfn <= rs[j].pfn;
  }

  lemma CutAtByte(bitmap: seq<Byte>, start: nat, end: nat, fileoff: int, elemsz: int, rs: seq<Region>, q: nat)
    returns (i: nat)
    requires 8 * |bitmap| >= end && Describe(bitmap, true, start, end, fileoff, elemsz, rs, end)
    requires Crosses(bitmap, true, start, end, q)
    ensures i < |rs| && rs[i].pfn == q && rs[i].End() == 8 * (q / 8 + 1)
    ensures Mapped(bitmap, true, start, end, 8 * (q / 8 + 1))
  {
    hide FileOff;
    i := RegionOf(bitmap, true, start, end, fileoff, elemsz, rs, q);
    RunBegins(bitmap, true, start, end, fileoff, elemsz, rs, i, q);
    var b := 8 * (q / 8 + 1);
    assert Mapped(bitmap, true, start, end, b);
    assert StopsEarly(bitmap, true, q) by {
      forall k: nat | q <= k < b ensures Has(bitmap, true, k) { assert Mapped(bitmap, true, start, end, k); }
    }
    assert EndsRight(bitmap, true, end, rs[i].pfn, rs[i].End());
  }

  /** A run begins with a region. */
  lemma RunBegins(bitmap: seq<Byte>, msb: bool, start: nat, end: nat, fileoff: int, elemsz: int, rs: seq<Region>,
                  i: nat, q: nat)
    requires 8 * |bitmap| >= end && Describe(bitmap, msb, start, end, fileoff, elemsz, rs, end)
    requires Mapped(bitmap, msb, start, end, q) && (q == start || !Mapped(bitmap, msb, start, end, q - 1))
    requires i < |rs| && rs[i].Holds(q)
    ensures rs[i].pfn == q
  {
    hide FileOff;
    InRegion(bitmap, msb, start, end, fileoff, elemsz, rs, i, rs[i].pfn);
    InRegion(bitmap, msb, start, end, fileoff, elemsz, rs, i, if rs[i].pfn < q then q - 1 else q);
  }

  lemma NotMaximalAt(rs: seq<Region>) returns (i: nat)
    requires Ordered(rs) && !Maximal(rs)
    ensures 0 < i < |rs| && rs[i - 1].End() == rs[i].pfn
  {
    i :| 0 < i < |rs| && rs[i - 1].End() >= rs[i].pfn;
  }

  lemma DescribedOrdered(bitmap: seq<Byte>, msb: bool, start: nat, end: nat, fileoff: int, elemsz: int, rs: seq<Region>)
    requires 8 * |bitmap| >= end && Describe(bitmap, msb, start, end, fileoff, elemsz, rs, end)
    ensures Ordered(rs)
  {
    hide FileOff, Count, Mapped, EndsRight, Ordered;
  }

  /** With LSB 0 numbering the regions are the maximal runs of mapped pages; with MSB 0
      numbering exactly when no run that begins inside a byte goes on in the next one. */
  lemma MaximalIff(bitmap: seq<Byte>, msb: bool, start: nat, end: nat, fileoff: int, elemsz: int, rs: seq<Region>)
    requires 8 * |bitmap| >= end && Describe(bitmap, msb, start, end, fileoff, elemsz, rs, end)
    ensures Maximal(rs) <==> !msb || forall q: nat :: !Crosses(bitmap, msb, start, end, q)
  {
    hide Describe, Crosses, Mapped, Maximal, Ordered, FileOff, Has, Count, EndsRight;
    DescribedOrdered(bitmap, msb, start, end, fileoff, elemsz, rs);
    if !Maximal(rs) {
      var i := NotMaximalAt(rs);
      TouchingCrosses(bitmap, msb, start, end, fileoff, elemsz, rs, i - 1);
    } else if msb {
      forall q: nat | Crosses(bitmap, msb, start, end, q) ensures false {
        CrossingTouches(bitmap, start, end, fileoff, elemsz, rs, q);
      }
    }
  }

  /** Bits 7 to 15 of a bitmap of two bytes: with MSB 0 numbering they do not become one
      region. */
  lemma CutRun(fileoff: int, elemsz: int, rs: seq<Region>)
    requires Describe([1, 255], true, 0, 16, fileoff, elemsz, rs, 16)
    ensures forall p: nat :: p < 16 ==> (Mapped([1, 255], true, 0, 16, p) <==> p >= 7)
    ensures InCut([1, 255], true, 0, 16, 7) && !Maximal(rs)
  {
    var bitmap: seq<Byte> := [1, 255];
    forall p: nat | p < 16 ensures Has(bitmap, true, p) <==> p >= 7 {
      WholeByte(0, 255);
      assert Bit(1, 0);
      if p < 7 { BitSmall(1, 1, 7 - p); }
    }
    assert Crosses(bitmap, true, 0, 16, 7);
    CrossingTouches(bitmap, 0, 16, fileoff, elemsz, rs, 7);
  }

  // ---------------------------------------------------------------------------
  // Parts of bitmaps

  /** `memset` of bytes to zero */
  method ClearAll(bits: array<Byte>, low: nat, high: nat)
    requires low <= high <= bits.Length
    modifies bits
    ensures forall q: nat :: 8 * low <= q < 8 * high ==> !Has(bits[..], false, q)
    ensures forall k: nat :: k < bits.Length && !(low <= k < high) ==> bits[k] == old(bits[k])
  {
    forall k | low <= k < high {
      bits[k] := 0;
    }
    forall q: nat | 8 * low <= q < 8 * high ensures !Has(bits[..], false, q) { BitSmall(0, 0, q % 8); }
  }

  /** Region `i` holds `p` and is touched by the next one at `e`. */
  ghost predicate TouchesAt(rs: seq<Region>, i: int, p: nat, e: nat) {
    0 <= i < |rs| - 1 && rs[i].Holds(p) && rs[i].End() == e == rs[i + 1].pfn
  }

  /** Skipping in the part of the bitmap that matters is skipping in the bitmap. */
  lemma Shorter(bitmap: seq<Byte>, size: nat, msb: bool, want: bool, p: nat, r: nat)
    requires size <= |bitmap| && Skipped(bitmap[..size], msb, want, p, r)
    ensures forall q: nat :: p <= q < r && q < 8 * size ==> Has(bitmap, msb, q) != want
    ensures r < 8 * size && !(!want && StopsEarly(bitmap, msb, p)) ==> Has(bitmap, msb, r) == want
    ensures !want && StopsEarly(bitmap, msb, p) && p < 8 * size ==> r == 8 * (p / 8 + 1)
  {
    var b := bitmap[..size];
    forall q: nat | q < 8 * size ensures Has(b, msb, q) == Has(bitmap, msb, q) { }
    assert p < 8 * size ==> StopsEarly(b, msb, p) == StopsEarly(bitmap, msb, p);
    assert NoneBetween(b, msb, want, p, r);
  }

  // ---------------------------------------------------------------------------
  // The map

  datatype Status = Ok | System

  /** `struct pfn_file_map`, for one file */
  class FileMap {
    var regions: seq<Region>
    const bitmap: seq<Byte>
    const msb: bool
    const start: nat
    const end: nat
    const fileoff: int
    const elemsz: int

    ghost predicate Fits() { 8 * |bitmap| >= end }

    ghost predicate Valid()
      reads this
    {
      Fits() && Describe(bitmap, msb, start, end, fileoff, elemsz, regions, end)
    }

    ghost predicate In(p: nat)
      requires Fits()
    {
      Mapped(bitmap, msb, start, end, p)
    }

    /** An empty map; the bitmap must have a bit for every page. */
    constructor (bits: seq<Byte>, isMsb0: bool, startPfn: nat, endPfn: nat, fileOffset: int, elementSize: int)
      requires 8 * |bits| >= endPfn
      ensures regions == [] && bitmap == bits && msb == isMsb0 && start == startPfn && end == endPfn
      ensures fileoff == fileOffset && elemsz == elementSize
    {
      regions := [];
      bitmap, msb, start, end, fileoff, elemsz := bits, isMsb0, startPfn, endPfn, fileOffset, elementSize;
    }

    /** One turn of the loop in `pfn_regions_from_bitmap`: the next run of set bits. */
    method NextRun(pfn: nat, align: nat) returns (first: nat, next: nat)
      requires Fits() && start <= pfn < end
      ensures pfn <= first <= next <= end && pfn < next
      ensures forall p: nat :: pfn <= p < next ==> Mapped(bitmap, msb, start, end, p) == (p >= first)
      ensures next > first ==> EndsRight(bitmap, msb, end, first, next)
    {
      var size := (end + 7) / 8;
      first := Skip(bitmap[..size], msb, true, align, pfn);
      next := Skip(bitmap[..size], msb, false, align, first);
      Shorter(bitmap, size, msb, true, pfn, first);
      Shorter(bitmap, size, msb, false, first, next);
      if first > end {
        first := end;
      }
      if next > end {
        next := end;
      }
    }

    /** What holds when the bitmap has been read up to `pfn`. */
    ghost predicate UpTo(pfn: nat, pos: int)
      reads this
    {
      && Fits() && start <= pfn <= end && Describe(bitmap, msb, start, end, fileoff, elemsz, regions, pfn)
      && pos == FileOff(fileoff, elemsz, Count(bitmap, msb, start, end, pfn))
    }

    /** Add a region for the next run, if there is one. */
    method AddRun(pfn: nat, pos: int, align: nat) returns (status: Status, next: nat, nextPos: int)
      requires UpTo(pfn, pos) && pfn < end
      modifies this`regions
      ensures status == Ok ==> pfn < next && UpTo(next, nextPos)
    {
      hide FileOff, Describe, Mapped, Count, EndsRight;
      var first;
      first, next := NextRun(pfn, align);
      CountRun(bitmap, msb, start, end, pfn, first, false);
      CountRun(bitmap, msb, start, end, first, next, true);
      if next == first {
        NoMore(bitmap, msb, start, end, fileoff, elemsz, regions, pfn, next);
        return Ok, next, pos;
      }
      var memory: bool := *;
      if !memory {
        return System, next, pos;
      }
      OneMore(bitmap, msb, start, end, fileoff, elemsz, regions, pfn, Region(first, next - first, pos));
      Advance(fileoff, elemsz, Count(bitmap, msb, start, end, first), next - first);
      regions := regions + [Region(first, next - first, pos)];
      status, nextPos := Ok, pos + elemsz * (next - first);
    }

    /** `pfn_regions_from_bitmap` */
    method FromBitmap(align: nat) returns (status: Status)
      requires Fits() && regions == []
      modifies this`regions
      ensures status == Ok ==> Valid()
    {
      var pfn, pos := start, fileoff;
      status := Ok;
      Advance(fileoff, elemsz, 0, 0);
      CountRun(bitmap, msb, start, end, 0, start, false);
      if start >= end {
        return;
      }
      hide Describe, Count, FileOff;
      while pfn < end && status == Ok
        invariant status == Ok ==> UpTo(pfn, pos)
        decreases status == Ok, end - pfn
      {
        status, pfn, pos := AddRun(pfn, pos, align);
      }
    }

    // -------------------------------------------------------------------------
    // Queries

    /** `find_pfn_region`: the first region that does not end before `pfn`. */
    method FindRegion(pfn: nat) returns (idx: nat)
      requires Ordered(regions)
      ensures idx <= |regions|
      ensures forall i :: 0 <= i < idx ==> regions[i].End() <= pfn
      ensures idx < |regions| ==> regions[idx].End() > pfn
    {
      var left, right := 0, |regions|;
      while left != right
        invariant 0 <= left <= right <= |regions|
        invariant forall i :: 0 <= i < left ==> regions[i].End() <= pfn
        invariant forall i :: right <= i < |regions| ==> regions[i].pfn > pfn
        decreases right - left
      {
        var mid := (left + right) / 2;
        if pfn < regions[mid].pfn {
          right := mid;
        } else if pfn >= regions[mid].pfn + regions[mid].cnt {
          left := mid + 1;
        } else {
          return mid;
        }
      }
      idx := right;
    }

    /** A page is mapped if and only if it is in the region found for it. */
    lemma FoundRegion(pfn: nat, idx: nat, p: nat)
      requires Valid() && idx <= |regions| && pfn <= p
      requires forall i :: 0 <= i < idx ==> regions[i].End() <= pfn
      requires idx < |regions| ==> p < regions[idx].End()
      ensures In(p) <==> idx < |regions| && regions[idx].pfn <= p
    {
      if In(p) {
        var j := RegionOf(bitmap, msb, start, end, fileoff, elemsz, regions, p);
        assert j >= idx;
        assert Ordered(regions);
        hide Describe, Mapped, FileOff;
      } else if idx < |regions| && regions[idx].pfn <= p {
        InRegion(bitmap, msb, start, end, fileoff, elemsz, regions, idx, p);
      }
    }

    /** `find_mapped_pfn` */
    method FindMapped(pfn: nat) returns (found: bool, next: nat)
      requires Valid()
      ensures found ==> pfn <= next && In(next) && forall p: nat :: pfn <= p < next ==> !In(p)
      ensures !found ==> forall p: nat :: p >= pfn ==> !In(p)
    {
      if pfn >= end {
        return false, pfn;
      }
      var idx := FindRegion(pfn);
      if idx == |regions| {
        forall p: nat | p >= pfn ensures !In(p) { FoundRegion(pfn, idx, p); }
        return false, pfn;
      }
      next := if regions[idx].pfn > pfn then regions[idx].pfn else pfn;
      forall p: nat | pfn <= p <= next ensures In(p) <==> p == next { FoundRegion(pfn, idx, p); }
      found := true;
    }

    /** `find_unmapped_pfn`: all pages up to the result are mapped.  The result is not, unless `pfn`
        is in the first byte of a run that is cut there. */
    method FindUnmapped(pfn: nat) returns (next: nat)
      requires Valid()
      ensures pfn <= next && forall p: nat :: pfn <= p < next ==> In(p)
      ensures Maximal(regions) ==> !In(next)
      ensures In(next) <==> InCut(bitmap, msb, start, end, pfn)
      ensures InCut(bitmap, msb, start, end, pfn) ==> next == 8 * (pfn / 8 + 1)
      ensures In(next) <==> exists i :: TouchesAt(regions, i, pfn, next)
    {
      next := pfn;
      if pfn < end && start <= pfn {
        var idx := FindRegion(pfn);
        FoundRegion(pfn, idx, pfn);
        if idx < |regions| && regions[idx].pfn <= pfn {
          next := regions[idx].pfn + regions[idx].cnt;
          forall p: nat | pfn <= p < next ensures In(p) { FoundRegion(pfn, idx, p); }
          AfterRegion(idx);
        }
      }
      NotTwice(pfn, next);
      CutOrNot(pfn, next);
    }

    /** Behind a region there is an unmapped page, unless another region touches it. */
    lemma AfterRegion(i: nat)
      requires Valid() && i < |regions|
      ensures In(regions[i].End()) <==> i + 1 < |regions| && regions[i + 1].pfn == regions[i].End()
    {
      var e := regions[i].End();
      RegionsMapped();
      assert i + 1 < |regions| && regions[i + 1].pfn == e ==> regions[i + 1].Holds(e);
      if In(e) {
        var j := RegionOf(bitmap, msb, start, end, fileoff, elemsz, regions, e);
        assert Ordered(regions);
        hide Describe, Mapped, FileOff;
        assert j > i && regions[i].End() <= regions[i + 1].pfn;
      }
    }

    lemma RegionsMapped()
      requires Valid()
      ensures forall i, p: nat :: 0 <= i < |regions| && regions[i].Holds(p) ==> In(p)
      ensures Ordered(regions)
    {
      forall i, p: nat | 0 <= i < |regions| && regions[i].Holds(p) ensures In(p) {
        InRegion(bitmap, msb, start, end, fileoff, elemsz, regions, i, p);
      }
    }

    /** The region that holds `pfn` is touched by another one if `pfn` is in such a byte. */
    lemma CutOrNot(pfn: nat, next: nat)
      requires Valid() && (In(pfn) ==> next > pfn) && (!In(pfn) ==> next == pfn)
      requires In(pfn) ==> exists i :: 0 <= i < |regions| && regions[i].Holds(pfn) && regions[i].End() == next
      ensures In(next) <==> InCut(bitmap, msb, start, end, pfn)
      ensures InCut(bitmap, msb, start, end, pfn) ==> next == 8 * (pfn / 8 + 1)
    {
      hide Describe, EndsRight, StopsEarly, Ordered, FileOff, Has;
      if In(pfn) {
        var i :| 0 <= i < |regions| && regions[i].Holds(pfn) && regions[i].End() == next;
        AfterRegion(i);
        if In(next) { TouchingCrosses(bitmap, msb, start, end, fileoff, elemsz, regions, i); }
        if InCut(bitmap, msb, start, end, pfn) {
          var q: nat :| q <= pfn < 8 * (q / 8 + 1) && Crosses(bitmap, msb, start, end, q);
          var j := CutAtByte(bitmap, start, end, fileoff, elemsz, regions, q);
          OneRegion(i, j, pfn);
        }
      }
    }

    lemma OneRegion(i: nat, j: nat, pfn: nat)
      requires Valid() && i < |regions| && j < |regions| && regions[i].Holds(pfn) && regions[j].Holds(pfn)
      ensures i == j
    {
      RegionsMapped();
      hide Describe, Mapped, FileOff;
    }

    lemma NotTwice(pfn: nat, next: nat)
      requires Valid() && (In(pfn) ==> next > pfn) && (!In(pfn) ==> next == pfn)
      requires In(pfn) ==> exists i :: 0 <= i < |regions| && regions[i].Holds(pfn) && regions[i].End() == next
      ensures In(next) <==> exists i :: TouchesAt(regions, i, pfn, next)
    {
      if In(pfn) {
        var i :| 0 <= i < |regions| && regions[i].Holds(pfn) && regions[i].End() == next;
        AfterRegion(i);
        assert In(next) ==> TouchesAt(regions, i, pfn, next);
        forall j | TouchesAt(regions, j, pfn, next) ensures j == i { }
      } else {
        RegionsMapped();
      }
    }

    /** Bit `p - first` says whether page `p` is mapped, for all pages up to `last` but those
        from `cur` to `to`; the bits behind `last` are zero. */
    ghost predicate RightBut(bits: seq<Byte>, first: nat, last: nat, cur: int, to: int)
      requires Fits()
    {
      && first <= last && (last - first) / 8 < |bits|
      && (forall p: nat :: first <= p <= last && !(cur <= p <= to) ==> Has(bits, false, p - first) == In(p))
      && (forall q: nat :: last - first < q < 8 * ((last - first) / 8 + 1) ==> !Has(bits, false, q))
    }

    /** Number of bytes for the bits of the pages. */
    ghost function Bytes(first: nat, last: nat): nat
      requires first <= last
    {
      (last - first) / 8 + 1
    }

    ghost predicate OthersKept(before: seq<Byte>, after: seq<Byte>, size: nat) {
      |after| == |before| && forall k: nat :: size <= k < |before| ==> after[k] == before[k]
    }

    lemma Filled(before: seq<Byte>, after: seq<Byte>, first: nat, last: nat, cur: nat, to: nat, s: nat, x: nat,
                 value: bool)
      requires Fits() && RightBut(before, first, last, cur, to) && first <= cur <= s <= x <= to <= last
      requires Assigned(before, after, s - first, x - first, value)
      requires forall p: nat :: s <= p <= x ==> In(p) == value
      ensures s == cur ==> RightBut(after, first, last, x + 1, to)
      ensures x == to ==> RightBut(after, first, last, cur, s - 1)
    {
      forall p: nat | first <= p <= last && (!(cur <= p <= to) || s <= p <= x)
        ensures Has(after, false, p - first) == In(p)
      {
        assert Has(after, false, p - first) == if s <= p <= x then value else Has(before, false, p - first);
      }
      forall q: nat | last - first < q < 8 * ((last - first) / 8 + 1) ensures !Has(after, false, q) {
        assert Has(after, false, q) == Has(before, false, q);
      }
    }

    /** `set_bits` or `clear_bits` for the pages from `s` to `x` */
    method Fill(bits: array<Byte>, first: nat, last: nat, ghost cur: nat, ghost to: nat, s: nat, x: nat, value: bool)
      requires Fits() && RightBut(bits[..], first, last, cur, to) && first <= cur <= s <= x <= to <= last
      requires forall p: nat :: s <= p <= x ==> In(p) == value
      modifies bits
      ensures s == cur ==> RightBut(bits[..], first, last, x + 1, to)
      ensures x == to ==> RightBut(bits[..], first, last, cur, s - 1)
      ensures OthersKept(old(bits[..]), bits[..], Bytes(first, last))
    {
      ghost var before := bits[..];
      if value {
        SetBits(bits, s - first, x - first);
      } else {
        ClearBits(bits, s - first, x - first);
      }
      Filled(before, bits[..], first, last, cur, to, s, x, value);
    }

    /** All of an interval is in a gap, or in a region. */
    lemma Same(pfn: nat, idx: nat, s: nat, x: nat, value: bool)
      requires Valid() && idx < |regions| && pfn <= s <= x && x < regions[idx].End()
      requires forall i :: 0 <= i < idx ==> regions[i].End() <= pfn
      requires if value then regions[idx].pfn <= s else x < regions[idx].pfn
      ensures forall p: nat :: s <= p <= x ==> In(p) == value
    {
      forall p: nat | s <= p <= x ensures In(p) == value { FoundRegion(pfn, idx, p); }
    }

    /** The loop in `get_pfn_map_bits`, for pages up to `to`. */
    method FillRegions(first: nat, last: nat, to: nat, from: nat, bits: array<Byte>)
      requires Valid() && first <= to <= last && from < |regions| && RightBut(bits[..], first, last, first, to)
      requires forall i :: 0 <= i < from ==> regions[i].End() <= first
      requires regions[from].End() > first && to < regions[|regions| - 1].End()
      modifies bits
      ensures RightBut(bits[..], first, last, to + 1, to)
      ensures OthersKept(old(bits[..]), bits[..], Bytes(first, last))
    {
      var cur, idx, done := first, from, false;
      assert Ordered(regions);
      hide Describe, Mapped, FileOff, RightBut, OthersKept, Ordered;
      KeptSame(bits[..], Bytes(first, last));
      while !done
        invariant !done ==> first <= cur <= to && idx < |regions| && RightBut(bits[..], first, last, cur, to)
        invariant !done ==> (forall i :: 0 <= i < idx ==> regions[i].End() <= cur) && regions[idx].End() > cur
        invariant done ==> RightBut(bits[..], first, last, to + 1, to)
        invariant OthersKept(old(bits[..]), bits[..], Bytes(first, last))
        decreases |regions| - idx, !done
      {
        ghost var before := bits[..];
        done, cur := FillOne(first, last, to, cur, idx, bits);
        KeptTwice(old(bits[..]), before, bits[..], Bytes(first, last));
        if !done {
          idx := idx + 1;
        }
      }
    }

    lemma KeptSame(bits: seq<Byte>, size: nat)
      ensures OthersKept(bits, bits, size)
    {
    }

    lemma KeptTwice(a: seq<Byte>, b: seq<Byte>, c: seq<Byte>, size: nat)
      requires OthersKept(a, b, size) && OthersKept(b, c, size)
      ensures OthersKept(a, c, size)
    {
    }

    /** One turn of that loop: the gap before a region and the region. */
    method FillOne(first: nat, last: nat, to: nat, from: nat, idx: nat, bits: array<Byte>)
      returns (done: bool, cur: nat)
      requires Valid() && first <= from <= to <= last && idx < |regions| && RightBut(bits[..], first, last, from, to)
      requires (forall i :: 0 <= i < idx ==> regions[i].End() <= from) && regions[idx].End() > from
      modifies bits
      ensures done ==> RightBut(bits[..], first, last, to + 1, to)
      ensures !done ==> RightBut(bits[..], first, last, cur, to) && cur == regions[idx].End() <= to
      ensures OthersKept(old(bits[..]), bits[..], Bytes(first, last))
    {
      cur := from;
      assert regions[idx].cnt > 0;
      hide Describe, Mapped, FileOff, RightBut;
      var next := regions[idx].pfn;
      if cur < next {
        if next > to {
          Same(from, idx, cur, to, false);
          Fill(bits, first, last, cur, to, cur, to, false);
          return true, cur;
        }
        Same(from, idx, cur, next - 1, false);
        Fill(bits, first, last, cur, to, cur, next - 1, false);
        cur := next;
      }
      next := next + regions[idx].cnt - 1;
      if next >= to {
        Same(from, idx, cur, to, true);
        Fill(bits, first, last, cur, to, cur, to, true);
        return true, cur;
      }
      Same(from, idx, cur, next, true);
      Fill(bits, first, last, cur, to, cur, next, true);
      done, cur := false, next + 1;
    }

    /** No page from `p` on is mapped when all regions end before it. */
    lemma NoneFrom(p: nat)
      requires Valid() && forall i :: 0 <= i < |regions| ==> regions[i].End() <= p
      ensures forall q: nat :: q >= p ==> !In(q)
    {
      forall q: nat | q >= p ensures !In(q) { FoundRegion(p, |regions|, q); }
    }

    lemma RegionsEnd()
      requires Valid()
      ensures Ordered(regions) && forall i :: 0 <= i < |regions| ==> regions[i].End() <= end
    {
      hide FileOff, Count, Mapped, EndsRight;
    }

    /** No page is mapped, and all bits are clear. */
    lemma NoneRight(bits: seq<Byte>, first: nat, last: nat)
      requires Fits() && first <= last && (last - first) / 8 < |bits|
      requires forall q: nat :: q < 8 * ((last - first) / 8 + 1) ==> !Has(bits, false, q)
      requires forall q: nat :: q >= first ==> !In(q)
      ensures RightBut(bits, first, last, 1, 0)
    {
    }

    /** The bits behind `last` are clear. */
    lemma RestRight(bits: seq<Byte>, first: nat, last: nat)
      requires Fits() && first <= last && (last - first) / 8 < |bits|
      requires forall q: nat :: 8 * ((last - first) / 8) <= q < 8 * ((last - first) / 8 + 1) ==> !Has(bits, false, q)
      ensures RightBut(bits, first, last, first, last)
    {
    }

    /** The pages that no region can hold, and how far the regions go. */
    method FillTop(first: nat, last: nat, bits: array<Byte>) returns (to: nat)
      requires Valid() && regions != [] && first < regions[|regions| - 1].End()
               && RightBut(bits[..], first, last, first, last)
      modifies bits
      ensures first <= to <= last && to < regions[|regions| - 1].End() && RightBut(bits[..], first, last, first, to)
      ensures OthersKept(old(bits[..]), bits[..], Bytes(first, last))
    {
      var top := regions[|regions| - 1].pfn + regions[|regions| - 1].cnt;
      to := last;
      assert Ordered(regions) && first <= last;
      if top <= last {
        NoneFrom(top);
        hide Describe, RightBut, Mapped;
        Fill(bits, first, last, first, last, top, last, false);
        to := top - 1;
      }
    }

    /** Clear the bits of all pages, none of which is mapped. */
    method ClearPages(first: nat, last: nat, bits: array<Byte>)
      requires Fits() && first <= last && (last - first) / 8 < bits.Length
      requires forall q: nat :: q >= first ==> !In(q)
      modifies bits
      ensures RightBut(bits[..], first, last, 1, 0)
      ensures OthersKept(old(bits[..]), bits[..], Bytes(first, last))
    {
      ClearAll(bits, 0, (last - first) / 8 + 1);
      NoneRight(bits[..], first, last);
      hide RightBut, Mapped, Has;
    }

    /** Clear the last byte, where there may be bits behind those of the pages. */
    method ClearLast(first: nat, last: nat, bits: array<Byte>)
      requires Fits() && first <= last && (last - first) / 8 < bits.Length
      modifies bits
      ensures RightBut(bits[..], first, last, first, last)
      ensures OthersKept(old(bits[..]), bits[..], Bytes(first, last))
    {
      ClearAll(bits, (last - first) / 8, (last - first) / 8 + 1);
      RestRight(bits[..], first, last);
      hide RightBut, Mapped, Has;
    }

    /** `get_pfn_map_bits`: afterwards every page has its bit. */
    method GetBits(first: nat, last: nat, bits: array<Byte>)
      requires Valid() && first <= last && (last - first) / 8 < bits.Length
      modifies bits
      ensures RightBut(bits[..], first, last, 1, 0)
      ensures OthersKept(old(bits[..]), bits[..], Bytes(first, last))
    {
      RegionsEnd();
      hide Describe, RightBut, Mapped, Has, OthersKept;
      var idx := |regions|;
      if first < end {
        idx := FindRegion(first);
      }
      if idx == |regions| {
        NoneFrom(first);
        ClearPages(first, last, bits);
      } else {
        FillRest(first, last, idx, bits);
      }
    }

    lemma LastEnds(idx: nat, p: nat)
      requires Valid() && idx < |regions| && p < regions[idx].End()
      ensures p < regions[|regions| - 1].End()
    {
      RegionsEnd();
      assert idx < |regions| - 1 ==> regions[idx].End() <= regions[|regions| - 1].pfn && regions[|regions| - 1].cnt > 0;
    }

    method FillRest(first: nat, last: nat, idx: nat, bits: array<Byte>)
      requires Valid() && first <= last && (last - first) / 8 < bits.Length && idx < |regions|
      requires regions[idx].End() > first && forall i :: 0 <= i < idx ==> regions[i].End() <= first
      modifies bits
      ensures RightBut(bits[..], first, last, 1, 0)
      ensures OthersKept(old(bits[..]), bits[..], Bytes(first, last))
    {
      LastEnds(idx, first);
      hide Describe, RightBut, Mapped, Has, OthersKept, Ordered, Bytes;
      ghost var before, size := bits[..], Bytes(first, last);
      ClearLast(first, last, bits);
      ghost var cleared := bits[..];
      var to := FillTop(first, last, bits);
      KeptTwice(before, cleared, bits[..], size);
      ghost var topped := bits[..];
      FillRegions(first, last, to, idx, bits);
      KeptTwice(before, topped, bits[..], size);
      EmptyRest(bits[..], first, last, to);
    }

    lemma EmptyRest(bits: seq<Byte>, first: nat, last: nat, to: nat)
      requires Fits() && RightBut(bits, first, last, to + 1, to)
      ensures RightBut(bits, first, last, 1, 0)
    {
    }
  }
}
