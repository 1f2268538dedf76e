/** Raw bitmaps: single bits, and counting zeroes (`src/kdumpfile/bitmap.c` and the scans
    in `src/kdumpfile/pfn.c`). */
module Bitmap {
  import opened Bits

  type Byte = b: int | 0 <= b < 256

  /** Bit number `i` of `a`, the lowest one being number zero. */
  predicate Bit(a: nat, i: nat) {
    if i == 0 then Odd(a) else Bit(a / 2, i - 1)
  }

  lemma {:induction false} BitHigh(a: nat, k: nat, i: nat)
    ensures Bit(High(a, k), i) == Bit(a, k + i)
    decreases k
  {
    if k == 0 {
      assert Pow2(0) == 1;
    } else {
      HighHalf(a, k);
      BitHigh(a / 2, k - 1, i);
    }
  }

  lemma HighHalf(a: nat, k: nat)
    requires k > 0
    ensures High(a, k) == High(a / 2, k - 1)
  {
    ModMul(a, 2, Pow2(k - 1));
  }

  lemma {:induction false} BitSmall(a: nat, k: nat, i: nat)
    requires a < Pow2(k) && i >= k
    ensures !Bit(a, i)
    decreases i
  {
    if k > 0 {
      BitSmall(a / 2, k - 1, i - 1);
    } else if i > 0 {
      BitSmall(0, 0, i - 1);
    }
  }

  lemma {:induction false} BitLow(a: nat, k: nat, i: nat)
    ensures Bit(Low(a, k), i) == (i < k && Bit(a, i))
    decreases k
  {
    if k == 0 {
      BitSmall(0, 0, i);
    } else {
      ModHalf(a, Pow2(k - 1));
      assert Low(a, k) / 2 == Low(a / 2, k - 1) && Odd(Low(a, k)) == Odd(a);
      if i > 0 { BitLow(a / 2, k - 1, i - 1); }
    }
  }

  /** `b` put above the `k` bits of `a` */
  lemma {:induction false} BitConcat(a: nat, b: nat, k: nat, i: nat)
    requires a < Pow2(k)
    ensures Bit(a + Shl(b, k), i) == if i < k then Bit(a, i) else Bit(b, i - k)
    decreases k
  {
    if k == 0 {
      assert Shl(b, 0) == b;
    } else {
      var half := Pow2(k - 1) * b;
      assert Shl(b, k) == 2 * half by { Associate(2, Pow2(k - 1), b); }
      assert (a + 2 * half) / 2 == a / 2 + half;
      if i > 0 { BitConcat(a / 2, b, k - 1, i - 1); }
    }
  }

  lemma OrStep(a: nat, b: nat)
    ensures Or(a, b) / 2 == Or(a / 2, b / 2) && Odd(Or(a, b)) == (Odd(a) || Odd(b))
    ensures And(a, b) / 2 == And(a / 2, b / 2) && Odd(And(a, b)) == (Odd(a) && Odd(b))
  {
  }

  lemma {:induction false} OrBound(a: nat, b: nat, k: nat)
    requires a < Pow2(k) && b < Pow2(k)
    ensures Or(a, b) < Pow2(k)
    decreases k
  {
    if k == 0 {
    } else {
      OrBound(a / 2, b / 2, k - 1);
      OrStep(a, b);
    }
  }

  lemma {:induction false} BitOr(a: nat, b: nat, i: nat)
    ensures Bit(Or(a, b), i) == (Bit(a, i) || Bit(b, i))
    decreases i
  {
    OrStep(a, b);
    hide Or, And;
    if i > 0 { BitOr(a / 2, b / 2, i - 1); }
  }

  lemma {:induction false} BitAnd(a: nat, b: nat, i: nat)
    ensures Bit(And(a, b), i) == (Bit(a, i) && Bit(b, i))
    decreases i
  {
    OrStep(a, b);
    hide Or, And;
    if i > 0 { BitAnd(a / 2, b / 2, i - 1); }
  }

  /** `~a` in `k` bits */
  lemma {:induction false} BitNot(a: nat, k: nat, i: nat)
    requires a < Pow2(k) && i < k
    ensures Bit(Pow2(k) - 1 - a, i) == !Bit(a, i)
    decreases k
  {
    if i == 0 {
    } else {
      assert (Pow2(k) - 1 - a) / 2 == Pow2(k - 1) - 1 - a / 2;
      BitNot(a / 2, k - 1, i - 1);
    }
  }

  lemma {:induction false} BitMask(k: nat, i: nat)
    ensures Bit(Pow2(k) - 1, i) == (i < k)
    decreases k
  {
    if k == 0 {
      BitSmall(0, 0, i);
    } else if i > 0 {
      assert (Pow2(k) - 1) / 2 == Pow2(k - 1) - 1;
      BitMask(k - 1, i - 1);
    }
  }

  // ---------------------------------------------------------------------------
  // Counting zeroes

  /** `ctz` */
  function Ctz(a: nat): nat
    requires a > 0
  {
    if Odd(a) then 0 else 1 + Ctz(a / 2)
  }

  /** `clz` in `w` bits */
  function Clz(a: nat, w: nat): nat
    requires 0 < a < Pow2(w)
  {
    if a >= Pow2(w - 1) then 0 else 1 + Clz(a, w - 1)
  }

  /** Bit `i` of a number of `w` bits, counted from the top if `msb`. */
  predicate BitFrom(msb: bool, a: nat, w: nat, i: nat)
    requires i < w
  {
    Bit(a, if msb then w - 1 - i else i)
  }

  function Zeros(msb: bool, a: nat, w: nat): nat
    requires 0 < a < Pow2(w)
  {
    if msb then Clz(a, w) else Ctz(a)
  }

  lemma {:induction false} CtzIs(a: nat, w: nat)
    requires 0 < a < Pow2(w)
    ensures Ctz(a) < w && Bit(a, Ctz(a)) && forall i :: 0 <= i < Ctz(a) ==> !Bit(a, i)
    decreases w
  {
    if !Odd(a) {
      CtzIs(a / 2, w - 1);
    }
  }

  lemma {:induction false} ClzIs(a: nat, w: nat)
    requires 0 < a < Pow2(w)
    ensures Clz(a, w) < w && Bit(a, w - 1 - Clz(a, w)) && forall i :: w - 1 - Clz(a, w) < i < w ==> !Bit(a, i)
    decreases w
  {
    if a >= Pow2(w - 1) {
      TopIsSet(a, w);
    } else {
      ClzIs(a, w - 1);
      BitSmall(a, w - 1, w - 1);
    }
  }

  lemma {:induction false} TopIsSet(a: nat, w: nat)
    requires w > 0 && Pow2(w - 1) <= a < Pow2(w)
    ensures Bit(a, w - 1)
    decreases w
  {
    if w <= 1 {
    } else {
      TopIsSet(a / 2, w - 1);
    }
  }

  /** The number of zeroes is the place of the first one. */
  lemma ZerosIs(msb: bool, a: nat, w: nat)
    requires 0 < a < Pow2(w)
    ensures Zeros(msb, a, w) < w && BitFrom(msb, a, w, Zeros(msb, a, w))
    ensures forall i :: 0 <= i < Zeros(msb, a, w) ==> !BitFrom(msb, a, w, i)
  {
    if msb { ClzIs(a, w); } else { CtzIs(a, w); }
  }

  // ---------------------------------------------------------------------------
  // Bitmaps

  /** Bit number `p` of a bitmap, with LSB 0 or MSB 0 numbering in its bytes. */
  predicate Has(bitmap: seq<Byte>, msb: bool, p: nat)
    requires p / 8 < |bitmap|
  {
    BitFrom(msb, bitmap[p / 8], 8, p % 8)
  }

  /** `b | m` and `b & m` for bytes */
  function OrByte(b: Byte, m: Byte): Byte {
    assert Pow2(8) == 256;
    OrBound(b, m, 8); Or(b, m)
  }

  function AndByte(b: Byte, m: Byte): Byte { And(b, m) }

  function NotByte(m: Byte): Byte { 255 - m }

  /** `(1 << k) - 1` */
  function Mask(k: nat): Byte
    requires k <= 8
  {
    assert Pow2(8) == 256;
    Pow2Grows(k, 8); Pow2(k) - 1
  }

  lemma ByteBits(b: Byte, m: Byte, k: nat, i: nat)
    requires k <= 8 && i < 8
    ensures Bit(OrByte(b, m), i) == (Bit(b, i) || Bit(m, i))
    ensures Bit(AndByte(b, m), i) == (Bit(b, i) && Bit(m, i))
    ensures Bit(NotByte(m), i) == !Bit(m, i)
    ensures Bit(Mask(k), i) == (i < k)
  {
    BitOr(b, m, i);
    BitAnd(b, m, i);
    assert Pow2(8) == 256;
    BitNot(m, 8, i);
    BitMask(k, i);
  }

  /** Byte `b` with the bits from `low` to `high` set to `value`. */
  ghost predicate Changed(before: Byte, after: Byte, low: int, high: int, value: bool) {
    forall i: nat :: i < 8 ==> Bit(after, i) == if low <= i <= high then value else Bit(before, i)
  }

  lemma WholeByte(b: Byte, f: Byte)
    ensures f == 255 ==> Changed(b, f, 0, 7, true)
    ensures f == 0 ==> Changed(b, f, 0, 7, false)
  {
    var m := Pow2(8) - 1;
    assert m == 255;
    forall i: nat | i < 8 ensures f == 255 ==> Bit(f, i) ensures f == 0 ==> !Bit(f, i) {
      BitMask(8, i);
      BitSmall(0, 0, i);
      assert Bit(m, i);
    }
  }

  lemma SetInByte(b: Byte, s: nat, e: nat)
    requires s < 8 && e < 8
    ensures Changed(b, OrByte(b, NotByte(Mask(s))), s, 7, true)
    ensures Changed(b, OrByte(b, Mask(e + 1)), 0, e, true)
    ensures Changed(b, OrByte(b, AndByte(NotByte(Mask(s)), Mask(e + 1))), s, e, true)
  {
    hide OrByte, AndByte, NotByte, Mask, Bit;
    forall i: nat | i < 8
      ensures Bit(OrByte(b, NotByte(Mask(s))), i) == (i >= s || Bit(b, i))
      ensures Bit(OrByte(b, Mask(e + 1)), i) == (i <= e || Bit(b, i))
      ensures Bit(OrByte(b, AndByte(NotByte(Mask(s)), Mask(e + 1))), i) == (s <= i <= e || Bit(b, i))
    {
      ByteBits(b, NotByte(Mask(s)), 0, i);
      ByteBits(0, Mask(s), s, i);
      ByteBits(b, Mask(e + 1), e + 1, i);
      ByteBits(NotByte(Mask(s)), Mask(e + 1), 0, i);
      ByteBits(b, AndByte(NotByte(Mask(s)), Mask(e + 1)), 0, i);
    }
  }

  lemma ClearInByte(b: Byte, s: nat, e: nat)
    requires s < 8 && e < 8
    ensures Changed(b, AndByte(b, Mask(s)), s, 7, false)
    ensures Changed(b, AndByte(b, NotByte(Mask(e + 1))), 0, e, false)
    ensures Changed(b, AndByte(b, OrByte(Mask(s), NotByte(Mask(e + 1)))), s, e, false)
  {
    hide OrByte, AndByte, NotByte, Mask, Bit;
    forall i: nat | i < 8
      ensures Bit(AndByte(b, Mask(s)), i) == (i < s && Bit(b, i))
      ensures Bit(AndByte(b, NotByte(Mask(e + 1))), i) == (i > e && Bit(b, i))
      ensures Bit(AndByte(b, OrByte(Mask(s), NotByte(Mask(e + 1)))), i) == (!(s <= i <= e) && Bit(b, i))
    {
      ByteBits(b, Mask(s), s, i);
      ByteBits(0, Mask(e + 1), e + 1, i);
      ByteBits(b, NotByte(Mask(e + 1)), 0, i);
      ByteBits(Mask(s), NotByte(Mask(e + 1)), 0, i);
      ByteBits(b, OrByte(Mask(s), NotByte(Mask(e + 1))), 0, i);
    }
  }

  /** Of all the bits of a bitmap exactly those from `start` to `end` are now `value`. */
  ghost predicate Assigned(before: seq<Byte>, after: seq<Byte>, start: nat, end: nat, value: bool) {
    && |after| == |before|
    && forall p: nat :: p < 8 * |before| ==>
        Has(after, false, p) == if start <= p <= end then value else Has(before, false, p)
  }

  lemma AssignedByByte(before: seq<Byte>, after: seq<Byte>, start: nat, end: nat, value: bool)
    requires start <= end && end / 8 < |before| == |after|
    requires forall k: nat :: k < |before| && !(start / 8 <= k <= end / 8) ==> after[k] == before[k]
    requires forall k: nat :: start / 8 <= k <= end / 8 ==>
               Changed(before[k], after[k], if k == start / 8 then start % 8 else 0,
                       if k == end / 8 then end % 8 else 7, value)
    ensures Assigned(before, after, start, end, value)
  {
    forall p: nat | p < 8 * |before|
      ensures Has(after, false, p) == if start <= p <= end then value else Has(before, false, p)
    {
      var k := p / 8;
      if start / 8 <= k <= end / 8 {
        assert Changed(before[k], after[k], if k == start / 8 then start % 8 else 0,
                       if k == end / 8 then end % 8 else 7, value);
      }
    }
  }

  /** `set_bits` */
  method SetBits(buf: array<Byte>, start: nat, end: nat)
    requires start <= end && end / 8 < buf.Length
    modifies buf
    ensures Assigned(old(buf[..]), buf[..], start, end, true)
    ensures forall k: nat :: k < buf.Length && !(start / 8 <= k <= end / 8) ==> buf[k] == old(buf[k])
  {
    var startbyte, startmask := start / 8, Mask(start % 8);
    var endbyte, endmask := end / 8, Mask(end % 8 + 1);
    ghost var before := buf[..];
    forall k: nat | k < buf.Length { SetInByte(before[k], start % 8, end % 8); }
    forall k: nat | k < buf.Length { WholeByte(before[k], 255); }
    if startbyte < endbyte {
      buf[startbyte] := OrByte(buf[startbyte], NotByte(startmask));
      forall k | startbyte < k < endbyte {
        buf[k] := 255;
      }
      buf[endbyte] := OrByte(buf[endbyte], endmask);
    } else {
      buf[startbyte] := OrByte(buf[startbyte], AndByte(NotByte(startmask), endmask));
    }
    AssignedByByte(before, buf[..], start, end, true);
  }

  /** `clear_bits` */
  method ClearBits(buf: array<Byte>, start: nat, end: nat)
    requires start <= end && end / 8 < buf.Length
    modifies buf
    ensures Assigned(old(buf[..]), buf[..], start, end, false)
    ensures forall k: nat :: k < buf.Length && !(start / 8 <= k <= end / 8) ==> buf[k] == old(buf[k])
  {
    var startbyte, startmask := start / 8, Mask(start % 8);
    var endbyte, endmask := end / 8, Mask(end % 8 + 1);
    ghost var before := buf[..];
    forall k: nat | k < buf.Length { ClearInByte(before[k], start % 8, end % 8); }
    forall k: nat | k < buf.Length { WholeByte(before[k], 0); }
    if startbyte < endbyte {
      buf[startbyte] := AndByte(buf[startbyte], startmask);
      forall k | startbyte < k < endbyte {
        buf[k] := 0;
      }
      buf[endbyte] := AndByte(buf[endbyte], NotByte(endmask));
    } else {
      buf[startbyte] := AndByte(buf[startbyte], OrByte(startmask, NotByte(endmask)));
    }
    AssignedByByte(before, buf[..], start, end, false);
  }
}
