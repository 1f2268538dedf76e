/** Rearranging flattened dump files (`src/kdumpfile/flatmap.c`).

    A flattened file is a header and a list of segments, each with the position where
    its data belongs.  Reading through the map gives the same bytes as reading a file
    into which the segments were written one after the other. */
module FlatMap {
  import opened AddrMap
  import Bits
  import FC = FileCache

  type byte = FC.byte

  const HEADER_SIZE: nat := 4096
  const SEGMENT_HEADER_SIZE: nat := 16
  const END_FLAG: int := -1
  const OFF_SPAN: nat := 0x8000_0000_0000_0000

  datatype Status = Success | Corrupt | Busy | System

  /** `size` bytes for position `pos`, stored at `data` in the flattened file. */
  datatype Segment = Segment(pos: nat, size: nat, data: nat) {
    predicate Wf() { 0 < size < OFF_SPAN && pos < OFF_SPAN }

    ghost predicate Covers(q: nat) { pos <= q < pos + size }
  }

  predicate AllWf(segs: seq<Segment>) {
    forall i :: 0 <= i < |segs| ==> segs[i].Wf()
  }

  // ---------------------------------------------------------------------------
  // What a flattened file stands for

  /** A big-endian number. */
  function BigEndian(s: seq<byte>): nat {
    if s == [] then 0 else 256 * BigEndian(s[..|s| - 1]) + s[|s| - 1] as nat
  }

  /** `be64toh`, assigned to an `int64_t` */
  function Int64(s: seq<byte>): int {
    var n := BigEndian(s);
    if n >= OFF_SPAN then n - 2 * OFF_SPAN else n
  }

  function Offset(hdr: seq<byte>): int
    requires |hdr| == SEGMENT_HEADER_SIZE
  {
    Int64(hdr[..8])
  }

  function Size(hdr: seq<byte>): int
    requires |hdr| == SEGMENT_HEADER_SIZE
  {
    Int64(hdr[8..])
  }

  ghost function HeaderAt(file: seq<byte>, flatpos: nat): (hdr: seq<byte>)
    ensures |hdr| == SEGMENT_HEADER_SIZE
  {
    FC.Slice(file, flatpos, SEGMENT_HEADER_SIZE)
  }

  datatype Parsed = Segments(list: seq<Segment>) | Malformed

  /** The segments from `flatpos` on. */
  ghost function Parse(file: seq<byte>, flatpos: nat): (r: Parsed)
    ensures r.Segments? ==> AllWf(r.list)
    decreases if flatpos < |file| then |file| - flatpos else 0
  {
    var pos, size := Offset(HeaderAt(file, flatpos)), Size(HeaderAt(file, flatpos));
    if pos == END_FLAG then Segments([])
    else if pos < 0 || size <= 0 then Malformed
    else
      SizeBound(HeaderAt(file, flatpos));
      NothingBeyond(file, flatpos);
      match Parse(file, flatpos + SEGMENT_HEADER_SIZE + size)
      case Malformed => Malformed
      case Segments(list) => Segments([Segment(pos, size, flatpos + SEGMENT_HEADER_SIZE)] + list)
  }

  lemma {:induction false} BigEndianBound(s: seq<byte>)
    requires |s| <= 8
    ensures BigEndian(s) < Bits.Power256(|s|)
  {
    if s == [] {
    } else {
      BigEndianBound(s[..|s| - 1]);
    }
  }

  lemma SizeBound(hdr: seq<byte>)
    requires |hdr| == SEGMENT_HEADER_SIZE
    ensures Offset(hdr) < OFF_SPAN && Size(hdr) < OFF_SPAN
  {
    BigEndianBound(hdr[..8]);
    BigEndianBound(hdr[8..]);
    assert Bits.Power256(8) == 2 * OFF_SPAN;
  }

  /** The number is the one whose digits to base 256 the bytes are, the highest one first. */
  lemma {:induction false} BigEndianIs(s: seq<byte>, v: nat)
    requires v < Bits.Power256(|s|)
    requires forall i :: 0 <= i < |s| ==> s[i] as nat == v / Bits.Power256(|s| - 1 - i) % 256
    ensures BigEndian(s) == v
  {
    if s == [] {
    } else {
      var n := |s| - 1;
      Bits.Power256Step(v, n);
      assert Bits.Power256(0) == 1;
      forall i | 0 <= i < n ensures s[..n][i] as nat == v / 256 / Bits.Power256(n - 1 - i) % 256 {
        Bits.DigitAbove(v, n - 1 - i);
      }
      BigEndianIs(s[..n], v / 256);
    }
  }

  /** A number in a header, of 64 bits in two's complement. */
  lemma Int64Is(s: seq<byte>, v: int)
    requires |s| == 8 && 0 - OFF_SPAN <= v < OFF_SPAN
    requires forall i :: 0 <= i < 8 ==> s[i] as nat == (v % (2 * OFF_SPAN)) / Bits.Power256(7 - i) % 256
    ensures Int64(s) == v
  {
    assert Bits.Power256(8) == 2 * OFF_SPAN;
    BigEndianIs(s, v % (2 * OFF_SPAN));
  }

  /** Beyond the end of the file there are only zeroes, and no segment is empty. */
  lemma {:induction false} ZeroHeader(s: seq<byte>)
    requires forall i :: 0 <= i < |s| ==> s[i] == 0
    ensures BigEndian(s) == 0
  {
    if s == [] {
    } else {
      ZeroHeader(s[..|s| - 1]);
    }
  }

  lemma NothingBeyond(file: seq<byte>, flatpos: nat)
    ensures flatpos >= |file| ==> Size(HeaderAt(file, flatpos)) == 0
  {
    if flatpos >= |file| {
      var hdr := HeaderAt(file, flatpos);
      forall i | 8 <= i < |hdr| ensures hdr[i] == 0 {
        assert hdr[i] == FC.ByteAt(file, flatpos + i);
      }
      ZeroHeader(hdr[8..]);
    }
  }

  /** `pwrite`: a gap is filled with zeroes. */
  ghost function Write(out: seq<byte>, pos: nat, data: seq<byte>): seq<byte> {
    var padded := if |out| < pos + |data| then out + seq(pos + |data| - |out|, _ => 0) else out;
    padded[..pos] + data + padded[pos + |data|..]
  }

  /** The file that results from writing the segments in order. */
  ghost function Rearranged(file: seq<byte>, segs: seq<Segment>): seq<byte> {
    if segs == [] then []
    else var last := segs[|segs| - 1];
         Write(Rearranged(file, segs[..|segs| - 1]), last.pos, FC.Slice(file, last.data, last.size))
  }

  lemma WriteAt(out: seq<byte>, pos: nat, data: seq<byte>, q: nat)
    ensures FC.ByteAt(Write(out, pos, data), q)
         == if pos <= q < pos + |data| then data[q - pos] else FC.ByteAt(out, q)
  {
    var padded := if |out| < pos + |data| then out + seq(pos + |data| - |out|, _ => 0) else out;
    if q < |padded| && q >= |out| { assert padded[q] == 0; }
  }

  // ---------------------------------------------------------------------------
  // The map

  /** The map updates that `flatmap_file_init` makes. */
  ghost function Updates(segs: seq<Segment>): (us: seq<Update>)
    requires AllWf(segs)
    ensures |us| == |segs|
  {
    seq(|segs|, i requires 0 <= i < |segs| => Update(segs[i].pos, segs[i].size - 1, i))
  }

  lemma UpdatesPrefix(segs: seq<Segment>)
    requires segs != [] && AllWf(segs)
    ensures var n := |segs| - 1;
            && Updates(segs)[..n] == Updates(segs[..n])
            && Updates(segs)[n] == Update(segs[n].pos, segs[n].size - 1, n)
  {
  }

  /** Who wrote byte `q` last: reading it there is reading the rearranged file. */
  lemma {:induction false} RearrangedAt(file: seq<byte>, segs: seq<Segment>, q: nat)
    requires AllWf(segs)
    ensures var m := Painted(Updates(segs), q);
            && METH_NONE <= m < |segs|
            && (m >= 0 ==> segs[m].Covers(q) && q < ADDR_SPAN)
            && FC.ByteAt(Rearranged(file, segs), q)
               == if m == METH_NONE then 0 else FC.ByteAt(file, q + segs[m].data - segs[m].pos)
  {
    if segs == [] {
    } else {
      var n := |segs| - 1;
      var last := segs[n];
      UpdatesPrefix(segs);
      RearrangedAt(file, segs[..n], q);
      WriteAt(Rearranged(file, segs[..n]), last.pos, FC.Slice(file, last.data, last.size), q);
    }
  }

  /** The map and the offsets that belong to a list of segments. */
  ghost predicate Maps(segs: seq<Segment>, rs: seq<Range>, offs: seq<int>) {
    && AllWf(segs) && |offs| == |segs|
    && (forall i :: 0 <= i < |segs| ==> offs[i] == segs[i].data - segs[i].pos)
    && Run(Updates(segs), rs)
  }

  /** One more segment. */
  lemma MapsOneMore(segs: seq<Segment>, s: Segment, before: seq<Range>, after: seq<Range>, offs: seq<int>)
    requires Maps(segs, before, offs) && s.Wf()
    requires IsSet(before, Update(s.pos, s.size - 1, |segs|), after)
    ensures Maps(segs + [s], after, offs + [s.data - s.pos])
  {
    var us := Updates(segs + [s]);
    UpdatesPrefix(segs + [s]);
    assert (segs + [s])[..|segs|] == segs;
    var u := Update(s.pos, s.size - 1, |segs|);
    assert us == Updates(segs) + [u];
    RunOneMore(Updates(segs), u, before, after);
  }

  /** What the range at `i` says about the bytes it covers. */
  lemma RangeMeaning(file: seq<byte>, segs: seq<Segment>, rs: seq<Range>, offs: seq<int>, i: nat, q: nat)
    requires Maps(segs, rs, offs) && i < |rs| && Span(rs[..i]) <= q <= Span(rs[..i]) + rs[i].endoff
    ensures Span(rs[..i + 1]) == Span(rs[..i]) + rs[i].endoff + 1 <= ADDR_SPAN
    ensures METH_NONE <= rs[i].meth < |segs| && rs[i].meth == Painted(Updates(segs), q)
    ensures rs[i].meth != METH_NONE ==> q + offs[rs[i].meth] >= 0
    ensures FC.ByteAt(Rearranged(file, segs), q)
         == if rs[i].meth == METH_NONE then 0 else FC.ByteAt(file, q + offs[rs[i].meth])
  {
    SpanPrefixStep(rs, i);
    SearchAt(rs, i, q);
    RunMeaning(Updates(segs), rs);
    var addr: Addr := q;
    assert Search(rs, addr) == Painted(Updates(segs), addr);
    RearrangedAt(file, segs, q);
  }

  /** A part of a range is a slice of the file it comes from, or all zeroes. */
  lemma RangeSlice(file: seq<byte>, segs: seq<Segment>, rs: seq<Range>, offs: seq<int>, i: nat, pos: nat, len: nat)
    requires Maps(segs, rs, offs) && i < |rs| && len > 0
    requires Span(rs[..i]) <= pos && pos + len <= Span(rs[..i]) + rs[i].endoff + 1
    ensures METH_NONE <= rs[i].meth < |segs|
    ensures rs[i].meth == METH_NONE ==> FC.Slice(Rearranged(file, segs), pos, len) == seq(len, _ => 0)
    ensures rs[i].meth != METH_NONE ==> pos + offs[rs[i].meth] >= 0
    ensures rs[i].meth != METH_NONE ==>
              FC.Slice(Rearranged(file, segs), pos, len) == FC.Slice(file, pos + offs[rs[i].meth], len)
  {
    RangeMeaning(file, segs, rs, offs, i, pos);
    var out := FC.Slice(Rearranged(file, segs), pos, len);
    forall j | 0 <= j < len
      ensures out[j] == if rs[i].meth == METH_NONE then 0 else FC.ByteAt(file, pos + j + offs[rs[i].meth])
    {
      RangeMeaning(file, segs, rs, offs, i, pos + j);
    }
  }

  /** Nothing was written where no range is. */
  lemma BeyondRanges(file: seq<byte>, segs: seq<Segment>, rs: seq<Range>, offs: seq<int>, pos: nat, len: nat)
    requires Maps(segs, rs, offs) && Span(rs) <= pos
    ensures FC.Slice(Rearranged(file, segs), pos, len) == seq(len, _ => 0)
  {
    RunMeaning(Updates(segs), rs);
    var out := FC.Slice(Rearranged(file, segs), pos, len);
    forall j | 0 <= j < len ensures out[j] == 0 {
      RearrangedAt(file, segs, pos + j);
    }
  }

  ghost function Prepend(segs: seq<Segment>, rest: Parsed): Parsed {
    match rest
    case Malformed => Malformed
    case Segments(list) => Segments(segs + list)
  }

  lemma ParseStep(file: seq<byte>, flatpos: nat, segs: seq<Segment>)
    requires Offset(HeaderAt(file, flatpos)) >= 0 && Size(HeaderAt(file, flatpos)) > 0
    ensures var hdr := HeaderAt(file, flatpos);
            var s := Segment(Offset(hdr), Size(hdr), flatpos + SEGMENT_HEADER_SIZE);
            && s.Wf() && flatpos < |file|
            && Prepend(segs, Parse(file, flatpos))
            == Prepend(segs + [s], Parse(file, flatpos + SEGMENT_HEADER_SIZE + s.size))
  {
    SizeBound(HeaderAt(file, flatpos));
    NothingBeyond(file, flatpos);
    var s := Segment(Offset(HeaderAt(file, flatpos)), Size(HeaderAt(file, flatpos)), flatpos + SEGMENT_HEADER_SIZE);
    var rest := Parse(file, flatpos + SEGMENT_HEADER_SIZE + s.size);
    if rest.Segments? {
      assert segs + ([s] + rest.list) == segs + [s] + rest.list;
    }
  }

  /** What became of the header at `flatpos`: it ended the list, it added a segment, or it was
      malformed. */
  ghost predicate HeaderDone(file: seq<byte>, flatpos: nat, before: seq<Segment>, now: seq<Segment>,
                             status: Status, next: nat)
  {
    match status
    case Success =>
      if next == flatpos then now == before && Parse(file, flatpos) == Segments([])
      else
        && flatpos < next && flatpos < |file|
        && Prepend(before, Parse(file, flatpos)) == Prepend(now, Parse(file, next))
    case Corrupt => Parse(file, flatpos) == Malformed
    case _ => true
  }

  lemma HeaderSays(file: seq<byte>, flatpos: nat, segs: seq<Segment>)
    ensures var pos, size := Offset(HeaderAt(file, flatpos)), Size(HeaderAt(file, flatpos));
      if pos == END_FLAG then HeaderDone(file, flatpos, segs, segs, Success, flatpos)
      else if pos < 0 || size <= 0 then HeaderDone(file, flatpos, segs, segs, Corrupt, flatpos)
      else
        var s, next := Segment(pos, size, flatpos + SEGMENT_HEADER_SIZE), flatpos + SEGMENT_HEADER_SIZE + size;
        s.Wf() && HeaderDone(file, flatpos, segs, segs + [s], Success, next)
  {
    hide HeaderAt, Offset, Size;
    var pos, size := Offset(HeaderAt(file, flatpos)), Size(HeaderAt(file, flatpos));
    if pos >= 0 && size > 0 { ParseStep(file, flatpos, segs); }
  }

  lemma NothingSaid(file: seq<byte>, flatpos: nat, before: seq<Segment>, now: seq<Segment>, status: Status, next: nat)
    ensures status == Busy || status == System ==> HeaderDone(file, flatpos, before, now, status, next)
  {
  }

  // ---------------------------------------------------------------------------
  // Chunks

  /** How a chunk is fetched: right from the flattened file, through `Pread` into a
      buffer, or with a file offset that is read from outside the offset array. */
  datatype Plan = Direct(flatpos: nat) | Copied | Undefined

  /** No segment wrote the first byte of the chunk, nor any other. */
  ghost predicate Hole(segs: seq<Segment>, pos: nat, len: nat) {
    forall q :: pos <= q < pos + (if len == 0 then 1 else len) ==> Unwritten(segs, q)
  }

  const ZERO_BYTES: seq<byte> := [0, 0, 0, 0, 0, 0, 0, 0]
  const ALL_ONES: seq<byte> := [255, 255, 255, 255, 255, 255, 255, 255]
  const OFFSET_4096: seq<byte> := [0, 0, 0, 0, 0, 0, 16, 0]
  const SIZE_16: seq<byte> := [0, 0, 0, 0, 0, 0, 0, 16]

  /** A flattened file with one segment, whose data belongs at 4096. */
  ghost function OneSegment(header: seq<byte>, data: seq<byte>): seq<byte> {
    header + OFFSET_4096 + SIZE_16 + data + ALL_ONES + ALL_ONES
  }

  /** The first eight bytes of its rearranged file are zero, but they are such a hole. */
  lemma HoleExample(header: seq<byte>, data: seq<byte>)
    requires |header| == HEADER_SIZE && |data| == 16
    ensures var file, segs := OneSegment(header, data), [Segment(4096, 16, 4112)];
      && Parse(file, HEADER_SIZE) == Segments(segs)
      && Hole(segs, 0, 8) && FC.Slice(Rearranged(file, segs), 0, 8) == ZERO_BYTES
  {
    ParsesOne(header, data);
    ZeroesBefore(OneSegment(header, data));
  }

  lemma ZeroesBefore(file: seq<byte>)
    ensures FC.Slice(Rearranged(file, [Segment(4096, 16, 4112)]), 0, 8) == ZERO_BYTES
  {
    var segs := [Segment(4096, 16, 4112)];
    assert segs[..0] == [];
    var s := FC.Slice(Rearranged(file, segs), 0, 8);
    forall q | 0 <= q < 8 ensures s[q] == 0 {
      assert s[q] == FC.ByteAt(Rearranged(file, segs), q);
      WriteAt([], 4096, FC.Slice(file, 4112, 16), q);
    }
  }

  lemma ParsesOne(header: seq<byte>, data: seq<byte>)
    requires |header| == HEADER_SIZE && |data| == 16
    ensures Parse(OneSegment(header, data), HEADER_SIZE) == Segments([Segment(4096, 16, 4112)])
  {
    var file := OneSegment(header, data);
    Numbers();
    HeaderParts(file, 4096, OFFSET_4096, SIZE_16);
    HeaderParts(file, 4128, ALL_ONES, ALL_ONES);
    hide HeaderAt, Int64, OneSegment;
    assert Parse(file, 4128) == Segments([]);
  }

  lemma HeaderParts(file: seq<byte>, flatpos: nat, offset: seq<byte>, size: seq<byte>)
    requires |offset| == |size| == 8 && flatpos + 16 <= |file|
    requires file[flatpos..flatpos + 8] == offset && file[flatpos + 8..flatpos + 16] == size
    ensures Offset(HeaderAt(file, flatpos)) == Int64(offset) && Size(HeaderAt(file, flatpos)) == Int64(size)
  {
    var hdr := HeaderAt(file, flatpos);
    forall i | 0 <= i < 16 ensures hdr[i] == file[flatpos + i] {
      assert hdr[i] == FC.ByteAt(file, flatpos + i);
    }
    assert hdr[..8] == offset && hdr[8..] == size;
  }

  lemma Numbers()
    ensures Int64(OFFSET_4096) == 4096 && Int64(SIZE_16) == 16 && Int64(ALL_ONES) == END_FLAG
  {
    Digits(OFFSET_4096);
    Digits(SIZE_16);
    Digits(ALL_ONES);
  }

  lemma Digits(s: seq<byte>)
    requires |s| == 8
    ensures BigEndian(s) == (((((((s[0] as nat * 256 + s[1] as nat) * 256 + s[2] as nat) * 256 + s[3] as nat) * 256
                             + s[4] as nat) * 256 + s[5] as nat) * 256 + s[6] as nat) * 256 + s[7] as nat)
  {
    hide BigEndian;
    EmptyNumber(s);
    Digit(s, 8);
    Digit(s, 7);
    Digit(s, 6);
    Digit(s, 5);
    Digit(s, 4);
    Digit(s, 3);
    Digit(s, 2);
    Digit(s, 1);
    assert s[..8] == s;
  }

  lemma EmptyNumber(s: seq<byte>)
    ensures BigEndian(s[..0]) == 0
  {
    assert s[..0] == [];
  }

  lemma Digit(s: seq<byte>, n: nat)
    requires 0 < n <= |s|
    ensures BigEndian(s[..n]) == 256 * BigEndian(s[..n - 1]) + s[n - 1] as nat
  {
    assert s[..n][..n - 1] == s[..n - 1];
  }

  ghost predicate Unwritten(segs: seq<Segment>, q: nat) {
    forall i :: 0 <= i < |segs| ==> !segs[i].Covers(q)
  }

  lemma {:induction false} PaintedNone(segs: seq<Segment>, q: nat)
    requires AllWf(segs)
    ensures Painted(Updates(segs), q) == METH_NONE <==> Unwritten(segs, q)
  {
    if segs == [] {
    } else {
      UpdatesPrefix(segs);
      var n := |segs| - 1;
      PaintedNone(segs[..n], q);
      assert Unwritten(segs, q) <==> Unwritten(segs[..n], q) && !segs[n].Covers(q);
    }
  }

  lemma HoleIfEmpty(segs: seq<Segment>, rs: seq<Range>, offs: seq<int>, pos: nat, len: nat)
    requires Maps(segs, rs, offs) && rs == []
    ensures segs == [] && Hole(segs, pos, len)
  {
    RunMeaning(Updates(segs), rs);
  }

  /** The chunk is a hole exactly when all of it lies in a range without a method. */
  lemma PlanHole(segs: seq<Segment>, rs: seq<Range>, offs: seq<int>, i: nat, off: nat, pos: nat, len: nat)
    requires Maps(segs, rs, offs) && i < |rs| && pos == Span(rs[..i]) + off && off <= rs[i].endoff
    ensures segs != []
    ensures Hole(segs, pos, len) && pos + len <= ADDR_SPAN <==> rs[i].meth == METH_NONE && len <= rs[i].endoff + 1 - off
  {
    RangeMeaning([], segs, rs, offs, i, pos);
    PaintedNone(segs, pos);
    var next := Span(rs[..i + 1]);
    if rs[i].meth == METH_NONE {
      forall q | pos <= q < next ensures Unwritten(segs, q) {
        RangeMeaning([], segs, rs, offs, i, q);
        PaintedNone(segs, q);
      }
      if len > rs[i].endoff + 1 - off {
        NextRange(segs, rs, offs, i);
        assert next < ADDR_SPAN ==> !Unwritten(segs, next);
      }
    }
    RunMeaning(Updates(segs), rs);
  }

  /** A chunk inside a range is a slice of the flattened file. */
  lemma DirectSlices(segs: seq<Segment>, rs: seq<Range>, offs: seq<int>, i: nat, off: nat, pos: nat, len: nat)
    requires Maps(segs, rs, offs) && i < |rs| && pos == Span(rs[..i]) + off && off <= rs[i].endoff
    requires len <= rs[i].endoff + 1 - off && rs[i].meth != METH_NONE
    ensures 0 <= rs[i].meth < |offs| && pos + offs[rs[i].meth] >= 0
    ensures forall file :: FC.Slice(file, pos + offs[rs[i].meth], len) == FC.Slice(Rearranged(file, segs), pos, len)
  {
    RangeMeaning([], segs, rs, offs, i, pos);
    forall file ensures FC.Slice(file, pos + offs[rs[i].meth], len) == FC.Slice(Rearranged(file, segs), pos, len) {
      if len > 0 {
        RangeSlice(file, segs, rs, offs, i, pos, len);
      } else {
        assert FC.Slice(file, pos + offs[rs[i].meth], len) == [];
      }
    }
  }

  /** Behind a range without a method there is one with a method, or no more addresses. */
  lemma NextRange(segs: seq<Segment>, rs: seq<Range>, offs: seq<int>, i: nat)
    requires Maps(segs, rs, offs) && i < |rs| && rs[i].meth == METH_NONE
    ensures Span(rs[..i + 1]) < ADDR_SPAN ==> !Unwritten(segs, Span(rs[..i + 1]))
  {
    RunMeaning(Updates(segs), rs);
    var next := Span(rs[..i + 1]);
    assert rs[..|rs|] == rs;
    if next < ADDR_SPAN {
      SpanPrefixStep(rs, i + 1);
      RangeMeaning([], segs, rs, offs, i + 1, next);
      PaintedNone(segs, next);
    }
  }

  // ---------------------------------------------------------------------------
  // The map of one file

  function FromCache(status: FC.Status): Status {
    match status
    case Ok => Success
    case Busy => Busy
    case System => System
  }

  /** `struct flattened_file_map` */
  class FlatFile {
    var layout: Map
    var offs: seq<int>
    ghost var segs: seq<Segment>

    ghost predicate Valid()
      reads this, layout, layout.ranges
    {
      layout.Valid() && Maps(segs, layout.Ranges(), offs)
    }

    constructor ()
      ensures Valid() && segs == [] && fresh(layout) && fresh(layout.ranges)
    {
      layout := new Map();
      offs := [];
      segs := [];
    }

    /** Read the segment header at `flatpos`. */
    method ReadHeader(fc: FC.FileCache, fidx: nat, flatpos: nat) returns (status: Status, pos: int, size: int)
      requires fc.Valid() && fidx < |fc.files|
      modifies fc.fbcache, fc.fbcache.next, fc.fbcache.prev, fc.fbcache.ce, fc.data
      ensures fc.Valid() && status != Corrupt
      ensures status == Success ==> pos == Offset(HeaderAt(fc.files[fidx], flatpos))
      ensures status == Success ==> size == Size(HeaderAt(fc.files[fidx], flatpos))
    {
      var hdr := new byte[SEGMENT_HEADER_SIZE];
      var ret := fc.Pread(hdr, 0, SEGMENT_HEADER_SIZE, fidx, flatpos);
      assert hdr[..] == hdr[0..0 + SEGMENT_HEADER_SIZE];
      status, pos, size := FromCache(ret), Offset(hdr[..]), Size(hdr[..]);
    }

    /** One turn of the loop in `flatmap_file_init`: where the next header is, unless this one
        ends the list. */
    method InitSegment(fc: FC.FileCache, fidx: nat, flatpos: nat) returns (status: Status, next: nat)
      requires fc.Valid() && fidx < |fc.files| && Valid()
      modifies this, layout, layout.ranges
      modifies fc.fbcache, fc.fbcache.next, fc.fbcache.prev, fc.fbcache.ce, fc.data
      ensures fc.Valid() && Valid() && layout == old(layout)
              && (layout.ranges == old(layout.ranges) || fresh(layout.ranges))
      ensures HeaderDone(fc.files[fidx], flatpos, old(segs), segs, status, next)
    {
      hide FC.FileCache.Valid, Parse, HeaderAt, Maps, AddrMap.Map.Valid, Prepend, Offset, Size, HeaderDone;
      var pos, size;
      status, pos, size := ReadHeader(fc, fidx, flatpos);
      next := flatpos;
      HeaderSays(fc.files[fidx], flatpos, segs);
      if status == Success && pos != END_FLAG {
        if pos < 0 || size <= 0 {
          status := Corrupt;
        } else {
          status := AddSegment(pos, size, flatpos + SEGMENT_HEADER_SIZE);
          next := flatpos + SEGMENT_HEADER_SIZE + size;
        }
      }
      NothingSaid(fc.files[fidx], flatpos, old(segs), segs, status, next);
    }

    /** `flatmap_file_init`.  That it succeeds means that the file is well-formed, and
        that it calls the file corrupt that it is not. */
    method Init(fc: FC.FileCache, fidx: nat) returns (status: Status)
      requires fc.Valid() && fidx < |fc.files| && Valid() && segs == []
      modifies this, layout, layout.ranges
      modifies fc.fbcache, fc.fbcache.next, fc.fbcache.prev, fc.fbcache.ce, fc.data
      ensures fc.Valid() && Valid()
      ensures layout == old(layout) && (layout.ranges == old(layout.ranges) || fresh(layout.ranges))
      ensures status == Success ==> Parse(fc.files[fidx], HEADER_SIZE) == Segments(segs)
      ensures status == Corrupt ==> Parse(fc.files[fidx], HEADER_SIZE) == Malformed
    {
      ghost var file := fc.files[fidx];
      var flatpos := HEADER_SIZE;
      hide FC.FileCache.Valid, Parse, Valid;
      while true
        invariant fc.Valid() && Valid()
        invariant layout == old(layout) && (layout.ranges == old(layout.ranges) || fresh(layout.ranges))
        invariant Parse(file, HEADER_SIZE) == Prepend(segs, Parse(file, flatpos))
        decreases if flatpos < |file| then |file| - flatpos else 0
      {
        var next;
        status, next := InitSegment(fc, fidx, flatpos);
        if status != Success || next == flatpos {
          return;
        }
        flatpos := next;
      }
    }

    /** Map one more segment, unless memory runs out. */
    method AddSegment(pos: nat, size: nat, data: nat) returns (status: Status)
      requires Valid() && Segment(pos, size, data).Wf()
      modifies this, layout, layout.ranges
      ensures Valid() && layout == old(layout) && (layout.ranges == old(layout.ranges) || fresh(layout.ranges))
      ensures status == Success || status == System
      ensures status == Success ==> segs == old(segs) + [Segment(pos, size, data)]
    {
      ghost var before := layout.Ranges();
      var memory: bool := *;
      var result := layout.Set(pos, Range(size - 1, |offs|), memory);
      status := System;
      if result == AddrMap.Ok {
        MapsOneMore(segs, Segment(pos, size, data), before, layout.Ranges(), offs);
        offs := offs + [data - pos];
        segs := segs + [Segment(pos, size, data)];
        status := Success;
      }
    }

    /** The range that holds `pos`, and the offset into it; `i` is past the end when
        there are no ranges. */
    method Locate(pos: nat) returns (i: nat, off: nat)
      requires Valid() && pos < ADDR_SPAN
      ensures i <= layout.n && (i == layout.n <==> layout.n == 0)
      ensures i < layout.n ==> off <= layout.ranges[i].endoff && pos == Span(layout.Ranges()[..i]) + off
    {
      ghost var rs := layout.Ranges();
      i, off := 0, pos;
      while i < layout.n && off > layout.ranges[i].endoff
        invariant i <= layout.n && pos == Span(rs[..i]) + off
      {
        SpanPrefixStep(rs, i);
        off := off - (layout.ranges[i].endoff + 1);
        i := i + 1;
      }
      assert rs[..layout.n] == rs;
    }

    /** The part of a read that lies in range `i`. */
    method ReadRange(fc: FC.FileCache, buf: array<byte>, at: nat, len: nat, fidx: nat, pos: nat, i: nat)
      returns (status: Status)
      requires fc.Valid() && fidx < |fc.files| && Valid() && i < layout.n && len > 0 && at + len <= buf.Length
      requires Span(layout.Ranges()[..i]) <= pos
      requires pos + len <= Span(layout.Ranges()[..i]) + layout.ranges[i].endoff + 1
      modifies fc.fbcache, fc.fbcache.next, fc.fbcache.prev, fc.fbcache.ce, fc.data, buf
      ensures fc.Valid() && status != Corrupt
      ensures status == Success ==> buf[at..at + len] == FC.Slice(Rearranged(fc.files[fidx], segs), pos, len)
      ensures forall j :: 0 <= j < buf.Length && !(at <= j < at + len) ==> buf[j] == old(buf[j])
    {
      hide FC.FileCache.Valid, Rearranged, FC.Slice, Span, AddrMap.Canonical;
      RangeSlice(fc.files[fidx], segs, layout.Ranges(), offs, i, pos, len);
      var meth := layout.ranges[i].meth;
      if meth != METH_NONE {
        var ret := fc.Pread(buf, at, len, fidx, pos + offs[meth]);
        status := FromCache(ret);
      } else {
        FC.FileCache.CopyPart(buf, at, seq(len, _ => 0));
        status := Success;
      }
    }

    /** Read on, behind the `done` bytes that are in the buffer already. */
    method Append(fc: FC.FileCache, buf: array<byte>, at: nat, done: nat, len: nat, fidx: nat, pos: nat, i: nat)
      returns (status: Status)
      requires fc.Valid() && fidx < |fc.files| && Valid() && i < layout.n && len > 0 && at + done + len <= buf.Length
      requires Span(layout.Ranges()[..i]) <= pos + done
      requires pos + done + len <= Span(layout.Ranges()[..i]) + layout.ranges[i].endoff + 1
      requires buf[at..at + done] == FC.Slice(Rearranged(fc.files[fidx], segs), pos, done)
      modifies fc.fbcache, fc.fbcache.next, fc.fbcache.prev, fc.fbcache.ce, fc.data, buf
      ensures fc.Valid() && status != Corrupt
      ensures status == Success ==>
              buf[at..at + done + len] == FC.Slice(Rearranged(fc.files[fidx], segs), pos, done + len)
      ensures forall j :: 0 <= j < buf.Length && !(at <= j < at + done + len) ==> buf[j] == old(buf[j])
    {
      hide FC.FileCache.Valid, Valid, Rearranged, Span;
      ghost var head := buf[at..at + done];
      status := ReadRange(fc, buf, at + done, len, fidx, pos + done, i);
      FC.SliceJoin(Rearranged(fc.files[fidx], segs), pos, done, len);
      assert buf[at..at + done] == head;
      assert buf[at..at + done + len] == buf[at..at + done] + buf[at + done..at + done + len];
    }

    /** Only the `n` bytes from `at` on differ. */
    static ghost predicate Outside(now: seq<byte>, before: seq<byte>, at: nat, n: nat) {
      |now| == |before| && forall j :: 0 <= j < |now| && !(at <= j < at + n) ==> now[j] == before[j]
    }

    /** The zeroes behind the last range. */
    method AppendZeroes(buf: array<byte>, at: nat, done: nat, len: nat, ghost file: seq<byte>, pos: nat,
                        ghost before: seq<byte>)
      requires Valid() && Span(layout.Ranges()) <= pos + done && at + done + len <= buf.Length
      requires buf[at..at + done] == FC.Slice(Rearranged(file, segs), pos, done)
      requires Outside(buf[..], before, at, done)
      modifies buf
      ensures buf[at..at + done + len] == FC.Slice(Rearranged(file, segs), pos, done + len)
      ensures Outside(buf[..], before, at, done + len)
    {
      ghost var was := buf[..];
      BeyondRanges(file, segs, layout.Ranges(), offs, pos + done, len);
      hide Valid, Rearranged, Span, FC.Slice, Outside;
      FC.FileCache.CopyPart(buf, at + done, seq(len, _ => 0));
      Appended(Rearranged(file, segs), before, was, buf[..], at, done, len, pos);
    }

    static lemma Appended(file: seq<byte>, before: seq<byte>, was: seq<byte>, now: seq<byte>, at: nat, done: nat,
                          len: nat, pos: nat)
      requires |now| == |was| && at + done + len <= |now| && was[at..at + done] == FC.Slice(file, pos, done)
      requires now[at + done..at + done + len] == FC.Slice(file, pos + done, len)
      requires forall i :: 0 <= i < |now| && !(at + done <= i < at + done + len) ==> now[i] == was[i]
      ensures now[at..at + done + len] == FC.Slice(file, pos, done + len)
      ensures Outside(was, before, at, done) ==> Outside(now, before, at, done + len)
    {
      hide FC.Slice;
      FC.SliceJoin(file, pos, done, len);
      assert now[at..at + done] == was[at..at + done];
      assert now[at..at + done + len] == now[at..at + done] + now[at + done..at + done + len];
    }

    /** Where a read stands: `done` of `len` bytes from `pos` on have been read, and the
        next one is at offset `off` of range `i`, if there is one. */
    ghost predicate Progress(pos: nat, len: nat, done: nat, i: nat, off: nat)
      reads this, layout, layout.ranges
    {
      && layout.n <= layout.ranges.Length && i <= layout.n && done <= len
      && (i < layout.n ==> off <= layout.ranges[i].endoff)
      && (i < layout.n && done < len ==> pos + done == Span(layout.Ranges()[..i]) + off)
      && (i == layout.n && done < len ==> Span(layout.Ranges()) <= pos + done)
    }

    /** A read that has come so far. */
    ghost predicate Reading(fc: FC.FileCache, buf: array<byte>, before: seq<byte>, at: nat, len: nat, fidx: nat,
                            pos: nat, done: nat, i: nat, off: nat)
      reads *
    {
      && fc.Valid() && fidx < |fc.files| && Valid() && at + len <= buf.Length && Progress(pos, len, done, i, off)
      && buf[at..at + done] == FC.Slice(Rearranged(fc.files[fidx], segs), pos, done)
      && Outside(buf[..], before, at, done)
    }

    /** What a read has done when there is nothing more to read from the ranges, or when it failed. */
    ghost predicate HaveRead(fc: FC.FileCache, buf: array<byte>, before: seq<byte>, at: nat, len: nat, fidx: nat,
                             pos: nat, done: nat, status: Status)
      reads *
    {
      && fc.Valid() && fidx < |fc.files| && Valid() && status != Corrupt && done <= len && at + len <= buf.Length
      && Outside(buf[..], before, at, done)
      && (status == Success ==> buf[at..at + done] == FC.Slice(Rearranged(fc.files[fidx], segs), pos, done))
      && (status == Success && done < len ==> Span(layout.Ranges()) <= pos + done)
    }

    /** One turn of the loop in `flatmap_pread_flat`. */
    method Turn(fc: FC.FileCache, buf: array<byte>, at: nat, len: nat, fidx: nat, pos: nat, done: nat, i: nat, off: nat,
                ghost before: seq<byte>)
      returns (status: Status, seglen: nat)
      requires Reading(fc, buf, before, at, len, fidx, pos, done, i, off) && i < layout.n && done < len
      modifies fc.fbcache, fc.fbcache.next, fc.fbcache.prev, fc.fbcache.ce, fc.data, buf
      ensures if status == Success then Reading(fc, buf, before, at, len, fidx, pos, done + seglen, i + 1, 0)
              else HaveRead(fc, buf, before, at, len, fidx, pos, done + seglen, status)
    {
      ghost var rs := layout.Ranges();
      assert rs[..layout.n] == rs;
      SpanPrefixStep(rs, i);
      seglen := layout.ranges[i].endoff + 1 - off;
      if seglen > len - done {
        seglen := len - done;
      }
      status := Append(fc, buf, at, done, seglen, fidx, pos, i);
    }

    /** The loop over the ranges in `flatmap_pread_flat`. */
    method ReadRanges(fc: FC.FileCache, buf: array<byte>, at: nat, len: nat, fidx: nat, pos: nat, first: nat,
                      start: nat, ghost before: seq<byte>)
      returns (status: Status, done: nat)
      requires Reading(fc, buf, before, at, len, fidx, pos, 0, first, start)
      modifies fc.fbcache, fc.fbcache.next, fc.fbcache.prev, fc.fbcache.ce, fc.data, buf
      ensures HaveRead(fc, buf, before, at, len, fidx, pos, done, status)
    {
      hide *;
      var i, off, seglen := first, start, 0;
      done, status := 0, Success;
      while status == Success && i < layout.n && done < len
        invariant status == Success ==> Reading(fc, buf, before, at, len, fidx, pos, done, i, off)
        invariant status != Success ==> HaveRead(fc, buf, before, at, len, fidx, pos, done, status)
        decreases status == Success, layout.n - i
      {
        status, seglen := Turn(fc, buf, at, len, fidx, pos, done, i, off, before);
        done, i, off := done + seglen, i + 1, 0;
      }
      if status == Success {
        EndsReading(fc, buf, before, at, len, fidx, pos, done, i, off);
      }
    }

    lemma EndsReading(fc: FC.FileCache, buf: array<byte>, before: seq<byte>, at: nat, len: nat, fidx: nat, pos: nat,
                      done: nat, i: nat, off: nat)
      requires Reading(fc, buf, before, at, len, fidx, pos, done, i, off)
      requires i >= layout.n || done >= len
      ensures HaveRead(fc, buf, before, at, len, fidx, pos, done, Success)
    {
      hide FC.FileCache.Valid, Valid, Rearranged, FC.Slice, Span, Outside;
    }

    /** `flatmap_pread_flat`: what it reads is what a file holds into which the segments
        were written in order, however they overlap. */
    method Pread(fc: FC.FileCache, buf: array<byte>, at: nat, len: nat, fidx: nat, pos: nat)
      returns (status: Status)
      requires fc.Valid() && fidx < |fc.files| && Valid() && pos < OFF_SPAN && at + len <= buf.Length
      modifies fc.fbcache, fc.fbcache.next, fc.fbcache.prev, fc.fbcache.ce, fc.data, buf
      ensures fc.Valid() && status != Corrupt
      ensures status == Success ==> buf[at..at + len] == FC.Slice(Rearranged(fc.files[fidx], segs), pos, len)
      ensures Outside(buf[..], old(buf[..]), at, len)
    {
      hide *;
      var i, off := Begin(len, pos);
      BeginReading(fc, buf, at, len, fidx, pos, i, off);
      ghost var before := buf[..];
      var done;
      status, done := ReadRanges(fc, buf, at, len, fidx, pos, i, off, before);
      HaveReadMeans(fc, buf, before, at, len, fidx, pos, done, status);
      if status == Success && done < len {
        AppendZeroes(buf, at, done, len - done, fc.files[fidx], pos, before);
      }
    }

    lemma HaveReadMeans(fc: FC.FileCache, buf: array<byte>, before: seq<byte>, at: nat, len: nat, fidx: nat, pos: nat,
                        done: nat, status: Status)
      requires HaveRead(fc, buf, before, at, len, fidx, pos, done, status)
      ensures fc.Valid() && fidx < |fc.files| && Valid() && status != Corrupt && done <= len && at + len <= buf.Length
      ensures Outside(buf[..], before, at, done) && Outside(buf[..], before, at, len)
      ensures status == Success ==> buf[at..at + done] == FC.Slice(Rearranged(fc.files[fidx], segs), pos, done)
      ensures status == Success && done < len ==> Span(layout.Ranges()) <= pos + done
    {
      hide FC.FileCache.Valid, Valid, Rearranged, FC.Slice, Span;
    }

    lemma BeginReading(fc: FC.FileCache, buf: array<byte>, at: nat, len: nat, fidx: nat, pos: nat, i: nat, off: nat)
      requires fc.Valid() && fidx < |fc.files| && Valid() && at + len <= buf.Length && Progress(pos, len, 0, i, off)
      ensures Reading(fc, buf, buf[..], at, len, fidx, pos, 0, i, off)
    {
      assert buf[at..at + 0] == FC.Slice(Rearranged(fc.files[fidx], segs), pos, 0) == [];
    }

    /** Where a read begins. */
    method Begin(len: nat, pos: nat) returns (i: nat, off: nat)
      requires Valid() && pos < OFF_SPAN
      ensures Progress(pos, len, 0, i, off) && i <= layout.n
    {
      i, off := Locate(pos);
      assert layout.n == 0 ==> Span(layout.Ranges()) == 0;
    }

    /** `flatmap_get_chunk_flat`, up to the point where the data is fetched. */
    method PlanChunk(len: nat, pos: nat) returns (plan: Plan)
      requires Valid() && pos < OFF_SPAN
      ensures plan == Undefined <==> Hole(segs, pos, len) && (segs == [] || pos + len <= ADDR_SPAN)
      ensures plan.Direct? ==>
                forall file :: FC.Slice(file, plan.flatpos, len) == FC.Slice(Rearranged(file, segs), pos, len)
    {
      var i, off := Locate(pos);
      if i == layout.n {
        HoleIfEmpty(segs, layout.Ranges(), offs, pos, len);
        return Undefined;
      }
      var range := layout.ranges[i];
      PlanHole(segs, layout.Ranges(), offs, i, off, pos, len);
      if len <= range.endoff + 1 - off {
        if range.meth == METH_NONE {
          return Undefined;
        }
        DirectSlices(segs, layout.Ranges(), offs, i, off, pos, len);
        plan := Direct(pos + offs[range.meth]);
      } else {
        plan := Copied;
      }
    }
  }
}
