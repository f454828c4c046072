/** What the SPS parser guarantees: it reads back every record an encoder can print,
    and no answer depends on bytes past the fields it reads. */
module SpsTheorems {
  import opened Common
  import opened Bits
  import opened ExpGolomb
  import opened Sps
  import Rbsp

  // ---- Reading back the printed pieces -------------------------------------

  lemma UReadsBack(v: nat, n: nat, rest: seq<bit>)
    requires n <= 31 && v < PowerOfTwo(n)
    ensures ReadU(n, U(v, n) + rest) == Got(v, rest)
  {
    PowerMonotone(n, 31);
    PowerConstants();
    assert Wrap32(v) == v && Wrap32(0) == 0;
    assert 0 * PowerOfTwo(n) + v == v;
    TailReadsU(0, v, n, rest);
  }

  lemma FlagReadsBack(v: bit, rest: seq<bit>)
    ensures ReadU(1, U(v, 1) + rest) == Got(v, rest)
  {
    UReadsBack(v, 1, rest);
  }

  lemma ByteReadsBack(v: byte, rest: seq<bit>)
    ensures ReadU(8, U(v, 8) + rest) == Got(v, rest)
  {
    assert PowerOfTwo(8) == 256;
    UReadsBack(v, 8, rest);
  }

  lemma UePrinted(v: nat, rest: seq<bit>)
    requires Printable(v)
    ensures ReadUe(Ue(v) + rest) == Got(v, rest)
  {
    UeInverts(v, rest);
  }

  lemma FlagIfReadsBack(present: bool, flag: bit, rest: seq<bit>)
    ensures ReadFlagIf(present, PrintFlagIf(present, flag, rest))
         == Got(if present then flag else 0, rest)
  {
    if present {
      FlagReadsBack(flag, rest);
    }
  }

  /** On legal deltas the truncating `%` of the code is the modulus of the standard. */
  lemma NextScaleIsStandard(lastScale: int, delta: int)
    requires 0 < lastScale < 256 && -128 <= delta <= 127
    ensures NextScale(lastScale, delta) == StandardScale(lastScale, delta)
  {
  }

  lemma {:induction false} NothingMoreIsRead(size: nat, lastScale: int, rest: seq<bit>)
    ensures SkipScalingList(size, lastScale, 0, rest) == Got(0, rest)
  {
    if size > 0 {
      NothingMoreIsRead(size - 1, lastScale, rest);
    }
  }

  /** The parser consumes a scaling list exactly, whatever follows it. */
  lemma {:induction false} ScalingListReadsBack(
      size: nat, lastScale: int, nextScale: int, deltas: seq<int>, rest: seq<bit>)
    requires 0 < lastScale < 256 && ScalingDeltas(size, lastScale, nextScale, deltas)
    ensures var r := SkipScalingList(size, lastScale, nextScale, PrintSeAll(deltas, rest));
            r.Got? && r.rest == rest
    decreases size
  {
    if nextScale == 0 {
      NothingMoreIsRead(size, lastScale, rest);
    } else if size > 0 {
      var next := StandardScale(lastScale, deltas[0]);
      EntryReadsBack(size, lastScale, nextScale, deltas[0], PrintSeAll(deltas[1..], rest));
      ScalingListReadsBack(size - 1, if next == 0 then lastScale else next, next, deltas[1..], rest);
    }
  }

  lemma EntryReadsBack(size: nat, lastScale: int, nextScale: int, delta: int, tail: seq<bit>)
    requires size > 0 && 0 < lastScale < 256 && nextScale != 0 && -128 <= delta <= 127
    ensures var next := StandardScale(lastScale, delta);
            SkipScalingList(size, lastScale, nextScale, Se(delta) + tail) ==
            SkipScalingList(size - 1, if next == 0 then lastScale else next, next, tail)
  {
    SeInverts(delta, tail);
    NextScaleIsStandard(lastScale, delta);
  }

  lemma MatrixTailOk(i: nat, lists: seq<Option<seq<int>>>)
    requires MatrixOk(i, lists) && lists != []
    ensures MatrixOk(i + 1, lists[1..])
    ensures lists[0].Some? ==> ScalingDeltas(EntriesOf(i), 8, 8, lists[0].value)
  {
    forall k | 0 <= k < |lists[1..]| && lists[1..][k].Some?
      ensures ScalingDeltas(EntriesOf(i + 1 + k), 8, 8, lists[1..][k].value)
    {
      assert lists[1 + k].Some?;
    }
    assert lists[0].Some? ==> ScalingDeltas(EntriesOf(i + 0), 8, 8, lists[0].value);
  }

  lemma {:induction false} MatrixReadsBack(i: nat, lists: seq<Option<seq<int>>>, rest: seq<bit>)
    requires MatrixOk(i, lists)
    ensures SkipScalingMatrix(i, i + |lists|, PrintMatrix(lists, rest)) == Got(0, rest)
    decreases |lists|
  {
    if lists != [] {
      var next := PrintMatrix(lists[1..], rest);
      MatrixTailOk(i, lists);
      MatrixReadsBack(i + 1, lists[1..], rest);
      if lists[0].Some? {
        FlagReadsBack(1, PrintSeAll(lists[0].value, next));
        ScalingListReadsBack(ListSize(i), 8, 8, lists[0].value, next);
      } else {
        FlagReadsBack(0, next);
      }
    }
  }

  /** The parser's table is the standard's condition. */
  lemma ChromaProfiles(profileIdc: int)
    ensures HasChromaInfo(profileIdc) <==> SendsChroma(profileIdc)
  {
    var p := PROFILES_WITH_CHROMA_INFO;
    assert && p[0] == 100 && p[1] == 110 && p[2] == 122 && p[3] == 244 && p[4] == 44 && p[5] == 83 && p[6] == 86
           && p[7] == 118 && p[8] == 128 && p[9] == 138 && p[10] == 139 && p[11] == 134 && p[12] == 135;
  }

  lemma ChromaReadsBack(profileIdc: int, c: ChromaInfo, rest: seq<bit>)
    requires SendsChroma(profileIdc) ==> ChromaOk(c)
    ensures ReadChroma(profileIdc, PrintChroma(profileIdc, c, rest))
         == Got(if SendsChroma(profileIdc) then c.formatIdc else 1, rest)
  {
    ChromaProfiles(profileIdc);
    if SendsChroma(profileIdc) {
      var lists := if c.matrix.Some? then c.matrix.value else [];
      var present: bit := if c.matrix.Some? then 1 else 0;
      var p5 := PrintMatrix(lists, rest);
      var p4 := U(present, 1) + p5;
      var p3 := U(c.bypass, 1) + p4;
      var p2 := Ue(c.bitDepthChroma) + p3;
      var p1 := Ue(c.bitDepthLuma) + p2;
      UePrinted(c.formatIdc, PrintFlagIf(c.formatIdc == 3, c.separateColourPlane, p1));
      FlagIfReadsBack(c.formatIdc == 3, c.separateColourPlane, p1);
      UePrinted(c.bitDepthLuma, p2);
      UePrinted(c.bitDepthChroma, p3);
      FlagReadsBack(c.bypass, p4);
      FlagReadsBack(present, p5);
      MatrixReadsBack(0, lists, rest);
    }
  }

  lemma {:induction false} CycleReadsBack(values: seq<int>, rest: seq<bit>)
    requires forall k :: 0 <= k < |values| ==> PrintableSigned(values[k])
    ensures SkipCycle(|values|, PrintSeAll(values, rest)) == Got(0, rest)
  {
    if values != [] {
      SeInverts(values[0], PrintSeAll(values[1..], rest));
      CycleReadsBack(values[1..], rest);
    }
  }

  lemma PocReadsBack(p: Poc, rest: seq<bit>)
    requires PocOk(p)
    ensures var r := ReadPoc(PrintPoc(p, rest)); r.Got? && r.rest == rest
  {
    match p
    case Poc0(lsb) =>
      UePrinted(0, Ue(lsb) + rest);
      UePrinted(lsb, rest);
    case Poc1(always, a, b, cycle) =>
      var p4 := PrintSeAll(cycle, rest);
      var p3 := Ue(|cycle|) + p4;
      var p2 := Se(b) + p3;
      var p1 := Se(a) + p2;
      UePrinted(1, U(always, 1) + p1);
      FlagReadsBack(always, p1);
      SeInverts(a, p2);
      SeInverts(b, p3);
      UePrinted(|cycle|, p4);
      CycleReadsBack(cycle, rest);
    case Poc2 =>
      UePrinted(2, rest);
  }

  lemma CropReadsBack(s: Record, rest: seq<bit>)
    requires WellFormed(s)
    ensures ReadCrop(PrintCrop(s.crop, rest)) == Got(CropOf(s), rest)
  {
    match s.crop
    case None => FlagReadsBack(0, rest);
    case Some(c) =>
      var p3 := Ue(c.bottom) + rest;
      var p2 := Ue(c.top) + p3;
      var p1 := Ue(c.right) + p2;
      FlagReadsBack(1, Ue(c.left) + p1);
      UePrinted(c.left, p1);
      UePrinted(c.right, p2);
      UePrinted(c.top, p3);
      UePrinted(c.bottom, rest);
  }

  function GeometryOf(s: Record): Geometry {
    Geometry(s.widthMbs, s.heightMapUnits, s.frameMbsOnly, CropOf(s))
  }

  lemma GeometryReadsBack(s: Record, rest: seq<bit>)
    requires WellFormed(s)
    ensures ReadGeometry(PrintGeometry(s, rest)) == Got(GeometryOf(s), rest)
  {
    var p4 := PrintCrop(s.crop, rest);
    var p3 := U(s.direct8x8, 1) + p4;
    var p2 := PrintFlagIf(s.frameMbsOnly == 0, s.adaptive, p3);
    var p1 := U(s.frameMbsOnly, 1) + p2;
    UePrinted(s.widthMbs, Ue(s.heightMapUnits) + p1);
    UePrinted(s.heightMapUnits, p1);
    FlagReadsBack(s.frameMbsOnly, p2);
    FlagIfReadsBack(s.frameMbsOnly == 0, s.adaptive, p3);
    FlagReadsBack(s.direct8x8, p4);
    CropReadsBack(s, rest);
  }

  /** The parser works from chroma_format_idc alone: separate_colour_plane_flag, which the
      standard consults, never changes the crop units. */
  lemma CropUnitsIgnoreColourPlanes(s: Record)
    requires SendsChroma(s.profileIdc) ==> ChromaOk(s.chroma)
    ensures CodedCropUnits(ChromaFormatOf(s), 2 - s.frameMbsOnly) == CropUnits(s)
  {
  }

  /** The parser's int arithmetic gives the size the standard defines. */
  lemma CodedSizeIsStandard(s: Record)
    requires WellFormed(s)
    ensures CodedSize(ChromaFormatOf(s), GeometryOf(s)) == PictureSize(s)
  {
    CropUnitsIgnoreColourPlanes(s);
    WidthIsStandard(s);
    HeightIsStandard(s);
  }

  lemma WidthIsStandard(s: Record)
    requires WellFormed(s)
    ensures CroppedLength(Wrap32(s.widthMbs + 1), CropUnits(s).0, CropOf(s).left, CropOf(s).right)
         == PictureSize(s).width
  {
    LengthIsStandard(s.widthMbs + 1, CropUnits(s).0, CropOf(s).left, CropOf(s).right);
  }

  lemma HeightIsStandard(s: Record)
    requires WellFormed(s)
    ensures CroppedLength(Wrap32((2 - s.frameMbsOnly) * Wrap32(s.heightMapUnits + 1)),
                          CropUnits(s).1, CropOf(s).top, CropOf(s).bottom)
         == PictureSize(s).height
  {
    var fields := 2 - s.frameMbsOnly;
    var rows := fields * (s.heightMapUnits + 1);
    assert fields == 1 || fields == 2;
    assert Wrap32(s.heightMapUnits + 1) == s.heightMapUnits + 1 && Wrap32(rows) == rows;
    LengthIsStandard(rows, CropUnits(s).1, CropOf(s).top, CropOf(s).bottom);
  }

  lemma LengthIsStandard(blocks: int, unit: int, before: int, after: int)
    requires 0 <= blocks && blocks * 16 <= INT32_MAX && before >= 0 && after >= 0
    requires unit >= 1 && unit * (before + after) <= INT32_MAX
    ensures CroppedLength(blocks, unit, before, after) == blocks * 16 - unit * (before + after)
  {
    var cropped := before + after;
    ScaledIsLarger(unit, cropped);
    LengthInRange(blocks * 16, cropped, unit * cropped);
  }

  lemma ScaledIsLarger(unit: int, x: int)
    requires unit >= 1 && x >= 0
    ensures x <= unit * x
  {
    assert (unit - 1) * x >= 0;
  }

  lemma LengthInRange(raw: int, cropped: int, removed: int)
    requires 0 <= raw <= INT32_MAX && 0 <= cropped <= removed <= INT32_MAX
    ensures Wrap32(cropped) == cropped
    ensures Wrap32(Wrap32(raw) - Wrap32(removed)) == raw - removed
  {
  }

  lemma RecordReadsBack(s: Record, tail: seq<bit>)
    requires WellFormed(s)
    ensures ReadSps(Print(s, tail)) == Got(PictureSize(s), tail)
  {
    var p7 := PrintGeometry(s, tail);
    var p6 := U(s.gaps, 1) + p7;
    var p5 := Ue(s.maxNumRefFrames) + p6;
    var p4 := PrintPoc(s.poc, p5);
    var p3 := Ue(s.log2MaxFrameNum) + p4;
    var p2 := PrintChroma(s.profileIdc, s.chroma, p3);
    var p1 := Ue(s.id) + p2;
    var p0 := U(s.levelIdc, 8) + p1;
    ByteReadsBack(s.profileIdc, U(s.constraints, 8) + p0);
    ByteReadsBack(s.constraints, p0);
    ByteReadsBack(s.levelIdc, p1);
    UePrinted(s.id, p2);
    ChromaReadsBack(s.profileIdc, s.chroma, p3);
    UePrinted(s.log2MaxFrameNum, p4);
    PocReadsBack(s.poc, p5);
    UePrinted(s.maxNumRefFrames, p6);
    FlagReadsBack(s.gaps, p7);
    GeometryReadsBack(s, tail);
    CodedSizeIsStandard(s);
  }

  // ---- Bits past the ones read change nothing ------------------------------

  ghost predicate SameAfter<T>(r: Read<T>, longer: Read<T>, more: seq<bit>) {
    r.Got? ==> longer == Got(r.value, r.rest + more)
  }

  lemma UExtends(n: nat, bs: seq<bit>, more: seq<bit>)
    ensures SameAfter(ReadU(n, bs), ReadU(n, bs + more), more)
  {
    if ReadU(n, bs).Got? {
      TailExtends(0, n, bs, more);
    }
  }

  lemma UeSame(bs: seq<bit>, more: seq<bit>)
    ensures SameAfter(ReadUe(bs), ReadUe(bs + more), more)
  {
    if ReadUe(bs).Got? {
      UeExtends(bs, more);
    }
  }

  lemma SeSame(bs: seq<bit>, more: seq<bit>)
    ensures SameAfter(ReadSe(bs), ReadSe(bs + more), more)
  {
    if ReadSe(bs).Got? {
      SeExtends(bs, more);
    }
  }

  lemma {:induction false} ScalingListExtends(
      size: nat, lastScale: int, nextScale: int, bs: seq<bit>, more: seq<bit>)
    ensures SameAfter(SkipScalingList(size, lastScale, nextScale, bs),
                      SkipScalingList(size, lastScale, nextScale, bs + more), more)
    decreases size
  {
    if size == 0 {
    } else if nextScale == 0 {
      ScalingListExtends(size - 1, lastScale, 0, bs, more);
    } else {
      SeSame(bs, more);
      var r := ReadSe(bs);
      if r.Got? {
        var next := NextScale(lastScale, r.value);
        ScalingListExtends(size - 1, LastScale(lastScale, next), next, r.rest, more);
      }
    }
  }

  lemma {:induction false} MatrixExtends(i: nat, listCount: nat, bs: seq<bit>, more: seq<bit>)
    ensures SameAfter(SkipScalingMatrix(i, listCount, bs), SkipScalingMatrix(i, listCount, bs + more), more)
    decreases listCount - i
  {
    if i < listCount {
      UExtends(1, bs, more);
      var r0 := ReadU(1, bs);
      if r0.Got? {
        if r0.value == 1 {
          ScalingListExtends(ListSize(i), 8, 8, r0.rest, more);
          var r1 := SkipScalingList(ListSize(i), 8, 8, r0.rest);
          if r1.Got? {
            MatrixExtends(i + 1, listCount, r1.rest, more);
          }
        } else {
          MatrixExtends(i + 1, listCount, r0.rest, more);
        }
      }
    }
  }

  lemma FlagIfExtends(present: bool, bs: seq<bit>, more: seq<bit>)
    ensures SameAfter(ReadFlagIf(present, bs), ReadFlagIf(present, bs + more), more)
  {
    UExtends(1, bs, more);
  }

  lemma ChromaExtends(profileIdc: int, bs: seq<bit>, more: seq<bit>)
    ensures SameAfter(ReadChroma(profileIdc, bs), ReadChroma(profileIdc, bs + more), more)
  {
    if HasChromaInfo(profileIdc) && ReadChroma(profileIdc, bs).Got? {
      var r0 := ReadUe(bs);
      var r1 := ReadFlagIf(r0.value == 3, r0.rest);
      var r2 := ReadUe(r1.rest);
      var r3 := ReadUe(r2.rest);
      var r4 := ReadU(1, r3.rest);
      var r5 := ReadU(1, r4.rest);
      UeSame(bs, more);
      FlagIfExtends(r0.value == 3, r0.rest, more);
      UeSame(r1.rest, more);
      UeSame(r2.rest, more);
      UExtends(1, r3.rest, more);
      UExtends(1, r4.rest, more);
      MatrixExtends(0, if r5.value == 1 then ListCount(r0.value) else 0, r5.rest, more);
    }
  }

  /** The picture order count loop is bounded by the bits that are there. */
  lemma {:induction false} CycleExtends(cycle: int, bs: seq<bit>, more: seq<bit>)
    ensures SameAfter(SkipCycle(cycle, bs), SkipCycle(cycle, bs + more), more)
    ensures SkipCycle(cycle, bs).Got? ==> cycle <= |bs|
    decreases if cycle > 0 then cycle else 0
  {
    if cycle > 0 && SkipCycle(cycle, bs).Got? {
      SeExtends(bs, more);
      CycleExtends(cycle - 1, ReadSe(bs).rest, more);
    }
  }

  lemma PocExtends(bs: seq<bit>, more: seq<bit>)
    ensures SameAfter(ReadPoc(bs), ReadPoc(bs + more), more)
  {
    if ReadPoc(bs).Got? {
      var r0 := ReadUe(bs);
      UeSame(bs, more);
      if r0.value == 0 {
        UeSame(r0.rest, more);
      } else if r0.value == 1 {
        var r1 := ReadU(1, r0.rest);
        var r2 := ReadSe(r1.rest);
        var r3 := ReadSe(r2.rest);
        var r4 := ReadUe(r3.rest);
        UExtends(1, r0.rest, more);
        SeSame(r1.rest, more);
        SeSame(r2.rest, more);
        UeSame(r3.rest, more);
        CycleExtends(r4.value, r4.rest, more);
      }
    }
  }

  lemma CropExtends(bs: seq<bit>, more: seq<bit>)
    ensures SameAfter(ReadCrop(bs), ReadCrop(bs + more), more)
  {
    if ReadCrop(bs).Got? {
      var r0 := ReadU(1, bs);
      UExtends(1, bs, more);
      if r0.value == 1 {
        var r1 := ReadUe(r0.rest);
        var r2 := ReadUe(r1.rest);
        var r3 := ReadUe(r2.rest);
        UeSame(r0.rest, more);
        UeSame(r1.rest, more);
        UeSame(r2.rest, more);
        UeSame(r3.rest, more);
      }
    }
  }

  lemma GeometryExtends(bs: seq<bit>, more: seq<bit>)
    ensures SameAfter(ReadGeometry(bs), ReadGeometry(bs + more), more)
  {
    if ReadGeometry(bs).Got? {
      var r0 := ReadUe(bs);
      var r1 := ReadUe(r0.rest);
      var r2 := ReadU(1, r1.rest);
      var r3 := ReadFlagIf(r2.value == 0, r2.rest);
      var r4 := ReadU(1, r3.rest);
      UeSame(bs, more);
      UeSame(r0.rest, more);
      UExtends(1, r1.rest, more);
      FlagIfExtends(r2.value == 0, r2.rest, more);
      UExtends(1, r3.rest, more);
      CropExtends(r4.rest, more);
    }
  }

  lemma RecordExtends(bs: seq<bit>, more: seq<bit>)
    ensures SameAfter(ReadSps(bs), ReadSps(bs + more), more)
  {
    if ReadSps(bs).Got? {
      var r0 := ReadU(8, bs);
      var r1 := ReadU(8, r0.rest);
      var r2 := ReadU(8, r1.rest);
      var r3 := ReadUe(r2.rest);
      var r4 := ReadChroma(r0.value, r3.rest);
      var r5 := ReadUe(r4.rest);
      var r6 := ReadPoc(r5.rest);
      var r7 := ReadUe(r6.rest);
      var r8 := ReadU(1, r7.rest);
      UExtends(8, bs, more);
      UExtends(8, r0.rest, more);
      UExtends(8, r1.rest, more);
      UeSame(r2.rest, more);
      ChromaExtends(r0.value, r3.rest, more);
      UeSame(r4.rest, more);
      PocExtends(r5.rest, more);
      UeSame(r6.rest, more);
      UExtends(1, r7.rest, more);
      GeometryExtends(r8.rest, more);
    }
  }

  // ---- The two theorems ----------------------------------------------------

  /** Printing any well-formed record, escaping it and prefixing a header byte, then
      parsing, yields the cropped size of section 7.4.2.1.1, or nothing when that size
      is not positive. */
  lemma ParsesEveryRecord(header: byte, s: Record, tail: seq<bit>)
    requires WellFormed(s)
    ensures var size := PictureSize(s);
            ParseSpsDimensions(Nalu(header, s, tail))
            == if size.width > 0 && size.height > 0 then Some(size) else None
  {
    var bits := Print(s, tail);
    var pad := NaluCarries(header, bits);
    PrintsThreeBytes(s, tail);
    RecordReadsBack(s, tail);
    SizeIgnoresTrailingBits(bits, pad);
  }

  /** Stripped and read bit by bit, an escaped NAL unit is the bits packed into it. */
  lemma NaluCarries(header: byte, bits: seq<bit>) returns (pad: seq<bit>)
    ensures var nalu := [header] + Rbsp.Escape(Pack(Padded(bits)), 0);
            Payload(nalu) == bits + pad && (|bits| >= 24 ==> |nalu| >= 4)
  {
    var bytes := Pack(Padded(bits));
    var nalu := [header] + Rbsp.Escape(bytes, 0);
    Rbsp.StripInvertsEscape(bytes, 0);
    assert nalu[1..] == Rbsp.Escape(bytes, 0);
    PackInverts(Padded(bits));
    pad := Padded(bits)[|bits|..];
    assert Padded(bits) == bits + pad;
    EscapeGrows(bytes, 0);
  }

  lemma PrintsThreeBytes(s: Record, tail: seq<bit>)
    requires WellFormed(s)
    ensures |Print(s, tail)| >= 24
  {
  }

  lemma {:induction false} EscapeGrows(s: seq<byte>, run: nat)
    ensures |Rbsp.Escape(s, run)| >= |s|
  {
    if s != [] {
      EscapeGrows(s[1..], if run >= 2 && s[0] <= 3 then Rbsp.RunAfter(s[0], 0) else Rbsp.RunAfter(s[0], run));
    }
  }

  lemma PayloadExtends(nalu: seq<byte>, more: seq<byte>) returns (added: seq<bit>)
    requires nalu != []
    ensures Payload(nalu + more) == Payload(nalu) + added
  {
    var body := Rbsp.Strip(nalu[1..], 0);
    var run := Rbsp.StripRun(nalu[1..], 0);
    assert (nalu + more)[1..] == nalu[1..] + more;
    Rbsp.StripAppend(nalu[1..], more, 0);
    BitsOfAppend(body, Rbsp.Strip(more, run));
    added := BitsOf(Rbsp.Strip(more, run));
  }

  /** Bytes after a parseable SPS, such as the zeros a 4-byte start code leaves behind,
      change neither a size found nor a size refused as not positive. */
  lemma ParseIgnoresTrailingBytes(sps: seq<byte>, more: seq<byte>)
    requires |sps| >= 4 && ReadSps(Payload(sps)).Got?
    ensures ParseSpsDimensions(sps + more) == ParseSpsDimensions(sps)
  {
    var added := PayloadExtends(sps, more);
    SizeIgnoresTrailingBits(Payload(sps), added);
  }

  lemma SizeIgnoresTrailingBits(bits: seq<bit>, more: seq<bit>)
    requires ReadSps(bits).Got?
    ensures SizeFromBits(bits + more) == SizeFromBits(bits)
  {
    RecordExtends(bits, more);
  }

  lemma ParseSuccessIsStable(sps: seq<byte>, more: seq<byte>)
    requires ParseSpsDimensions(sps).Some?
    ensures ParseSpsDimensions(sps + more) == ParseSpsDimensions(sps)
  {
    ParseIgnoresTrailingBytes(sps, more);
  }
}
