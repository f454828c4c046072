/** The sequence parameter set: what the parser of src/h264_sps.cpp computes from a
    NAL unit, and what H.264 sections 7.3.2.1.1 and 7.4.2.1.1 say a record means. */
module Sps {
  import opened Common
  import opened Bits
  import opened ExpGolomb
  import Rbsp

  // ---- The parser ----------------------------------------------------------

  const PROFILES_WITH_CHROMA_INFO: seq<int> :=
    [100, 110, 122, 244, 44, 83, 86, 118, 128, 138, 139, 134, 135]

  predicate HasChromaInfo(profileIdc: int) {
    profileIdc in PROFILES_WITH_CHROMA_INFO
  }

  function ReadFlagIf(present: bool, bs: seq<bit>): Read<int> {
    if present then ReadU(1, bs) else Got(0, bs)
  }

  /** `(lastScale + delta + 256) % 256` in C++ arithmetic. */
  function NextScale(lastScale: int, delta: int): int {
    CRem(Wrap32(Wrap32(lastScale + delta) + 256), 256)
  }

  function LastScale(lastScale: int, nextScale: int): int {
    if nextScale != 0 then nextScale else lastScale
  }

  /** `skipScalingList` with `size` entries to go; the value returned is nextScale. */
  function SkipScalingList(size: nat, lastScale: int, nextScale: int, bs: seq<bit>): Read<int> {
    if size == 0 then Got(nextScale, bs)
    else if nextScale == 0 then SkipScalingList(size - 1, lastScale, 0, bs)
    else
      var (delta, rest) :- ReadSe(bs);
      var next := NextScale(lastScale, delta);
      SkipScalingList(size - 1, LastScale(lastScale, next), next, rest)
  }

  function ListSize(i: nat): nat {
    if i < 6 then 16 else 64
  }

  function SkipScalingMatrix(i: nat, listCount: nat, bs: seq<bit>): Read<int>
    decreases listCount - i
  {
    if i >= listCount then Got(0, bs)
    else
      var (present, r0) :- ReadU(1, bs);
      if present == 1 then
        var (_, r1) :- SkipScalingList(ListSize(i), 8, 8, r0);
        SkipScalingMatrix(i + 1, listCount, r1)
      else
        SkipScalingMatrix(i + 1, listCount, r0)
  }

  function ListCount(chromaFormatIdc: int): nat {
    if chromaFormatIdc != 3 then 8 else 12
  }

  /** The profile-dependent block; the value is chromaFormatIdc. */
  function ReadChroma(profileIdc: int, bs: seq<bit>): Read<int> {
    if !HasChromaInfo(profileIdc) then Got(1, bs)
    else
      var (chromaFormatIdc, r0) :- ReadUe(bs);
      var (_, r1) :- ReadFlagIf(chromaFormatIdc == 3, r0);
      var (_, r2) :- ReadUe(r1);
      var (_, r3) :- ReadUe(r2);
      var (_, r4) :- ReadU(1, r3);
      var (matrix, r5) :- ReadU(1, r4);
      var (_, r6) :- SkipScalingMatrix(0, if matrix == 1 then ListCount(chromaFormatIdc) else 0, r5);
      Got(chromaFormatIdc, r6)
  }

  /** `cycle` signed values, one per iteration; none when the count is not positive. */
  function SkipCycle(cycle: int, bs: seq<bit>): Read<int>
    decreases if cycle > 0 then cycle else 0
  {
    if cycle <= 0 then Got(0, bs)
    else
      var (_, rest) :- ReadSe(bs);
      SkipCycle(cycle - 1, rest)
  }

  /** Picture order count syntax; the value is picOrderCntType. */
  function ReadPoc(bs: seq<bit>): Read<int> {
    var (pocType, r0) :- ReadUe(bs);
    if pocType == 0 then
      var (_, r1) :- ReadUe(r0);
      Got(0, r1)
    else if pocType == 1 then
      var (_, r1) :- ReadU(1, r0);
      var (_, r2) :- ReadSe(r1);
      var (_, r3) :- ReadSe(r2);
      var (cycle, r4) :- ReadUe(r3);
      var (_, r5) :- SkipCycle(cycle, r4);
      Got(1, r5)
    else
      Got(pocType, r0)
  }

  datatype Crop = Crop(left: int, right: int, top: int, bottom: int)

  datatype Geometry = Geometry(widthMbs: int, heightMapUnits: int, frameMbsOnly: int, crop: Crop)

  function ReadCrop(bs: seq<bit>): Read<Crop> {
    var (cropping, r0) :- ReadU(1, bs);
    if cropping == 1 then
      var (left, r1) :- ReadUe(r0);
      var (right, r2) :- ReadUe(r1);
      var (top, r3) :- ReadUe(r2);
      var (bottom, r4) :- ReadUe(r3);
      Got(Crop(left, right, top, bottom), r4)
    else
      Got(Crop(0, 0, 0, 0), r0)
  }

  function ReadGeometry(bs: seq<bit>): Read<Geometry> {
    var (width, r0) :- ReadUe(bs);
    var (height, r1) :- ReadUe(r0);
    var (frameMbsOnly, r2) :- ReadU(1, r1);
    var (_, r3) :- ReadFlagIf(frameMbsOnly == 0, r2);
    var (_, r4) :- ReadU(1, r3);
    var (crop, r5) :- ReadCrop(r4);
    Got(Geometry(width, height, frameMbsOnly, crop), r5)
  }

  /** The crop units as computed from chroma_format_idc alone. */
  function CodedCropUnits(chromaFormatIdc: int, fields: int): (int, int) {
    var subWidthC := if chromaFormatIdc == 1 || chromaFormatIdc == 2 then 2 else 1;
    var subHeightC := if chromaFormatIdc == 1 then 2 else 1;
    (if chromaFormatIdc == 0 then 1 else subWidthC,
     if chromaFormatIdc == 0 then fields else subHeightC * fields)
  }

  /** The size arithmetic at the end of the parser, every operation in 32 bits. */
  function CodedSize(chromaFormatIdc: int, g: Geometry): (size: Size)
    ensures size.width <= INT32_MAX && size.height <= INT32_MAX
  {
    var fields := 2 - g.frameMbsOnly;
    var (cropUnitX, cropUnitY) := CodedCropUnits(chromaFormatIdc, fields);
    Size(CroppedLength(Wrap32(g.widthMbs + 1), cropUnitX, g.crop.left, g.crop.right),
         CroppedLength(Wrap32(fields * Wrap32(g.heightMapUnits + 1)), cropUnitY, g.crop.top, g.crop.bottom))
  }

  /** `blocks * 16 - unit * (before + after)` */
  function CroppedLength(blocks: int, unit: int, before: int, after: int): (length: int)
    ensures length <= INT32_MAX
  {
    Wrap32(Wrap32(blocks * 16) - Wrap32(unit * Wrap32(before + after)))
  }

  function PositiveOnly(size: Size): Option<Size> {
    if size.width <= 0 || size.height <= 0 then None else Some(size)
  }

  function ReadSps(bs: seq<bit>): (r: Read<Size>)
    ensures r.Got? ==> r.value.width <= INT32_MAX && r.value.height <= INT32_MAX
  {
    var (profileIdc, r0) :- ReadU(8, bs);
    var (_, r1) :- ReadU(8, r0);
    var (_, r2) :- ReadU(8, r1);
    var (_, r3) :- ReadUe(r2);
    var (chromaFormatIdc, r4) :- ReadChroma(profileIdc, r3);
    var (_, r5) :- ReadUe(r4);
    var (_, r6) :- ReadPoc(r5);
    var (_, r7) :- ReadUe(r6);
    var (_, r8) :- ReadU(1, r7);
    var (g, r9) :- ReadGeometry(r8);
    Got(CodedSize(chromaFormatIdc, g), r9)
  }

  function SizeFromBits(bits: seq<bit>): (r: Option<Size>)
    ensures r.Some? ==> 0 < r.value.width <= INT32_MAX && 0 < r.value.height <= INT32_MAX
  {
    match ReadSps(bits)
    case Throw => None
    case Got(size, _) => PositiveOnly(size)
  }

  /** The raw payload bits of a NAL unit, header byte dropped. */
  function Payload(nalu: seq<byte>): seq<bit> {
    if nalu == [] then [] else BitsOf(Rbsp.Strip(nalu[1..], 0))
  }

  /** `parseSpsDimensions`, defined on every byte string. */
  function ParseSpsDimensions(sps: seq<byte>): (r: Option<Size>)
    ensures r.Some? ==> 0 < r.value.width <= INT32_MAX && 0 < r.value.height <= INT32_MAX
  {
    if |sps| < 4 then None else SizeFromBits(Payload(sps))
  }

  // ---- A well-formed record and its printed form ---------------------------

  datatype ChromaInfo = ChromaInfo(
    formatIdc: nat, separateColourPlane: bit, bitDepthLuma: nat, bitDepthChroma: nat,
    bypass: bit, matrix: Option<seq<Option<seq<int>>>>)

  datatype Poc =
    | Poc0(log2MaxLsb: nat)
    | Poc1(deltaAlwaysZero: bit, offsetNonRef: int, offsetTopBottom: int, cycle: seq<int>)
    | Poc2

  datatype Record = Record(
    profileIdc: byte, constraints: byte, levelIdc: byte, id: nat, chroma: ChromaInfo,
    log2MaxFrameNum: nat, poc: Poc, maxNumRefFrames: nat, gaps: bit,
    widthMbs: nat, heightMapUnits: nat, frameMbsOnly: bit, adaptive: bit, direct8x8: bit,
    crop: Option<Crop>)

  /** A value the writer can print as ue(v) without overflowing its int. */
  predicate Printable(v: int) {
    0 <= v < INT32_MAX
  }

  predicate PrintableSigned(v: int) {
    CodeNum(v) < INT32_MAX
  }

  // What the standard says of a record is stated on its own: nothing below refers to the
  // parser's tests or tables.

  /** The condition on profile_idc in section 7.3.2.1.1. */
  predicate SendsChroma(profileIdc: int) {
    || profileIdc == 100 || profileIdc == 110 || profileIdc == 122 || profileIdc == 244
    || profileIdc == 44 || profileIdc == 83 || profileIdc == 86 || profileIdc == 118
    || profileIdc == 128 || profileIdc == 138 || profileIdc == 139 || profileIdc == 134
    || profileIdc == 135
  }

  /** nextScale as section 7.3.2.1.1.1 computes it. */
  function StandardScale(lastScale: int, delta: int): (next: int)
    ensures 0 <= next < 256
  {
    (lastScale + delta + 256) % 256
  }

  /** `deltas` is one scaling_list() of section 7.3.2.1.1.1: a delta for every entry
      until nextScale becomes 0. */
  predicate ScalingDeltas(size: nat, lastScale: int, nextScale: int, deltas: seq<int>) {
    if size == 0 || nextScale == 0 then deltas == []
    else
      deltas != [] && -128 <= deltas[0] <= 127 &&
      var next := StandardScale(lastScale, deltas[0]);
      ScalingDeltas(size - 1, if next == 0 then lastScale else next, next, deltas[1..])
  }

  /** Six lists of 16 entries, then lists of 64. */
  function EntriesOf(i: nat): nat {
    if i >= 6 then 64 else 16
  }

  predicate MatrixOk(i: nat, lists: seq<Option<seq<int>>>) {
    forall k :: 0 <= k < |lists| && lists[k].Some? ==>
      ScalingDeltas(EntriesOf(i + k), 8, 8, lists[k].value)
  }

  predicate ChromaOk(c: ChromaInfo) {
    && c.formatIdc <= 3
    && Printable(c.bitDepthLuma) && Printable(c.bitDepthChroma)
    && (c.matrix.Some? ==> |c.matrix.value| == (if c.formatIdc == 3 then 12 else 8) && MatrixOk(0, c.matrix.value))
  }

  predicate PocOk(p: Poc) {
    match p
    case Poc0(lsb) => Printable(lsb)
    case Poc1(_, a, b, cycle) =>
      PrintableSigned(a) && PrintableSigned(b) && Printable(|cycle|)
      && forall k :: 0 <= k < |cycle| ==> PrintableSigned(cycle[k])
    case Poc2 => true
  }

  function CropOf(s: Record): Crop {
    if s.crop.Some? then s.crop.value else Crop(0, 0, 0, 0)
  }

  /** chroma_format_idc is inferred to be 1 for the profiles without the block. */
  function ChromaFormatOf(s: Record): nat {
    if SendsChroma(s.profileIdc) then s.chroma.formatIdc else 1
  }

  /** ChromaArrayType of section 7.4.2.1.1. */
  function ChromaArrayType(s: Record): nat {
    if SendsChroma(s.profileIdc) && s.chroma.formatIdc == 3 && s.chroma.separateColourPlane == 1 then 0
    else ChromaFormatOf(s)
  }

  /** Table 6-1: SubWidthC and SubHeightC. */
  function SubSampling(chromaArrayType: nat): (int, int) {
    if chromaArrayType == 1 then (2, 2) else if chromaArrayType == 2 then (2, 1) else (1, 1)
  }

  /** CropUnitX and CropUnitY, equations 7-19 to 7-22. */
  function CropUnits(s: Record): (int, int) {
    var (subWidthC, subHeightC) := SubSampling(ChromaArrayType(s));
    if ChromaArrayType(s) == 0 then (1, 2 - s.frameMbsOnly)
    else (subWidthC, subHeightC * (2 - s.frameMbsOnly))
  }

  /** The cropped picture size of section 7.4.2.1.1, in unbounded integers. */
  function PictureSize(s: Record): Size {
    var (cropUnitX, cropUnitY) := CropUnits(s);
    var crop := CropOf(s);
    Size((s.widthMbs + 1) * 16 - cropUnitX * (crop.left + crop.right),
         (2 - s.frameMbsOnly) * (s.heightMapUnits + 1) * 16 - cropUnitY * (crop.top + crop.bottom))
  }

  /** The uncropped size and the cropped amounts fit an int. */
  predicate InIntRange(s: Record) {
    var (cropUnitX, cropUnitY) := CropUnits(s);
    var crop := CropOf(s);
    && (s.widthMbs + 1) * 16 <= INT32_MAX
    && (2 - s.frameMbsOnly) * (s.heightMapUnits + 1) * 16 <= INT32_MAX
    && cropUnitX * (crop.left + crop.right) <= INT32_MAX
    && cropUnitY * (crop.top + crop.bottom) <= INT32_MAX
  }

  predicate WellFormed(s: Record) {
    && Printable(s.id) && (SendsChroma(s.profileIdc) ==> ChromaOk(s.chroma))
    && Printable(s.log2MaxFrameNum) && PocOk(s.poc) && Printable(s.maxNumRefFrames)
    && Printable(s.widthMbs) && Printable(s.heightMapUnits)
    && Printable(CropOf(s).left) && Printable(CropOf(s).right)
    && Printable(CropOf(s).top) && Printable(CropOf(s).bottom)
    && InIntRange(s)
  }

  function PrintSeAll(values: seq<int>, rest: seq<bit>): seq<bit> {
    if values == [] then rest else Se(values[0]) + PrintSeAll(values[1..], rest)
  }

  function PrintMatrix(lists: seq<Option<seq<int>>>, rest: seq<bit>): seq<bit> {
    if lists == [] then rest
    else
      match lists[0]
      case None => U(0, 1) + PrintMatrix(lists[1..], rest)
      case Some(deltas) => U(1, 1) + PrintSeAll(deltas, PrintMatrix(lists[1..], rest))
  }

  function PrintFlagIf(present: bool, flag: bit, rest: seq<bit>): seq<bit> {
    if present then U(flag, 1) + rest else rest
  }

  function PrintChroma(profileIdc: int, c: ChromaInfo, rest: seq<bit>): seq<bit> {
    if !SendsChroma(profileIdc) then rest
    else
      var lists := if c.matrix.Some? then c.matrix.value else [];
      Ue(c.formatIdc) + PrintFlagIf(c.formatIdc == 3, c.separateColourPlane,
      Ue(c.bitDepthLuma) + (Ue(c.bitDepthChroma) + (U(c.bypass, 1)
      + (U(if c.matrix.Some? then 1 else 0, 1) + PrintMatrix(lists, rest)))))
  }

  function PrintPoc(p: Poc, rest: seq<bit>): seq<bit> {
    match p
    case Poc0(lsb) => Ue(0) + (Ue(lsb) + rest)
    case Poc1(always, a, b, cycle) =>
      Ue(1) + (U(always, 1) + (Se(a) + (Se(b) + (Ue(|cycle|) + PrintSeAll(cycle, rest)))))
    case Poc2 => Ue(2) + rest
  }

  function PrintCrop(crop: Option<Crop>, rest: seq<bit>): seq<bit>
    requires crop.Some? ==> crop.value.left >= 0 && crop.value.right >= 0
                            && crop.value.top >= 0 && crop.value.bottom >= 0
  {
    match crop
    case None => U(0, 1) + rest
    case Some(c) => U(1, 1) + (Ue(c.left) + (Ue(c.right) + (Ue(c.top) + (Ue(c.bottom) + rest))))
  }

  function PrintGeometry(s: Record, rest: seq<bit>): seq<bit>
    requires WellFormed(s)
  {
    Ue(s.widthMbs) + (Ue(s.heightMapUnits) + (U(s.frameMbsOnly, 1)
    + PrintFlagIf(s.frameMbsOnly == 0, s.adaptive, U(s.direct8x8, 1) + PrintCrop(s.crop, rest))))
  }

  /** The record followed by `tail`: the VUI flag, the VUI and the trailing bits, which
      the parser never reaches. */
  function Print(s: Record, tail: seq<bit>): seq<bit>
    requires WellFormed(s)
  {
    U(s.profileIdc, 8) + (U(s.constraints, 8) + (U(s.levelIdc, 8) + (Ue(s.id)
    + PrintChroma(s.profileIdc, s.chroma, Ue(s.log2MaxFrameNum) + PrintPoc(s.poc,
      Ue(s.maxNumRefFrames) + (U(s.gaps, 1) + PrintGeometry(s, tail)))))))
  }

  /** The NAL unit an encoder sends: header, then the escaped bytes of the writer. */
  function Nalu(header: byte, s: Record, tail: seq<bit>): seq<byte>
    requires WellFormed(s)
  {
    [header] + Rbsp.Escape(Pack(Padded(Print(s, tail))), 0)
  }
}
