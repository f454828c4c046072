/** The parser of src/h264_sps.cpp in its own form: successive reads from one mutable
    BitReader, any of which may throw. */
module SpsParser {
  import opened Common
  import opened Bits
  import opened ExpGolomb
  import opened BitStream
  import opened Sps
  import Rbsp

  method SkipList(reader: BitReader, size: nat) returns (r: Outcome<int>)
    requires reader.Valid()
    modifies reader
    ensures reader.Performs(r, SkipScalingList(size, 8, 8, old(reader.Remaining())))
  {
    var lastScale, nextScale := 8, 8;
    var i := 0;
    while i < size
      invariant 0 <= i <= size && reader.Valid()
      invariant SkipScalingList(size, 8, 8, old(reader.Remaining()))
             == SkipScalingList(size - i, lastScale, nextScale, reader.Remaining())
    {
      if nextScale != 0 {
        var delta :- reader.Se();
        nextScale := NextScale(lastScale, delta);
      }
      if nextScale != 0 {
        lastScale := nextScale;
      }
      i := i + 1;
    }
    r := Value(nextScale);
  }

  method SkipMatrix(reader: BitReader, listCount: nat) returns (r: Outcome<int>)
    requires reader.Valid()
    modifies reader
    ensures reader.Performs(r, SkipScalingMatrix(0, listCount, old(reader.Remaining())))
  {
    var i := 0;
    while i < listCount
      invariant 0 <= i <= listCount && reader.Valid()
      invariant SkipScalingMatrix(0, listCount, old(reader.Remaining()))
             == SkipScalingMatrix(i, listCount, reader.Remaining())
    {
      var present :- reader.U(1);
      if present == 1 {
        var size := if i < 6 then 16 else 64;
        assert size == ListSize(i);
        var _ :- SkipList(reader, size);
      }
      i := i + 1;
    }
    r := Value(0);
  }

  /** `hasChromaInfo` */
  method FindProfile(profileIdc: int) returns (found: bool)
    ensures found == HasChromaInfo(profileIdc)
  {
    var i := 0;
    while i < |PROFILES_WITH_CHROMA_INFO|
      invariant 0 <= i <= |PROFILES_WITH_CHROMA_INFO|
      invariant forall k :: 0 <= k < i ==> PROFILES_WITH_CHROMA_INFO[k] != profileIdc
    {
      if PROFILES_WITH_CHROMA_INFO[i] == profileIdc {
        return true;
      }
      i := i + 1;
    }
    found := false;
  }

  method ReadChromaBlock(reader: BitReader, profileIdc: int) returns (r: Outcome<int>)
    requires reader.Valid()
    modifies reader
    ensures reader.Performs(r, ReadChroma(profileIdc, old(reader.Remaining())))
  {
    var chromaFormatIdc := 1;
    var present := FindProfile(profileIdc);
    if present {
      chromaFormatIdc :- reader.Ue();
      if chromaFormatIdc == 3 {
        var _ :- reader.U(1);
      }
      var _ :- reader.Ue();
      var _ :- reader.Ue();
      var _ :- reader.U(1);
      var matrix :- reader.U(1);
      if matrix == 1 {
        var listCount := if chromaFormatIdc != 3 then 8 else 12;
        var _ :- SkipMatrix(reader, listCount);
      }
    }
    r := Value(chromaFormatIdc);
  }

  method SkipOffsets(reader: BitReader, cycle: int) returns (r: Outcome<int>)
    requires reader.Valid()
    modifies reader
    ensures reader.Performs(r, SkipCycle(cycle, old(reader.Remaining())))
  {
    var i := 0;
    while i < cycle
      invariant 0 <= i && reader.Valid() && (cycle >= 0 ==> i <= cycle)
      invariant SkipCycle(cycle, old(reader.Remaining())) == SkipCycle(cycle - i, reader.Remaining())
    {
      var _ :- reader.Se();
      i := i + 1;
    }
    r := Value(0);
  }

  method ReadPocBlock(reader: BitReader) returns (r: Outcome<int>)
    requires reader.Valid()
    modifies reader
    ensures reader.Performs(r, ReadPoc(old(reader.Remaining())))
  {
    var pocType :- reader.Ue();
    if pocType == 0 {
      var _ :- reader.Ue();
    } else if pocType == 1 {
      var _ :- reader.U(1);
      var _ :- reader.Se();
      var _ :- reader.Se();
      var cycle :- reader.Ue();
      var _ :- SkipOffsets(reader, cycle);
    }
    r := Value(pocType);
  }

  method ReadGeometryBlock(reader: BitReader) returns (r: Outcome<Geometry>)
    requires reader.Valid()
    modifies reader
    ensures reader.Performs(r, ReadGeometry(old(reader.Remaining())))
  {
    var width :- reader.Ue();
    var height :- reader.Ue();
    var frameMbsOnly :- reader.U(1);
    if frameMbsOnly == 0 {
      var _ :- reader.U(1);
    }
    var _ :- reader.U(1);
    var left, right, top, bottom := 0, 0, 0, 0;
    var cropping :- reader.U(1);
    if cropping == 1 {
      left :- reader.Ue();
      right :- reader.Ue();
      top :- reader.Ue();
      bottom :- reader.Ue();
    }
    r := Value(Geometry(width, height, frameMbsOnly, Crop(left, right, top, bottom)));
  }

  method ReadRecord(reader: BitReader) returns (r: Outcome<Size>)
    requires reader.Valid()
    modifies reader
    ensures reader.Performs(r, ReadSps(old(reader.Remaining())))
  {
    var profileIdc :- reader.U(8);
    var _ :- reader.U(8);
    var _ :- reader.U(8);
    var _ :- reader.Ue();
    var chromaFormatIdc :- ReadChromaBlock(reader, profileIdc);
    var _ :- reader.Ue();
    var _ :- ReadPocBlock(reader);
    var _ :- reader.Ue();
    var _ :- reader.U(1);
    var g :- ReadGeometryBlock(reader);
    r := Value(CodedSize(chromaFormatIdc, g));
  }

  /** `parseSpsDimensions`: the caught exception and the size that is not positive both
      become no answer. */
  method ParseDimensions(sps: seq<byte>) returns (r: Option<Size>)
    ensures r == ParseSpsDimensions(sps)
  {
    if |sps| < 4 {
      return None;
    }
    var rbsp := Rbsp.StripEmulationPrevention(sps);
    var reader := new BitReader(rbsp);
    var parsed := ReadRecord(reader);
    if parsed.Thrown? {
      return None;
    }
    var size := parsed.value;
    if size.width <= 0 || size.height <= 0 {
      return None;
    }
    r := Some(size);
  }
}
