/** The two mutable ends of the SPS syntax: the parser's BitReader
    (src/h264_sps.cpp) and its inverse, SpsBitWriter (tests/h264_sps_tests.cpp). */
module BitStream {
  import opened Common
  import opened Bits
  import opened ExpGolomb

  /** What a read hands its caller: a value, or the thrown std::runtime_error. */
  datatype Outcome<+T> = Thrown | Value(value: T) {
    predicate IsFailure() {
      Thrown?
    }

    function PropagateFailure<V>(): Outcome<V>
      requires Thrown?
    {
      Thrown
    }

    function Extract(): T
      requires Value?
    {
      value
    }
  }

  class BitReader {
    const data: seq<byte>
    var bitPos: nat

    ghost predicate Valid()
      reads this
    {
      bitPos <= 8 * |data|
    }

    ghost function Remaining(): seq<bit>
      reads this
      requires Valid()
    {
      BitsOf(data)[bitPos..]
    }

    /** The outcome and the new position are those of the read `spec`. */
    ghost predicate Performs<T>(r: Outcome<T>, spec: Read<T>)
      reads this
    {
      Valid() &&
      match spec
      case Throw => r.Thrown?
      case Got(value, rest) => r == Value(value) && Remaining() == rest
    }

    constructor (data: seq<byte>)
      ensures Valid() && Remaining() == BitsOf(data)
    {
      this.data := data;
      bitPos := 0;
    }

    method Bit() returns (r: Outcome<bit>)
      requires Valid()
      modifies this
      ensures Performs(r, ReadBit(old(Remaining())))
    {
      var byteIndex := bitPos / 8;
      if byteIndex >= |data| {
        return Thrown;
      }
      var bitIndex := 7 - bitPos % 8;
      BitsOfAt(data, bitPos);
      bitPos := bitPos + 1;
      r := Value(BitAt(data[byteIndex], bitIndex));
    }

    method U(n: nat) returns (r: Outcome<int>)
      requires Valid()
      modifies this
      ensures Performs(r, ReadU(n, old(Remaining())))
    {
      var value := 0;
      var i := 0;
      while i < n
        invariant 0 <= i <= n && Valid()
        invariant ReadU(n, old(Remaining())) == ReadTail(value, n - i, Remaining())
      {
        var b :- Bit();
        value := Wrap32(2 * value + b);
        i := i + 1;
      }
      r := Value(value);
    }

    method Ue() returns (r: Outcome<int>)
      requires Valid()
      modifies this
      ensures Performs(r, ReadUe(old(Remaining())))
    {
      var leadingZeros: nat := 0;
      var b :- Bit();
      while b == 0
        invariant Valid()
        invariant CountZeros(0, old(Remaining())) ==
          if b == 1 then Got(leadingZeros, Remaining())
          else if leadingZeros + 1 > 32 then Throw
          else CountZeros(leadingZeros + 1, Remaining())
        decreases 33 - leadingZeros
      {
        leadingZeros := leadingZeros + 1;
        if leadingZeros > 32 {
          return Thrown;
        }
        b :- Bit();
      }
      r := UeSuffix(leadingZeros);
    }

    /** The second half of `ue`, behind its zeros and the one. */
    method UeSuffix(leadingZeros: nat) returns (r: Outcome<int>)
      requires Valid()
      modifies this
      ensures Performs(r, ReadSuffix(leadingZeros, old(Remaining())))
    {
      var value := 1;
      var i := 0;
      while i < leadingZeros
        invariant 0 <= i <= leadingZeros && Valid()
        invariant ReadTail(1, leadingZeros, old(Remaining())) == ReadTail(value, leadingZeros - i, Remaining())
      {
        var b :- Bit();
        value := Wrap32(2 * value + b);
        i := i + 1;
      }
      r := Value(Wrap32(value - 1));
    }

    method Se() returns (r: Outcome<int>)
      requires Valid()
      modifies this
      ensures Performs(r, ReadSe(old(Remaining())))
    {
      var codeNum :- Ue();
      var sign := if CRem(codeNum, 2) == 0 then -1 else 1;
      r := Value(sign * CDiv(Wrap32(codeNum + 1), 2));
    }
  }

  class SpsBitWriter {
    var bits: seq<bit>

    constructor ()
      ensures bits == []
    {
      bits := [];
    }

    method PutU(value: nat, n: nat)
      modifies this
      ensures bits == old(bits) + U(value, n)
    {
      var i := n;
      while i > 0
        invariant 0 <= i <= n
        invariant bits == old(bits) + U(value, n)[..n - i]
      {
        i := i - 1;
        UAt(value, n, n - 1 - i);
        bits := bits + [value / PowerOfTwo(i) % 2];
      }
    }

    /** `value + 1` must not overflow the writer's int. */
    method PutUe(value: nat)
      requires value < INT32_MAX
      modifies this
      ensures bits == old(bits) + Ue(value)
    {
      var codeNum := value + 1;
      var bitLength: nat := 0;
      var c: nat := codeNum;
      while c != 0
        invariant bitLength + BitLength(c) == BitLength(codeNum)
      {
        c := c / 2;
        bitLength := bitLength + 1;
      }
      var i := 0;
      while i < bitLength - 1
        invariant 0 <= i <= bitLength - 1
        invariant bits == old(bits) + ZeroBits(i)
      {
        assert ZeroBits(i + 1) == ZeroBits(i) + [0];
        bits := bits + [0];
        i := i + 1;
      }
      PutU(codeNum, bitLength);
      Associate(old(bits), ZeroBits(bitLength - 1), U(codeNum, bitLength));
    }

    method PutSe(value: int)
      requires CodeNum(value) < INT32_MAX
      modifies this
      ensures bits == old(bits) + Se(value)
    {
      PutUe(if value <= 0 then -2 * value else 2 * value - 1);
    }

    method ToBytes() returns (out: array<byte>)
      ensures fresh(out) && BitsOf(out[..]) == Padded(bits)
    {
      var padded := bits;
      while |padded| % 8 != 0
        invariant |bits| <= |padded| <= |Padded(bits)| && padded == Padded(bits)[..|padded|]
        decreases |Padded(bits)| - |padded|
      {
        padded := padded + [0];
      }
      assert padded == Padded(bits);
      out := new byte[|padded| / 8](_ => 0);
      var i := 0;
      while i < out.Length
        invariant 0 <= i <= out.Length
        invariant BitsOf(out[..i]) == padded[..8 * i]
      {
        out[i] := PackByte(padded[8 * i..8 * i + 8]);
        assert out[..i + 1] == out[..i] + [out[i]];
        NextByte(padded, i, out[..i], out[i]);
        i := i + 1;
      }
      assert out[..i] == out[..];
    }
  }

  lemma NextByte(padded: seq<bit>, i: nat, before: seq<byte>, b: byte)
    requires 8 * i + 8 <= |padded| && BitsOf(before) == padded[..8 * i]
    requires U(b, 8) == padded[8 * i..8 * i + 8]
    ensures BitsOf(before + [b]) == padded[..8 * i + 8]
  {
    BitsOfSnoc(before, b);
  }

  method PackByte(group: seq<bit>) returns (value: byte)
    requires |group| == 8
    ensures U(value, 8) == group
  {
    var v: nat := 0;
    var b := 0;
    while b < 8
      invariant 0 <= b <= 8
      invariant v == ValueOf(group[..b])
    {
      assert group[..b + 1][..b] == group[..b];
      v := 2 * v + group[b];
      b := b + 1;
    }
    assert group[..8] == group;
    assert PowerOfTwo(8) == 256;
    UInvertsValue(group);
    value := v;
  }

  lemma BitsOfSnoc(a: seq<byte>, b: byte)
    ensures BitsOf(a + [b]) == BitsOf(a) + U(b, 8)
  {
    BitsOfAppend(a, [b]);
    assert BitsOf([b]) == U(b, 8) + BitsOf([]);
  }
}
