/** Bits of a byte string, most significant first, and the byte packing done by the
    tests' SpsBitWriter. */
module Bits {
  import opened Common

  type bit = b: int | 0 <= b < 2

  function PowerOfTwo(n: nat): (p: nat)
    ensures p > 0
  {
    if n == 0 then 1 else 2 * PowerOfTwo(n - 1)
  }

  /** `(b >> shift) & 1` */
  function BitAt(b: byte, shift: nat): bit {
    b / PowerOfTwo(shift) % 2
  }

  /** `n` bits of `v`, most significant first: what SpsBitWriter::u appends. */
  function U(v: nat, n: nat): (r: seq<bit>)
    ensures |r| == n
  {
    if n == 0 then [] else U(v / 2, n - 1) + [v % 2]
  }

  lemma {:induction false} UAt(v: nat, n: nat, k: nat)
    requires k < n
    ensures U(v, n)[k] == v / PowerOfTwo(n - 1 - k) % 2
  {
    if k < n - 1 {
      UAt(v / 2, n - 1, k);
      HalfThenDivide(v, PowerOfTwo(n - 2 - k));
    }
  }

  lemma HalfThenDivide(v: nat, p: nat)
    requires p > 0
    ensures v / 2 / p == v / (2 * p)
  {
    var q := v / 2 / p;
    var r := v / 2 % p;
    assert v / 2 == q * p + r;
    assert v == q * (2 * p) + (2 * r + v % 2);
    DivUnique(v, 2 * p, q, 2 * r + v % 2);
  }

  lemma DivUnique(v: int, m: int, k: int, r: int)
    requires m > 0 && 0 <= r < m && v == k * m + r
    ensures v / m == k
  {
    var d := k - v / m;
    assert v % m - r == d * m;
    assert d >= 1 ==> d * m >= m;
    assert d <= -1 ==> d * m <= -m;
  }

  /** A number with exactly `n` bits starts with a one. */
  lemma {:induction false} ULeadingOne(v: nat, n: nat)
    requires n > 0 && PowerOfTwo(n - 1) <= v < PowerOfTwo(n)
    ensures U(v, n) == [1] + U(v - PowerOfTwo(n - 1), n - 1)
  {
    if n > 1 {
      ULeadingOne(v / 2, n - 1);
      assert (v - PowerOfTwo(n - 1)) / 2 == v / 2 - PowerOfTwo(n - 2);
      assert (v - PowerOfTwo(n - 1)) % 2 == v % 2;
    } else {
      assert v == 1 && U(1, 1) == U(0, 0) + [1];
    }
  }

  /** The number a bit string denotes: `value = (value << 1) | bit` over its bits. */
  function ValueOf(bits: seq<bit>): (v: nat)
    ensures v < PowerOfTwo(|bits|)
  {
    if bits == [] then 0 else 2 * ValueOf(bits[..|bits| - 1]) + bits[|bits| - 1]
  }

  lemma {:induction false} UInvertsValue(bits: seq<bit>)
    ensures U(ValueOf(bits), |bits|) == bits
  {
    if bits != [] {
      UInvertsValue(bits[..|bits| - 1]);
    }
  }

  function BitsOf(data: seq<byte>): (r: seq<bit>)
    ensures |r| == 8 * |data|
  {
    if data == [] then [] else U(data[0], 8) + BitsOf(data[1..])
  }

  /** The bit the reader fetches at position `p` is element `p` of the bit string. */
  lemma {:induction false} BitsOfAt(data: seq<byte>, p: nat)
    requires p < 8 * |data|
    ensures BitsOf(data)[p] == BitAt(data[p / 8], 7 - p % 8)
  {
    if p < 8 {
      UAt(data[0], 8, p);
    } else {
      BitsOfAt(data[1..], p - 8);
      assert data[1..][(p - 8) / 8] == data[p / 8];
    }
  }

  lemma {:induction false} BitsOfAppend(a: seq<byte>, b: seq<byte>)
    ensures BitsOf(a + b) == BitsOf(a) + BitsOf(b)
  {
    if a == [] {
      assert a + b == b;
    } else {
      assert (a + b)[1..] == a[1..] + b;
      BitsOfAppend(a[1..], b);
    }
  }

  /** One output byte of `toBytes`. */
  function ByteOf(bits: seq<bit>): byte
    requires |bits| == 8
  {
    assert PowerOfTwo(8) == 256;
    ValueOf(bits)
  }

  function Padding(length: nat): (n: nat)
    ensures n < 8 && (length + n) % 8 == 0
  {
    (8 - length % 8) % 8
  }

  /** The bit string filled up to whole bytes with zeros. */
  function Padded(bits: seq<bit>): (r: seq<bit>)
    ensures |r| % 8 == 0 && bits <= r
  {
    bits + seq(Padding(|bits|), _ => 0)
  }

  function Pack(bits: seq<bit>): seq<byte>
    requires |bits| % 8 == 0
  {
    if bits == [] then [] else [ByteOf(bits[..8])] + Pack(bits[8..])
  }

  lemma {:induction false} PackInverts(bits: seq<bit>)
    requires |bits| % 8 == 0
    ensures BitsOf(Pack(bits)) == bits
  {
    if bits != [] {
      UInvertsValue(bits[..8]);
      PackInverts(bits[8..]);
      BitsOfCons(ByteOf(bits[..8]), Pack(bits[8..]));
      assert bits == bits[..8] + bits[8..];
    }
  }

  lemma BitsOfCons(b: byte, data: seq<byte>)
    ensures BitsOf([b] + data) == U(b, 8) + BitsOf(data)
  {
    assert ([b] + data)[1..] == data;
  }
}
