/** Vocabulary shared by the whole receiver model: bytes, optional values, picture
    sizes, and the C++ integer operators where they differ from Dafny's. */
module Common {

  type byte = b: int | 0 <= b < 256

  datatype Option<+T> = None | Some(value: T)

  datatype Size = Size(width: int, height: int)

  const INT32_MAX := 0x7fff_ffff
  const INT32_HALF := 0x8000_0000
  const INT32_MODULUS := 0x1_0000_0000

  /** The value a 32-bit two's complement `int` holds after an operation whose
      mathematical result is `x`. */
  function Wrap32(x: int): (r: int)
    ensures -INT32_HALF <= r < INT32_HALF
    ensures -INT32_HALF <= x < INT32_HALF ==> r == x
  {
    (x + INT32_HALF) % INT32_MODULUS - INT32_HALF
  }

  /** How many times 2^32 was taken off. */
  function WrapCount(x: int): (k: int)
    ensures x == Wrap32(x) + k * INT32_MODULUS
  {
    (x + INT32_HALF) / INT32_MODULUS
  }

  /** Two numbers that differ by a multiple of 2^32 wrap to the same `int`. */
  lemma WrapCongruent(x: int, y: int, k: int)
    requires x == y + k * INT32_MODULUS
    ensures Wrap32(x) == Wrap32(y)
  {
  }

  /** Wrapping an operand first does not change the wrapped sum. */
  lemma WrapSum(x: int, y: int)
    ensures Wrap32(Wrap32(x) + y) == Wrap32(x + y)
  {
    WrapCongruent(x + y, Wrap32(x) + y, WrapCount(x));
  }

  /** C++ `/`: truncates toward zero. */
  function CDiv(a: int, b: int): int
    requires b > 0
  {
    if a >= 0 then a / b else -((-a) / b)
  }

  /** C++ `%`: the remainder takes the sign of the dividend. */
  function CRem(a: int, b: int): int
    requires b > 0
  {
    if a >= 0 then a % b else -((-a) % b)
  }

  // ---- Sequences -----------------------------------------------------------

  function Flatten<T>(parts: seq<seq<T>>): seq<T> {
    if parts == [] then [] else parts[0] + Flatten(parts[1..])
  }

  lemma {:induction false} FlattenAppend<T>(a: seq<seq<T>>, b: seq<seq<T>>)
    ensures Flatten(a + b) == Flatten(a) + Flatten(b)
  {
    if a == [] {
      assert a + b == b;
    } else {
      assert (a + b)[1..] == a[1..] + b;
      FlattenAppend(a[1..], b);
    }
  }

  lemma FlattenSnoc<T>(a: seq<seq<T>>, last: seq<T>)
    ensures Flatten(a + [last]) == Flatten(a) + last
  {
    FlattenAppend(a, [last]);
    assert Flatten([last]) == last + Flatten([]);
  }

  lemma Associate<T>(a: seq<T>, b: seq<T>, c: seq<T>)
    ensures a + (b + c) == a + b + c
  {
  }

  function Repeat<T>(x: T, n: nat): (r: seq<T>)
    ensures |r| == n && forall i :: 0 <= i < n ==> r[i] == x
  {
    seq(n, _ => x)
  }

  lemma Cancel<T>(a: seq<T>, b: seq<T>, c: seq<T>)
    requires a + b == a + c
    ensures b == c
  {
    assert (a + b)[|a|..] == b && (a + c)[|a|..] == c;
  }

  /** The newest `n` elements. */
  function Last<T>(s: seq<T>, n: nat): seq<T> {
    if |s| <= n then s else s[|s| - n..]
  }

  /** By how much `length` exceeds `limit`. */
  function Surplus(length: nat, limit: nat): nat {
    if length > limit then length - limit else 0
  }

  lemma LastSnoc<T>(a: seq<T>, x: T, n: nat)
    ensures Last(Last(a, n) + [x], n) == Last(a + [x], n)
  {
  }

  /** The newest value that is there. */
  function LastSome<T>(options: seq<Option<T>>): Option<T> {
    if options == [] then None
    else if options[|options| - 1].Some? then options[|options| - 1]
    else LastSome(options[..|options| - 1])
  }

  predicate NulFree(s: seq<byte>) {
    forall i :: 0 <= i < |s| ==> s[i] != 0
  }
}
