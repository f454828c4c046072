/** Fixed-width and Exp-Golomb codes (H.264 sections 7.2, 9.1 and 9.1.1): the parser's
    reads as functions of the remaining bits, and the codes SpsBitWriter prints. */
module ExpGolomb {
  import opened Common
  import opened Bits

  /** Outcome of a read: the value and the bits after it, or the C++ exception
      ("out of bits", "malformed exp-golomb code"). */
  datatype Read<+T> = Throw | Got(value: T, rest: seq<bit>) {
    predicate IsFailure() {
      Throw?
    }

    function PropagateFailure<U>(): Read<U>
      requires Throw?
    {
      Throw
    }

    function Extract(): (T, seq<bit>)
      requires Got?
    {
      (value, rest)
    }
  }

  function ReadBit(bs: seq<bit>): Read<bit> {
    if bs == [] then Throw else Got(bs[0], bs[1..])
  }

  /** `n` times `value = (value << 1) | bit()`, in a 32-bit int. */
  function ReadTail(value: int, n: nat, bs: seq<bit>): Read<int>
    decreases n
  {
    if n == 0 then Got(value, bs)
    else
      var (b, rest) :- ReadBit(bs);
      ReadTail(Wrap32(2 * value + b), n - 1, rest)
  }

  function ReadU(n: nat, bs: seq<bit>): Read<int> {
    ReadTail(0, n, bs)
  }

  /** The `leadingZeros` loop of `ue`: gives up past 32 zeros. */
  function CountZeros(zeros: nat, bs: seq<bit>): Read<nat>
    decreases |bs|
  {
    var (b, rest) :- ReadBit(bs);
    if b == 1 then Got(zeros, rest)
    else if zeros + 1 > 32 then Throw
    else CountZeros(zeros + 1, rest)
  }

  function ReadUe(bs: seq<bit>): Read<int> {
    var (zeros, rest) :- CountZeros(0, bs);
    ReadSuffix(zeros, rest)
  }

  /** The bits of `ue` after its zeros and the one. */
  function ReadSuffix(zeros: nat, bs: seq<bit>): Read<int> {
    var (value, rest) :- ReadTail(1, zeros, bs);
    Got(Wrap32(value - 1), rest)
  }

  /** The signed mapping of `se`, in C++ arithmetic. */
  function SignedValue(codeNum: int): int {
    var sign := if CRem(codeNum, 2) == 0 then -1 else 1;
    sign * CDiv(Wrap32(codeNum + 1), 2)
  }

  function ReadSe(bs: seq<bit>): Read<int> {
    var (codeNum, rest) :- ReadUe(bs);
    Got(SignedValue(codeNum), rest)
  }

  // ---- The printer -------------------------------------------------------

  function BitLength(v: nat): (n: nat)
    ensures v < PowerOfTwo(n)
    ensures v > 0 ==> n > 0 && PowerOfTwo(n - 1) <= v
  {
    if v == 0 then 0 else 1 + BitLength(v / 2)
  }

  function ZeroBits(n: nat): seq<bit> {
    Repeat<bit>(0, n)
  }

  /** The ue(v) codeword of section 9.1. */
  function Ue(v: nat): seq<bit> {
    var n := BitLength(v + 1);
    ZeroBits(n - 1) + U(v + 1, n)
  }

  /** The mapping of section 9.1.1 from signed values to code numbers. */
  function CodeNum(v: int): nat {
    if v <= 0 then -2 * v else 2 * v - 1
  }

  function Se(v: int): seq<bit> {
    Ue(CodeNum(v))
  }

  // ---- Reading back what was printed ---------------------------------------

  /** Reading one bit more is reading it after the others. */
  lemma {:induction false} TailSnoc(value: int, n: nat, bs: seq<bit>)
    ensures ReadTail(value, n + 1, bs)
         == match ReadTail(value, n, bs)
            case Throw => Throw
            case Got(v, rest) => ReadTail(v, 1, rest)
    decreases n
  {
    if n > 0 && bs != [] {
      TailSnoc(Wrap32(2 * value + bs[0]), n - 1, bs[1..]);
    }
  }

  /** Reading back `n` printed bits appends them to the accumulator, modulo 2^32. */
  lemma {:induction false} TailReadsU(a: int, v: nat, n: nat, rest: seq<bit>)
    requires v < PowerOfTwo(n)
    ensures ReadTail(Wrap32(a), n, U(v, n) + rest) == Got(Wrap32(a * PowerOfTwo(n) + v), rest)
    decreases n
  {
    if n == 0 {
      assert U(v, n) + rest == rest;
    } else {
      var last: bit := v % 2;
      assert U(v, n) + rest == U(v / 2, n - 1) + ([last] + rest);
      TailReadsU(a, v / 2, n - 1, [last] + rest);
      TailSnoc(Wrap32(a), n - 1, U(v, n) + rest);
      var w := a * PowerOfTwo(n - 1) + v / 2;
      OneMoreBit(w, last, rest);
      assert 2 * w + last == a * PowerOfTwo(n) + v by {
        Distribute(a, PowerOfTwo(n - 1));
      }
    }
  }

  lemma OneMoreBit(w: int, b: bit, rest: seq<bit>)
    ensures ReadTail(Wrap32(w), 1, [b] + rest) == Got(Wrap32(2 * w + b), rest)
  {
    assert ([b] + rest)[1..] == rest;
    assert ReadTail(Wrap32(w), 1, [b] + rest) == ReadTail(Wrap32(2 * Wrap32(w) + b), 0, rest);
    DoubleWrap(w, b);
  }

  lemma Distribute(a: int, p: int)
    ensures 2 * (a * p) == a * (2 * p)
  {
  }

  lemma DoubleWrap(a: int, b: int)
    ensures Wrap32(2 * Wrap32(a) + b) == Wrap32(2 * a + b)
  {
    WrapCongruent(2 * a + b, 2 * Wrap32(a) + b, 2 * WrapCount(a));
  }

  lemma {:induction false} CountsZeros(already: nat, n: nat, rest: seq<bit>)
    ensures CountZeros(already, ZeroBits(n) + [1] + rest)
         == if n == 0 || already + n <= 32 then Got(already + n, rest) else Throw
    decreases n
  {
    var bs := ZeroBits(n) + [1] + rest;
    if n == 0 {
      assert bs[0] == 1 && bs[1..] == rest;
    } else {
      assert bs[0] == 0 && bs[1..] == ZeroBits(n - 1) + [1] + rest;
      if already + 1 <= 32 {
        CountsZeros(already + 1, n - 1, rest);
      }
    }
  }

  /** A codeword is its zeros, a one, and the low bits of `v + 1`. */
  lemma UeShape(v: nat, n: nat, rest: seq<bit>)
    requires n == BitLength(v + 1)
    ensures n > 0 && Ue(v) + rest
         == ZeroBits(n - 1) + [1] + (U(v + 1 - PowerOfTwo(n - 1), n - 1) + rest)
  {
    ULeadingOne(v + 1, n);
  }

  lemma UeReadsLength(v: nat, n: nat, rest: seq<bit>)
    requires n == BitLength(v + 1)
    ensures ReadUe(Ue(v) + rest) == if n <= 33 then Got(Wrap32(v), rest) else Throw
  {
    UeShape(v, n, rest);
    var low := v + 1 - PowerOfTwo(n - 1);
    CountsZeros(0, n - 1, U(low, n - 1) + rest);
    if n <= 33 {
      SuffixReadsU(low, n - 1, rest);
    }
  }

  lemma SuffixReadsU(low: nat, n: nat, rest: seq<bit>)
    requires low < PowerOfTwo(n)
    ensures ReadSuffix(n, U(low, n) + rest) == Got(Wrap32(PowerOfTwo(n) + low - 1), rest)
  {
    TailReadsU(1, low, n, rest);
    assert Wrap32(1) == 1;
    WrapSum(PowerOfTwo(n) + low, -1);
  }

  /** What `ue` returns on the codeword of any code number: exactly the codeword's bits
      are consumed, and the value is the code number reduced to a 32-bit int; a
      codeword with more than 32 leading zeros is refused. */
  lemma UeReadsBack(v: nat, rest: seq<bit>)
    ensures ReadUe(Ue(v) + rest)
         == if v + 1 < 2 * INT32_MODULUS then Got(Wrap32(v), rest) else Throw
  {
    var n := BitLength(v + 1);
    UeReadsLength(v, n, rest);
    PowerConstants();
    if n <= 33 {
      PowerMonotone(n, 33);
    } else {
      PowerMonotone(33, n - 1);
    }
  }

  lemma {:induction false} PowerMonotone(m: nat, n: nat)
    requires m <= n
    ensures PowerOfTwo(m) <= PowerOfTwo(n)
  {
    if m < n {
      PowerMonotone(m, n - 1);
    }
  }

  lemma PowerConstants()
    ensures PowerOfTwo(31) == 0x8000_0000 && PowerOfTwo(32) == INT32_MODULUS
    ensures PowerOfTwo(33) == 2 * INT32_MODULUS
  {
    assert PowerOfTwo(8) == 0x100;
    assert PowerOfTwo(16) == 0x1_0000;
    assert PowerOfTwo(24) == 0x100_0000;
  }

  /** The code inverts exactly when the code number fits a 32-bit int. */
  lemma UeInverts(v: nat, rest: seq<bit>)
    ensures ReadUe(Ue(v) + rest) == Got(v, rest) <==> v <= INT32_MAX
  {
    UeReadsBack(v, rest);
    PowerConstants();
  }

  lemma SignedInverts(v: int)
    requires CodeNum(v) < INT32_MAX
    ensures SignedValue(CodeNum(v)) == v
  {
    var c := CodeNum(v);
    if v <= 0 {
      assert c % 2 == 0 && (c + 1) / 2 == -v;
    } else {
      assert c % 2 == 1 && (c + 1) / 2 == v;
    }
  }

  /** The signed code inverts exactly when the code number stays below INT32_MAX; there
      `codeNum + 1` overflows. */
  lemma SeInverts(v: int, rest: seq<bit>)
    ensures ReadSe(Se(v) + rest) == Got(v, rest) <==> CodeNum(v) < INT32_MAX
  {
    var c := CodeNum(v);
    UeReadsBack(c, rest);
    if c < INT32_MAX {
      SignedInverts(v);
    } else if c + 1 < 2 * INT32_MODULUS {
      SignedIsWrong(v);
    }
  }

  lemma SignedIsWrong(v: int)
    requires INT32_MAX <= CodeNum(v) < 2 * INT32_MODULUS
    ensures SignedValue(Wrap32(CodeNum(v))) != v
  {
    var c := Wrap32(CodeNum(v));
    var h := Wrap32(c + 1);
    assert -INT32_HALF <= h <= INT32_MAX;
    assert -INT32_HALF / 2 <= CDiv(h, 2) <= INT32_MAX / 2;
  }

  // ---- Reads only look at the bits they consume ----------------------------

  lemma {:induction false} TailExtends(value: int, n: nat, bs: seq<bit>, more: seq<bit>)
    requires ReadTail(value, n, bs).Got?
    ensures var r := ReadTail(value, n, bs);
            ReadTail(value, n, bs + more) == Got(r.value, r.rest + more) && |bs| == n + |r.rest|
    decreases n
  {
    if n > 0 {
      assert (bs + more)[1..] == bs[1..] + more;
      TailExtends(Wrap32(2 * value + bs[0]), n - 1, bs[1..], more);
    }
  }

  lemma {:induction false} CountExtends(zeros: nat, bs: seq<bit>, more: seq<bit>)
    requires CountZeros(zeros, bs).Got?
    ensures var r := CountZeros(zeros, bs);
            CountZeros(zeros, bs + more) == Got(r.value, r.rest + more) && |r.rest| < |bs|
    decreases |bs|
  {
    assert (bs + more)[1..] == bs[1..] + more;
    if bs[0] == 0 {
      CountExtends(zeros + 1, bs[1..], more);
    }
  }

  lemma UeExtends(bs: seq<bit>, more: seq<bit>)
    requires ReadUe(bs).Got?
    ensures var r := ReadUe(bs);
            ReadUe(bs + more) == Got(r.value, r.rest + more) && |r.rest| < |bs|
  {
    CountExtends(0, bs, more);
    var z := CountZeros(0, bs);
    TailExtends(1, z.value, z.rest, more);
  }

  lemma SeExtends(bs: seq<bit>, more: seq<bit>)
    requires ReadSe(bs).Got?
    ensures var r := ReadSe(bs);
            ReadSe(bs + more) == Got(r.value, r.rest + more) && |r.rest| < |bs|
  {
    UeExtends(bs, more);
  }
}
