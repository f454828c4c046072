/** The telemetry prefix of a video message, `{"cap":1,"snd":2}`: the reader of
    src/annexb.cpp and the sender's printer in tools/fake_sender.py. */
module Telemetry {
  import opened Common

  const COMMA: byte := 44
  const COLON: byte := 58
  const SPACE: byte := 32
  const OPEN_BRACE: byte := 123
  const CLOSE_BRACE: byte := 125

  /** `"cap"` and `"snd"`, quotes included. */
  const CAP_KEY: seq<byte> := [34, 99, 97, 112, 34]
  const SND_KEY: seq<byte> := [34, 115, 110, 100, 34]

  const INT64_MAX := 0x7fff_ffff_ffff_ffff

  predicate Occurs(s: seq<byte>, key: seq<byte>, at: nat) {
    at + |key| <= |s| && forall k :: 0 <= k < |key| ==> s[at + k] == key[k]
  }

  /** `std::string_view::find(key, from)` */
  function Find(s: seq<byte>, key: seq<byte>, from: nat): (r: Option<nat>)
    ensures r.Some? ==> from <= r.value && r.value + |key| <= |s|
    decreases |s| - from
  {
    if from + |key| > |s| then None
    else if Occurs(s, key, from) then Some(from)
    else Find(s, key, from + 1)
  }

  predicate EndsValue(b: byte) {
    b == COMMA || b == CLOSE_BRACE
  }

  /** `std::string_view::find_first_of(",}", from)` */
  function FindValueEnd(s: seq<byte>, from: nat): (r: Option<nat>)
    ensures r.Some? ==> from <= r.value < |s|
    decreases |s| - from
  {
    if from >= |s| then None
    else if EndsValue(s[from]) then Some(from)
    else FindValueEnd(s, from + 1)
  }

  function SkipSpaces(s: seq<byte>, from: nat): (r: nat)
    ensures from <= r && (from <= |s| ==> r <= |s|)
    decreases |s| - from
  {
    if from < |s| && s[from] == SPACE then SkipSpaces(s, from + 1) else from
  }

  // ---- std::stoll ----------------------------------------------------------

  predicate IsDigit(b: byte) {
    48 <= b <= 57
  }

  predicate IsWhite(b: byte) {
    b == 32 || 9 <= b <= 13
  }

  function DropWhite(s: seq<byte>): seq<byte> {
    if s != [] && IsWhite(s[0]) then DropWhite(s[1..]) else s
  }

  /** The value of the digits `s` starts with, appended to `value`. */
  function Digits(s: seq<byte>, value: nat): nat {
    if s != [] && IsDigit(s[0]) then Digits(s[1..], 10 * value + (s[0] - 48)) else value
  }

  /** `std::stoll`: leading white space, an optional sign, then at least one digit; None
      for the exceptions on no digits and on values outside 64 bits. */
  function Stoll(text: seq<byte>): (r: Option<int>)
    ensures r.Some? ==> -INT64_MAX - 1 <= r.value <= INT64_MAX
  {
    var s := DropWhite(text);
    var negative := s != [] && s[0] == 45;
    var digits := if s != [] && s[0] in {43, 45} then s[1..] else s;
    if digits == [] || !IsDigit(digits[0]) then None
    else
      var magnitude: int := Digits(digits, 0);
      var value := if negative then -magnitude else magnitude;
      if -INT64_MAX - 1 <= value <= INT64_MAX then Some(value) else None
  }

  // ---- Reading a field -----------------------------------------------------

  function ValueText(prefix: seq<byte>, from: nat): seq<byte>
    requires from <= |prefix|
  {
    var index := SkipSpaces(prefix, from);
    match FindValueEnd(prefix, index)
    case None => prefix[index..]
    case Some(end) => prefix[index..end]
  }

  function OrZero(value: Option<int>): int {
    if value.Some? then value.value else 0
  }

  function ValueAt(prefix: seq<byte>, from: nat): int
    requires from <= |prefix|
  {
    OrZero(Stoll(ValueText(prefix, from)))
  }

  /** The value behind the first colon at or after `from`. */
  function ValueAfterColon(prefix: seq<byte>, from: nat): int {
    match Find(prefix, [COLON], from)
    case None => 0
    case Some(colon) => ValueAt(prefix, colon + 1)
  }

  /** `telemetryField` */
  function Field(prefix: seq<byte>, key: seq<byte>): int {
    match Find(prefix, key, 0)
    case None => 0
    case Some(at) => ValueAfterColon(prefix, at + |key|)
  }

  method ReadField(prefix: seq<byte>, key: seq<byte>) returns (value: int)
    ensures value == Field(prefix, key)
  {
    var at := Find(prefix, key, 0);
    if at.None? {
      return 0;
    }
    value := ReadAfterColon(prefix, at.value + |key|);
  }

  method ReadAfterColon(prefix: seq<byte>, from: nat) returns (value: int)
    ensures value == ValueAfterColon(prefix, from)
  {
    var colon := Find(prefix, [COLON], from);
    if colon.None? {
      return 0;
    }
    value := ReadValue(prefix, colon.value + 1);
  }

  method ReadValue(prefix: seq<byte>, from: nat) returns (value: int)
    requires from <= |prefix|
    ensures value == ValueAt(prefix, from)
  {
    var index := from;
    while index < |prefix| && prefix[index] == SPACE
      invariant from <= index <= |prefix|
      invariant SkipSpaces(prefix, from) == SkipSpaces(prefix, index)
    {
      index := index + 1;
    }
    var end := FindValueEnd(prefix, index);
    value := OrZero(Stoll(if end.None? then prefix[index..] else prefix[index..end.value]));
  }

  // ---- The sender's printer ------------------------------------------------

  /** Decimal digits of `n`, no leading zero. */
  function Decimal(n: nat): (r: seq<byte>)
    ensures r != [] && forall i :: 0 <= i < |r| ==> IsDigit(r[i])
  {
    if n < 10 then [48 + n] else Decimal(n / 10) + [48 + n % 10]
  }

  /** `{"cap":<cap>,"snd":<snd>}` with compact separators. */
  function Prefix(cap: nat, snd: nat): seq<byte> {
    [123, 34, 99, 97, 112, 34, 58] + Decimal(cap)
    + [44, 34, 115, 110, 100, 34, 58] + Decimal(snd) + [125]
  }

  lemma {:induction false} DigitsAppend(s: seq<byte>, last: byte, value: nat)
    requires IsDigit(last) && forall i :: 0 <= i < |s| ==> IsDigit(s[i])
    ensures Digits(s + [last], value) == 10 * Digits(s, value) + (last - 48)
  {
    if s == [] {
      assert (s + [last])[1..] == [];
    } else {
      assert (s + [last])[1..] == s[1..] + [last];
      DigitsAppend(s[1..], last, 10 * value + (s[0] - 48));
    }
  }

  lemma {:induction false} DigitsOfDecimal(n: nat)
    ensures Digits(Decimal(n), 0) == n
  {
    if n >= 10 {
      DigitsOfDecimal(n / 10);
      DigitsAppend(Decimal(n / 10), 48 + n % 10, 0);
    }
  }

  lemma StollOfDecimal(n: nat)
    requires n <= INT64_MAX
    ensures Stoll(Decimal(n)) == Some(n)
  {
    var d := Decimal(n);
    assert IsDigit(d[0]);
    DigitsOfDecimal(n);
  }

  /** A position is found exactly when it is that of the first occurrence. */
  lemma {:induction false} FindAt(s: seq<byte>, key: seq<byte>, from: nat, at: nat)
    requires from <= at
    ensures Find(s, key, from) == Some(at)
       <==> Occurs(s, key, at) && forall j :: from <= j < at ==> !Occurs(s, key, j)
    decreases at - from
  {
    if from < at {
      FindAt(s, key, from + 1, at);
    }
  }

  lemma {:induction false} ValueEndsAt(s: seq<byte>, from: nat, at: nat)
    requires from <= at
    ensures FindValueEnd(s, from) == Some(at)
       <==> at < |s| && EndsValue(s[at]) && forall j :: from <= j < at ==> !EndsValue(s[j])
    decreases at - from
  {
    if from < at {
      ValueEndsAt(s, from + 1, at);
    }
  }

  /** A value printed between a colon and a delimiter is read back. */
  lemma ValueReadsBack(s: seq<byte>, from: nat, n: nat)
    requires n <= INT64_MAX && Occurs(s, Decimal(n), from)
    requires from + |Decimal(n)| < |s| && EndsValue(s[from + |Decimal(n)|])
    ensures ValueAt(s, from) == n
  {
    var d := Decimal(n);
    assert s[from] == d[0] && IsDigit(d[0]);
    assert SkipSpaces(s, from) == from;
    forall j | from <= j < from + |d|
      ensures !EndsValue(s[j])
    {
      assert s[from + (j - from)] == d[j - from] && IsDigit(d[j - from]);
    }
    assert s[from..from + |d|] == d;
    ValueEndsAt(s, from, from + |d|);
    StollOfDecimal(n);
  }

  lemma ColonThenValue(s: seq<byte>, from: nat, n: nat)
    requires n <= INT64_MAX && Occurs(s, [COLON], from) && Occurs(s, Decimal(n), from + 1)
    requires from + 1 + |Decimal(n)| < |s| && EndsValue(s[from + 1 + |Decimal(n)|])
    ensures ValueAfterColon(s, from) == n
  {
    FindAt(s, [COLON], from, from);
    ValueReadsBack(s, from + 1, n);
  }

  /** A field is the value behind the colon that follows its key. */
  lemma FieldIsBehindKey(s: seq<byte>, key: seq<byte>, at: nat)
    requires Find(s, key, 0) == Some(at)
    ensures Field(s, key) == ValueAfterColon(s, at + |key|)
  {
  }

  // ---- What a field reads, in any layout -----------------------------------

  /** The number a string of digits stands for, least significant digit last. */
  function NumberOf(digits: seq<byte>): int {
    if digits == [] then 0
    else 10 * NumberOf(digits[..|digits| - 1]) + digits[|digits| - 1] as int - 48
  }

  predicate AllDigits(s: seq<byte>) {
    forall i :: 0 <= i < |s| ==> 48 <= s[i] <= 57
  }

  predicate AllWhite(s: seq<byte>) {
    forall i :: 0 <= i < |s| ==> s[i] == 32 || s[i] == 9 || s[i] == 10 || s[i] == 11 || s[i] == 12 || s[i] == 13
  }

  lemma {:induction false} DropsWhite(white: seq<byte>, rest: seq<byte>)
    requires AllWhite(white) && (rest != [] ==> !IsWhite(rest[0]))
    ensures DropWhite(white + rest) == rest
  {
    if white == [] {
      assert white + rest == rest;
    } else {
      assert (white + rest)[1..] == white[1..] + rest;
      DropsWhite(white[1..], rest);
    }
  }

  lemma {:induction false} DigitsStop(digits: seq<byte>, tail: seq<byte>, value: nat)
    requires AllDigits(digits) && (tail != [] ==> !IsDigit(tail[0]))
    ensures Digits(digits + tail, value) == Digits(digits, value)
    decreases |digits|
  {
    if digits == [] {
      assert digits + tail == tail;
    } else {
      assert (digits + tail)[1..] == digits[1..] + tail;
      DigitsStop(digits[1..], tail, 10 * value + (digits[0] - 48));
    }
  }

  lemma {:induction false} DigitsAreNumber(digits: seq<byte>)
    requires AllDigits(digits)
    ensures Digits(digits, 0) == NumberOf(digits)
  {
    if digits != [] {
      var n := |digits| - 1;
      DigitsAreNumber(digits[..n]);
      DigitsAppend(digits[..n], digits[n], 0);
      assert digits[..n] + [digits[n]] == digits;
    }
  }

  /** White space, a sign or none, digits and anything after them: the number, or nothing
      when 64 bits do not hold it. */
  lemma StollReads(white: seq<byte>, sign: seq<byte>, digits: seq<byte>, tail: seq<byte>)
    requires AllWhite(white) && (sign == [] || sign == [43] || sign == [45])
    requires digits != [] && AllDigits(digits) && (tail != [] ==> !(48 <= tail[0] <= 57))
    ensures var v := if sign == [45] then -NumberOf(digits) else NumberOf(digits);
            Stoll(white + (sign + (digits + tail)))
            == if -9223372036854775808 <= v <= 9223372036854775807 then Some(v) else None
  {
    var rest := sign + (digits + tail);
    DropsWhite(white, rest);
    DigitsStop(digits, tail, 0);
    DigitsAreNumber(digits);
    if sign == [] {
      assert rest == digits + tail;
    } else {
      assert rest[1..] == digits + tail;
    }
  }

  /** Without a digit where one is due there is no number. */
  lemma StollThrows(white: seq<byte>, sign: seq<byte>, tail: seq<byte>)
    requires AllWhite(white) && (sign == [43] || sign == [45])
    requires tail != [] ==> !(48 <= tail[0] <= 57)
    ensures Stoll(white + (sign + tail)) == None
    ensures (tail != [] ==> !IsWhite(tail[0]) && tail[0] != 43 && tail[0] != 45) ==> Stoll(white + tail) == None
  {
    DropsWhite(white, sign + tail);
    assert (sign + tail)[1..] == tail;
    if tail != [] ==> !IsWhite(tail[0]) {
      DropsWhite(white, tail);
    }
  }

  lemma {:induction false} SkipsTo(s: seq<byte>, from: nat, at: nat)
    requires from <= at <= |s| && (forall j :: from <= j < at ==> s[j] == 32) && (at < |s| ==> s[at] != 32)
    ensures SkipSpaces(s, from) == at
    decreases at - from
  {
    if from < at {
      SkipsTo(s, from + 1, at);
    }
  }

  lemma {:induction false} NeverEnds(s: seq<byte>, from: nat)
    requires forall j :: from <= j < |s| ==> s[j] != 44 && s[j] != 125
    ensures FindValueEnd(s, from) == None
    decreases |s| - from
  {
    if from < |s| {
      NeverEnds(s, from + 1);
    }
  }

  lemma {:induction false} NeverOccurs(s: seq<byte>, key: seq<byte>, from: nat)
    requires key != [] && forall j :: from <= j ==> !Occurs(s, key, j)
    ensures Find(s, key, from) == None
    decreases |s| - from
  {
    if from + |key| <= |s| {
      NeverOccurs(s, key, from + 1);
    }
  }

  /** Where a value lies: spaces skipped, up to a comma, a brace or the end. */
  lemma ValueIs(s: seq<byte>, from: nat, at: nat, end: nat)
    requires from <= at <= end <= |s|
    requires (forall j :: from <= j < at ==> s[j] == 32) && (at < |s| ==> s[at] != 32)
    requires forall j :: at <= j < end ==> s[j] != 44 && s[j] != 125
    requires end < |s| ==> s[end] == 44 || s[end] == 125
    ensures ValueText(s, from) == s[at..end]
  {
    SkipsTo(s, from, at);
    if end < |s| {
      ValueEndsAt(s, at, end);
    } else {
      NeverEnds(s, at);
    }
  }

  lemma OccursOne(s: seq<byte>, b: byte, j: nat)
    ensures Occurs(s, [b], j) <==> j < |s| && s[j] == b
  {
    if Occurs(s, [b], j) {
      assert s[j + 0] == [b][0];
    }
    if j < |s| && s[j] == b {
      assert forall k :: 0 <= k < 1 ==> s[j + k] == [b][k];
    }
  }

  lemma ColonAt(s: seq<byte>, from: nat, colon: nat)
    requires from <= colon < |s| && s[colon] == 58 && forall j :: from <= j < colon ==> s[j] != 58
    ensures Find(s, [COLON], from) == Some(colon)
  {
    forall j: nat | from <= j <= colon
      ensures Occurs(s, [COLON], j) <==> j == colon
    {
      OccursOne(s, COLON, j);
    }
    FindAt(s, [COLON], from, colon);
  }

  lemma ColonValue(s: seq<byte>, from: nat, colon: nat)
    requires colon < |s| && Find(s, [COLON], from) == Some(colon)
    ensures ValueAfterColon(s, from) == OrZero(Stoll(ValueText(s, colon + 1)))
  {
  }

  /** In any layout: the number behind the first colon, spaces skipped, up to a comma, a
      brace or the end; 0 where that is no number. */
  lemma ValueBehind(s: seq<byte>, from: nat, colon: nat, value: nat, end: nat)
    requires from <= colon < value <= end <= |s| && s[colon] == 58
    requires forall j :: from <= j < colon ==> s[j] != 58
    requires (forall j :: colon < j < value ==> s[j] == 32) && (value < |s| ==> s[value] != 32)
    requires forall j :: value <= j < end ==> s[j] != 44 && s[j] != 125
    requires end < |s| ==> s[end] == 44 || s[end] == 125
    ensures ValueAfterColon(s, from) == if Stoll(s[value..end]).Some? then Stoll(s[value..end]).value else 0
  {
    ColonAt(s, from, colon);
    ColonValue(s, from, colon);
    ValueIs(s, colon + 1, value, end);
  }

  /** Without the key the field is 0. */
  lemma FieldWithoutKey(s: seq<byte>, key: seq<byte>)
    requires key != [] && forall j :: 0 <= j ==> !Occurs(s, key, j)
    ensures Field(s, key) == 0
  {
    NeverOccurs(s, key, 0);
  }

  /** Without a colon behind its key it is 0 as well. */
  lemma FieldWithoutColon(s: seq<byte>, key: seq<byte>, at: nat)
    requires Occurs(s, key, at) && forall j :: 0 <= j < at ==> !Occurs(s, key, j)
    requires forall j :: at + |key| <= j < |s| ==> s[j] != 58
    ensures Field(s, key) == 0
  {
    NoColonFrom(s, at + |key|);
    FindAt(s, key, 0, at);
    ZeroBehindKey(s, key, at);
  }

  lemma ZeroBehindKey(s: seq<byte>, key: seq<byte>, at: nat)
    requires Find(s, key, 0) == Some(at) && ValueAfterColon(s, at + |key|) == 0
    ensures Field(s, key) == 0
  {
    FieldIsBehindKey(s, key, at);
  }

  lemma NoColonFrom(s: seq<byte>, from: nat)
    requires forall j :: from <= j < |s| ==> s[j] != 58
    ensures ValueAfterColon(s, from) == 0
  {
    forall j: nat | from <= j
      ensures !Occurs(s, [COLON], j)
    {
      OccursOne(s, COLON, j);
    }
    NeverOccurs(s, [COLON], from);
  }

  /** A key can only occur where its opening quote does, followed by its first letter. */
  lemma KeyStartsWithQuote(s: seq<byte>, key: seq<byte>, at: nat)
    requires |key| >= 2 && at < |s| && (s[at] != key[0] || at + 1 >= |s| || s[at + 1] != key[1])
    ensures !Occurs(s, key, at)
  {
    if Occurs(s, key, at) {
      OccursHead(s, key, at);
    }
  }

  lemma OccursHead(s: seq<byte>, key: seq<byte>, at: nat)
    requires |key| >= 2 && Occurs(s, key, at)
    ensures s[at] == key[0] && s[at + 1] == key[1]
  {
    assert s[at + 0] == key[0];
  }

  /** Both timestamps a sender prints are the ones the receiver reads. */
  lemma FieldsReadBack(cap: nat, snd: nat)
    requires cap <= INT64_MAX && snd <= INT64_MAX
    ensures Field(Prefix(cap, snd), CAP_KEY) == cap
    ensures Field(Prefix(cap, snd), SND_KEY) == snd
  {
    CapReadsBack(cap, snd);
    SndReadsBack(cap, snd);
  }

  lemma CapReadsBack(cap: nat, snd: nat)
    requires cap <= INT64_MAX
    ensures Field(Prefix(cap, snd), CAP_KEY) == cap
  {
    var s := Prefix(cap, snd);
    var d := Decimal(cap);
    KeyStartsWithQuote(s, CAP_KEY, 0);
    assert s == [OPEN_BRACE] + CAP_KEY + [COLON] + d + ([COMMA] + Tail(snd));
    assert s[7..7 + |d|] == d && s[7 + |d|] == COMMA;
    FindAt(s, CAP_KEY, 0, 1);
    FieldIsBehindKey(s, CAP_KEY, 1);
    ColonThenValue(s, 6, cap);
  }

  /** The bytes in front of the second key, and the bytes from it on. */
  function Head(cap: nat): seq<byte> {
    [OPEN_BRACE] + CAP_KEY + [COLON] + Decimal(cap) + [COMMA]
  }

  function Tail(snd: nat): seq<byte> {
    SND_KEY + [COLON] + Decimal(snd) + [CLOSE_BRACE]
  }

  /** No byte of the first half starts the second key. */
  lemma HeadHasNoSndKey(cap: nat, tail: seq<byte>, j: nat)
    requires j < |Head(cap)|
    ensures !Occurs(Head(cap) + tail, SND_KEY, j)
  {
    var c := Decimal(cap);
    var s := Head(cap) + tail;
    if 7 <= j < 7 + |c| {
      assert s[j] == c[j - 7] && IsDigit(c[j - 7]);
    }
    KeyStartsWithQuote(s, SND_KEY, j);
  }

  lemma SndReadsBack(cap: nat, snd: nat)
    requires snd <= INT64_MAX
    ensures Field(Prefix(cap, snd), SND_KEY) == snd
  {
    var head, tail := Head(cap), Tail(snd);
    var s := head + tail;
    assert Prefix(cap, snd) == s;
    forall j: nat | j < |head|
      ensures !Occurs(s, SND_KEY, j)
    {
      HeadHasNoSndKey(cap, tail, j);
    }
    FieldAfter(head, snd);
  }

  /** Where the second field's pieces lie behind any head. */
  lemma TailLayout(head: seq<byte>, snd: nat)
    ensures var s, at, d := head + Tail(snd), |head|, Decimal(snd);
            && Occurs(s, SND_KEY, at) && Occurs(s, [COLON], at + 5) && Occurs(s, d, at + 6)
            && at + 6 + |d| < |s| && EndsValue(s[at + 6 + |d|])
  {
    var s, tail, at, d := head + Tail(snd), Tail(snd), |head|, Decimal(snd);
    assert forall k :: 0 <= k < |tail| ==> s[at + k] == tail[k];
    forall k | 0 <= k < |d|
      ensures s[at + 6 + k] == d[k]
    {
      assert s[at + (6 + k)] == tail[6 + k];
    }
  }

  lemma FieldAfter(head: seq<byte>, snd: nat)
    requires snd <= INT64_MAX
    requires forall j: nat :: j < |head| ==> !Occurs(head + Tail(snd), SND_KEY, j)
    ensures Field(head + Tail(snd), SND_KEY) == snd
  {
    var s := head + Tail(snd);
    TailLayout(head, snd);
    FindAt(s, SND_KEY, 0, |head|);
    FieldIsBehindKey(s, SND_KEY, |head|);
    ColonThenValue(s, |head| + 5, snd);
  }
}
