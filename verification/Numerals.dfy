/** Numbers as text: itoa, strrev and the number conversions of printf (student-distrib/lib.c), which the
    user programs repeat (syscalls/ece391support.c). */
module Numerals {
  import opened Common
  import opened CStrings
  import opened Numbers

  const ZERO: byte := 48
  const MINUS: byte := 45
  const WORD32 := 0x1_0000_0000

  // ---------------------------------------------------------------- numerals and what they denote

  /** The entry of the digit table. */
  function Lookup(d: nat): byte
    requires d < 36
  {
    if d < 10 then 48 + d else 55 + d
  }

  /** What a digit stands for, -1 for any other character. */
  function DigitOf(c: byte): int {
    if 48 <= c <= 57 then c - 48 else if 65 <= c <= 90 then c - 55 else -1
  }

  /** The digits are 0 to 9 and then the capital letters, in this order. */
  lemma DigitTable(d: nat)
    requires d < 36
    ensures Lookup(d) as int == "0123456789ABCDEFGHIJKLMNOPQRSTUVWXYZ"[d] as int
    ensures DigitOf(Lookup(d)) == d
  {
  }

  /** The number a numeral denotes. */
  function Value(s: seq<byte>, radix: int): int {
    if s == [] then 0 else Value(s[..|s| - 1], radix) * radix + DigitOf(s[|s| - 1])
  }

  /** Places further left count for more: a numeral in front of `k` digits counts radix to the k times as much. */
  lemma {:induction false} ValueJoins(a: seq<byte>, b: seq<byte>, radix: int)
    ensures Value(a + b, radix) == Value(a, radix) * Pow(radix, |b|) + Value(b, radix)
    decreases |b|
  {
    if b == [] {
      assert a + b == a && Value(b, radix) == 0;
    } else {
      var front, d := b[..|b| - 1], DigitOf(b[|b| - 1]);
      assert (a + b)[..|a + b| - 1] == a + front && (a + b)[|a + b| - 1] == b[|b| - 1];
      assert Value(a + b, radix) == Value(a + front, radix) * radix + d;
      assert Value(b, radix) == Value(front, radix) * radix + d;
      ValueJoins(a, front, radix);
      OnePlaceFurther(Value(a, radix), Pow(radix, |front|), Value(front, radix), radix);
    }
  }

  lemma OnePlaceFurther(v: int, p: int, w: int, radix: int)
    ensures (v * p + w) * radix == v * (radix * p) + w * radix
  {
    assert (v * p + w) * radix == v * p * radix + w * radix;
    assert v * p * radix == v * (p * radix) == v * (radix * p);
  }

  predicate IsRadix(radix: int) {
    2 <= radix <= 36
  }

  predicate AreDigits(s: seq<byte>, radix: int) {
    forall i :: 0 <= i < |s| ==> 0 <= DigitOf(s[i]) < radix
  }

  /** A numeral as people write it: digits, and no leading zero except in "0" itself. */
  predicate IsNumeral(s: seq<byte>, radix: int) {
    s != [] && AreDigits(s, radix) && (|s| > 1 ==> s[0] != ZERO)
  }

  lemma SmallerQuotient(v: nat, radix: int)
    requires radix >= 2
    ensures 0 <= v / radix && (v > 0 ==> v / radix < v)
  {
    DivisionLaw(v, radix);
    if v / radix < 0 {
      ScaleOrder(v / radix, 0, radix);
    }
    if v > 0 && 0 < v / radix {
      ScaleOrder(0, v / radix, radix - 1);
      assert v / radix * radix == v / radix * (radix - 1) + v / radix;
    }
  }

  /** The digits of a positive number, none for zero. */
  function Places(v: nat, radix: int): (s: seq<byte>)
    requires IsRadix(radix)
    decreases v
  {
    if v == 0 then []
    else
      SmallerQuotient(v, radix);
      Places(v / radix, radix) + [Lookup(v % radix)]
  }

  function Digits(v: nat, radix: int): (s: seq<byte>)
    requires IsRadix(radix)
  {
    if v == 0 then [ZERO] else Places(v, radix)
  }

  lemma {:induction false} PlacesReadBack(v: nat, radix: int)
    requires IsRadix(radix)
    ensures Value(Places(v, radix), radix) == v && AreDigits(Places(v, radix), radix)
    ensures v > 0 ==> IsNumeral(Places(v, radix), radix) && Places(v, radix)[0] != ZERO
    decreases v
  {
    if v > 0 {
      SmallerQuotient(v, radix);
      DivisionLaw(v, radix);
      var higher := Places(v / radix, radix);
      assert Places(v, radix)[..|higher|] == higher;
      PlacesReadBack(v / radix, radix);
      if v / radix == 0 {
        assert Places(v, radix) == [Lookup(v % radix)];
      }
    }
  }

  lemma {:induction false} LeadingDigit(s: seq<byte>, radix: int)
    requires radix >= 2 && AreDigits(s, radix) && s != [] && s[0] != ZERO
    ensures Value(s, radix) > 0
  {
    if |s| > 1 {
      LeadingDigit(s[..|s| - 1], radix);
      ScaleOrder(0, Value(s[..|s| - 1], radix), radix);
    }
  }

  lemma {:induction false} NumeralIsPlaces(s: seq<byte>, radix: int)
    requires IsRadix(radix) && AreDigits(s, radix) && s != [] && s[0] != ZERO
    ensures Value(s, radix) > 0 && s == Places(Value(s, radix), radix)
  {
    LeadingDigit(s, radix);
    var higher, d := s[..|s| - 1], DigitOf(s[|s| - 1]);
    var v, h := Value(s, radix), Value(higher, radix);
    if higher != [] {
      NumeralIsPlaces(higher, radix);
    }
    DivisionLaw(v, radix);
    UniqueDigits(v / radix, v % radix, h, d, radix);
    assert s == higher + [Lookup(d)];
  }

  lemma UniqueDigits(q: int, r: int, h: int, d: int, radix: int)
    requires q * radix + r == h * radix + d && 0 <= r < radix && 0 <= d < radix
    ensures q == h && r == d
  {
    if q < h {
      ScaleOrder(q, h, radix);
    } else if h < q {
      ScaleOrder(h, q, radix);
    }
  }

  /** Writing and reading undo each other: the digits of a number are the one numeral that denotes it. */
  lemma DigitsIff(s: seq<byte>, v: nat, radix: int)
    requires IsRadix(radix)
    ensures s == Digits(v, radix) <==> IsNumeral(s, radix) && Value(s, radix) == v
  {
    PlacesReadBack(v, radix);
    assert Value([ZERO], radix) == Value([], radix) * radix;
    if IsNumeral(s, radix) && Value(s, radix) == v {
      if s[0] == ZERO {
        assert s == [ZERO];
      } else {
        NumeralIsPlaces(s, radix);
      }
    }
  }

  // ---------------------------------------------------------------- how many digits

  lemma QuotientBelow(v: nat, radix: int, b: int)
    requires radix > 0
    ensures v / radix < b <==> v < radix * b
  {
    DivisionLaw(v, radix);
    if v / radix < b {
      ScaleOrder(v / radix, b, radix);
    } else if b < v / radix {
      ScaleOrder(b, v / radix, radix);
    }
  }

  lemma {:induction false} PlacesCount(v: nat, radix: int, k: nat)
    requires IsRadix(radix)
    ensures |Places(v, radix)| <= k <==> v < Pow(radix, k)
    decreases k
  {
    if k > 0 {
      if v == 0 {
        PlacesCount(0, radix, k - 1);
        ScaleOrder(0, Pow(radix, k - 1), radix);
      } else {
        SmallerQuotient(v, radix);
        PlacesCount(v / radix, radix, k - 1);
        QuotientBelow(v, radix, Pow(radix, k - 1));
      }
    }
  }

  /** A number has at most `k` digits exactly when it is below the k-th power of the radix. */
  lemma DigitCountIff(v: nat, radix: int, k: nat)
    requires IsRadix(radix) && k > 0
    ensures |Digits(v, radix)| <= k <==> v < Pow(radix, k)
  {
    PlacesCount(v, radix, k);
  }

  lemma {:induction false} PowGrows(radix: int, k: nat)
    requires radix >= 2
    ensures 1 <= Pow(2, k) <= Pow(radix, k)
  {
    if k > 0 {
      PowGrows(radix, k - 1);
      var a, b := Pow(2, k - 1), Pow(radix, k - 1);
      assert radix * b == 2 * b + (radix - 2) * b && (radix - 2) * b >= 0;
    }
  }

  /** 32 digits are enough for every unsigned 32-bit number in every radix. */
  lemma AtMost32Digits(v: nat, radix: int)
    requires IsRadix(radix) && v < WORD32
    ensures 1 <= |Digits(v, radix)| <= 32
  {
    PowGrows(radix, 32);
    assert Pow(2, 12) == 0x1000 && Pow(2, 22) == 0x40_0000 && Pow(2, 32) == WORD32;
    DigitCountIff(v, radix, 32);
    if v > 0 {
      PlacesReadBack(v, radix);
    }
  }

  lemma {:induction false} ZerosInFront(k: nat, s: seq<byte>, radix: int)
    requires radix >= 2 && AreDigits(s, radix)
    ensures Value(seq(k, _ => ZERO) + s, radix) == Value(s, radix)
    ensures AreDigits(seq(k, _ => ZERO) + s, radix)
    decreases k + |s|
  {
    var zeros: seq<byte> := seq(k, _ => ZERO);
    var t := zeros + s;
    if s != [] {
      assert t[..|t| - 1] == zeros + s[..|s| - 1];
      ZerosInFront(k, s[..|s| - 1], radix);
    } else if k > 0 {
      var fewer: seq<byte> := seq(k - 1, _ => ZERO);
      assert t[..|t| - 1] == fewer + s;
      ZerosInFront(k - 1, s, radix);
    }
  }

  // ---------------------------------------------------------------- strings in a buffer

  /** The C string `t` is stored from index `start` on. */
  predicate Holds(buf: seq<byte>, start: nat, t: seq<byte>) {
    && start + |t| < |buf| && NUL !in t
    && (forall k :: 0 <= k < |t| ==> buf[start + k] == t[k])
    && buf[start + |t|] == NUL
  }

  function Backwards(s: seq<byte>): (r: seq<byte>)
    ensures |r| == |s| && forall i :: 0 <= i < |r| ==> r[i] == s[|s| - 1 - i]
  {
    seq(|s|, i requires 0 <= i < |s| => s[|s| - 1 - i])
  }

  /** strlen. */
  method StrLen(buf: array<byte>, start: nat, ghost t: seq<byte>) returns (n: nat)
    requires Holds(buf[..], start, t)
    ensures n == |t|
  {
    n := 0;
    while buf[start + n] != NUL
      invariant n <= |t| && buf[start + n] == At(t, n)
      decreases |t| - n
    {
      n := n + 1;
    }
  }

  /** puts: the characters it prints. */
  method Puts(buf: array<byte>, start: nat, ghost t: seq<byte>) returns (text: seq<byte>)
    requires Holds(buf[..], start, t)
    ensures text == t
  {
    text := [];
    while buf[start + |text|] != NUL
      invariant text <= t && buf[start + |text|] == At(t, |text|)
      decreases |t| - |text|
    {
      text := text + [buf[start + |text|]];
    }
  }

  /** strrev: reverses a string where it stands. */
  method StrRev(buf: array<byte>, start: nat, ghost t: seq<byte>)
    requires Holds(buf[..], start, t)
    modifies buf
    ensures Holds(buf[..], start, Backwards(t))
    ensures forall k :: 0 <= k < buf.Length && !(start <= k < start + |t|) ==> buf[k] == old(buf[k])
  {
    var n := StrLen(buf, start, t);
    var beg: int, end: int := 0, n - 1;
    while beg < end
      invariant 0 <= beg && beg + end == n - 1
      invariant forall k :: 0 <= k < n && !(beg <= k <= end) ==> buf[start + k] == Backwards(t)[k]
      invariant forall k :: beg <= k <= end ==> buf[start + k] == t[k]
      invariant forall k :: 0 <= k < buf.Length && !(start <= k < start + n) ==> buf[k] == old(buf[k])
    {
      buf[start + end], buf[start + beg] := buf[start + beg], buf[start + end];
      beg, end := beg + 1, end - 1;
    }
  }

  // ---------------------------------------------------------------- itoa

  lemma BackwardsJoin(s: seq<byte>, c: byte)
    ensures Backwards(s + [c]) == [c] + Backwards(s)
  {
  }

  lemma PlacesSplit(v: nat, radix: int, written: seq<byte>)
    requires IsRadix(radix) && v > 0
    ensures v / radix >= 0
    ensures Places(v, radix) + Backwards(written)
            == Places(v / radix, radix) + Backwards(written + [Lookup(v % radix)])
  {
    SmallerQuotient(v, radix);
    BackwardsJoin(written, Lookup(v % radix));
    var a, b, c := Places(v / radix, radix), [Lookup(v % radix)], Backwards(written);
    assert a + b + c == a + (b + c);
  }

  /** itoa, and ece391_itoa: the digits of an unsigned 32-bit number as a string. */
  method Itoa(value: nat, buf: array<byte>, start: nat, radix: int)
    requires IsRadix(radix) && value < WORD32 && start + |Digits(value, radix)| < buf.Length
    modifies buf
    ensures Holds(buf[..], start, Digits(value, radix))
    ensures forall k :: 0 <= k < buf.Length && !(start <= k <= start + |Digits(value, radix)|) ==> buf[k] == old(buf[k])
  {
    if value == 0 {
      buf[start], buf[start + 1] := ZERO, NUL;
      return;
    }
    var p, newval := start, value;
    ghost var written: seq<byte> := [];
    while newval > 0
      invariant newval >= 0 && p == start + |written| && NUL !in written
      invariant Places(value, radix) == Places(newval, radix) + Backwards(written)
      invariant forall k :: 0 <= k < |written| ==> buf[start + k] == written[k]
      invariant forall k :: 0 <= k < buf.Length && !(start <= k < p) ==> buf[k] == old(buf[k])
      decreases newval
    {
      SmallerQuotient(newval, radix);
      DivisionLaw(newval, radix);
      PlacesSplit(newval, radix, written);
      hide Places, Backwards, Lookup, Digits;
      buf[p] := Lookup(newval % radix);
      written := written + [Lookup(newval % radix)];
      p := p + 1;
      newval := newval / radix;
    }
    buf[p] := NUL;
    StrRev(buf, start, written);
  }

  // ---------------------------------------------------------------- printf

  /** %x and %u: the digits of the number. */
  method FormatUnsigned(value: nat, radix: int) returns (text: seq<byte>)
    requires value < WORD32 && (radix == 10 || radix == 16)
    ensures IsNumeral(text, radix) && Value(text, radix) == value
  {
    var convBuf := new byte[36];
    AtMost32Digits(value, radix);
    Itoa(value, convBuf, 0, radix);
    text := Puts(convBuf, 0, Digits(value, radix));
    DigitsIff(text, value, radix);
  }

  function Aligned(value: nat): (text: seq<byte>)
    requires |Digits(value, 16)| <= 8
  {
    var digits := Digits(value, 16);
    seq(8 - |digits|, _ => ZERO) + digits
  }

  lemma AlignedReadsBack(value: nat)
    requires value < WORD32
    ensures |Digits(value, 16)| <= 8
    ensures |Aligned(value)| == 8 && AreDigits(Aligned(value), 16) && Value(Aligned(value), 16) == value
  {
    assert Pow(16, 8) == WORD32;
    DigitCountIff(value, 16, 8);
    DigitsIff(Digits(value, 16), value, 16);
    ZerosInFront(8 - |Digits(value, 16)|, Digits(value, 16), 16);
  }

  /** %#x: always exactly 8 digits, of the same number. The digits go to index 8 of the buffer, so that
      padding from as many places further left as there are digits up to index 8 makes 8 in all. */
  method FormatAligned(value: nat) returns (text: seq<byte>)
    requires value < WORD32
    ensures |text| == 8 && AreDigits(text, 16) && Value(text, 16) == value
  {
    AlignedReadsBack(value);
    var convBuf := new byte[64];
    ghost var digits := Digits(value, 16);
    Itoa(value, convBuf, 8, 16);
    var start := StrLen(convBuf, 8, digits);
    var i := start;
    while i < 8
      invariant start <= i <= 8
      invariant forall k :: start <= k < i ==> convBuf[k] == ZERO
      invariant Holds(convBuf[..], 8, digits)
    {
      convBuf[i] := ZERO;
      i := i + 1;
    }
    text := Puts(convBuf, start, Aligned(value));
  }

  /** Negation of a signed 32-bit number as the machine does it, then seen as unsigned. */
  function Negated(value: int): (r: nat)
    requires -0x8000_0000 <= value < 0
    ensures r == -value
  {
    (-value) % WORD32
  }

  /** The number a signed decimal denotes. */
  function SignedValue(s: seq<byte>): int {
    if s != [] && s[0] == MINUS then -Value(s[1..], 10) else Value(s, 10)
  }

  function SignedDigits(value: int): seq<byte>
    requires -0x8000_0000 <= value
  {
    if value < 0 then [MINUS] + Digits(Negated(value), 10) else Digits(value, 10)
  }

  /** A signed decimal as people write it. */
  predicate IsSignedNumeral(s: seq<byte>) {
    if s != [] && s[0] == MINUS then IsNumeral(s[1..], 10) && s[1] != ZERO else IsNumeral(s, 10)
  }

  lemma SignedReadsBack(value: int)
    requires -0x8000_0000 <= value < 0x8000_0000
    ensures 1 <= |SignedDigits(value)| <= 33
    ensures SignedValue(SignedDigits(value)) == value && IsSignedNumeral(SignedDigits(value))
    ensures SignedDigits(value)[0] as int == '-' as int <==> value < 0
  {
    if value < 0 {
      DecimalFacts(Negated(value));
      WithSign(Digits(Negated(value), 10));
    } else {
      DecimalFacts(value);
      WithSign(Digits(value, 10));
    }
  }

  lemma WithSign(s: seq<byte>)
    requires IsNumeral(s, 10) && s[0] != MINUS
    ensures SignedValue(s) == Value(s, 10) && IsSignedNumeral(s)
    ensures SignedValue([MINUS] + s) == -Value(s, 10)
    ensures IsSignedNumeral([MINUS] + s) <==> s[0] != ZERO
  {
    assert ([MINUS] + s)[1..] == s;
  }

  lemma DecimalFacts(v: nat)
    requires v < WORD32
    ensures var digits := Digits(v, 10);
      && 1 <= |digits| <= 32 && IsNumeral(digits, 10) && Value(digits, 10) == v
      && digits[0] != MINUS && (v > 0 ==> digits[0] != ZERO)
  {
    AtMost32Digits(v, 10);
    DigitsIff(Digits(v, 10), v, 10);
    PlacesReadBack(v, 10);
    assert DigitOf(Digits(v, 10)[0]) >= 0;
  }

  /** %d: the signed decimal, without a leading zero, that denotes the number, the least one included. */
  method FormatSigned(value: int) returns (text: seq<byte>)
    requires -0x8000_0000 <= value < 0x8000_0000
    ensures SignedValue(text) == value && IsSignedNumeral(text)
    ensures text != [] && (text[0] as int == '-' as int <==> value < 0)
  {
    SignedReadsBack(value);
    hide Digits, IsSignedNumeral, SignedValue;
    var convBuf := new byte[36];
    if value < 0 {
      convBuf[0] := MINUS;
      Itoa(Negated(value), convBuf, 1, 10);
    } else {
      Itoa(value, convBuf, 0, 10);
    }
    text := Puts(convBuf, 0, SignedDigits(value));
  }
}
