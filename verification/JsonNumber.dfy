/**
 Integers of the JSON layer (libdtuconfigure/jsoncpp.cpp): printing into a character buffer and the
 overflow-guarded decoding loop. Every 64-bit intermediate value is checked to stay in its type.
 */
module JsonNumber {

  const MAX_UINT64: int := 0xFFFF_FFFF_FFFF_FFFF
  const MAX_INT64: int := 0x7FFF_FFFF_FFFF_FFFF
  const MIN_INT64: int := -0x8000_0000_0000_0000
  const BUFFER_SIZE: nat := 25

  type uint64 = v: int | 0 <= v <= MAX_UINT64
  type int64 = v: int | MIN_INT64 <= v <= MAX_INT64

  predicate IsDigit(c: char) { '0' <= c <= '9' }

  predicate AllDigits(t: string) { forall k :: 0 <= k < |t| ==> IsDigit(t[k]) }

  function DigitValue(c: char): nat
    requires IsDigit(c)
  {
    c as int - '0' as int
  }

  /** The number a string of decimal digits denotes. */
  function Magnitude(t: string): nat
    requires AllDigits(t)
  {
    if t == "" then 0 else Magnitude(t[..|t| - 1]) * 10 + DigitValue(t[|t| - 1])
  }

  datatype Number = Integer(value: int) | Double

  predicate Negative(text: string) { text != "" && text[0] == '-' }

  function Unsigned(text: string): string { if Negative(text) then text[1..] else text }

  /** What decodeNumber must do: the exact integer when the text is one that fits, decodeDouble otherwise. */
  function DecodeNumber(text: string): Number {
    var body := Unsigned(text);
    if !AllDigits(body) then Double
    else
      var value: int := if Negative(text) then -(Magnitude(body) as int) else Magnitude(body);
      if MIN_INT64 <= value <= MAX_UINT64 then Integer(value) else Double
  }

  lemma {:induction false} LongerIsTenfold(t: string, n: nat)
    requires AllDigits(t) && n < |t|
    ensures Magnitude(t) >= Magnitude(t[..n]) * 10 + DigitValue(t[n])
    ensures n + 1 < |t| ==> Magnitude(t) >= 10 * (Magnitude(t[..n]) * 10 + DigitValue(t[n]))
    decreases |t|
  {
    var u := t[..|t| - 1];
    if n < |u| {
      LongerIsTenfold(u, n);
      assert u[..n] == t[..n];
    } else {
      assert u == t[..n];
    }
  }

  lemma NextDigit(t: string, k: nat)
    requires k < |t| && AllDigits(t[..k])
    ensures AllDigits(t[..k + 1]) <==> IsDigit(t[k])
    ensures !IsDigit(t[k]) ==> !AllDigits(t)
    ensures IsDigit(t[k]) ==>
      DigitValue(t[k]) < 10 && Magnitude(t[..k + 1]) == Magnitude(t[..k]) * 10 + DigitValue(t[k])
  {
    assert t[..k + 1][..k] == t[..k];
    assert AllDigits(t[..k + 1]) ==> IsDigit(t[..k + 1][k]);
  }

  /** The loop of decodeNumber, with the thresholds as the source computes them. */
  method DecodeNumberLoop(text: string) returns (decoded: Number)
    requires text != ""
    ensures decoded == DecodeNumber(text)
  {
    var current := 0;
    var isNegative := text[current] == '-';
    if isNegative {
      current := current + 1;
    }
    ghost var body := Unsigned(text);
    ghost var first := current;
    var threshold: uint64 := if isNegative then -MIN_INT64 / 10 else MAX_UINT64 / 10;
    var maxLastDigit := if isNegative then -MIN_INT64 % 10 else MAX_UINT64 % 10;
    var value: uint64 := 0;
    while current < |text|
      invariant first <= current <= |text|
      invariant body == text[first..]
      invariant AllDigits(body[..current - first]) && value == Magnitude(body[..current - first])
      invariant value <= (if isNegative then -MIN_INT64 else MAX_UINT64)
    {
      var c := text[current];
      ghost var k := current - first;
      assert c == body[k] && k < |body|;
      hide IsDigit, AllDigits, Magnitude, DigitValue, Unsigned;
      NextDigit(body, k);
      current := current + 1;
      if !IsDigit(c) {
        return Double;
      }
      var digit := DigitValue(c);
      if value >= threshold {
        if value > threshold || current != |text| || digit > maxLastDigit {
          if AllDigits(body) {
            LongerIsTenfold(body, k);
          }
          return Double;
        }
      }
      value := value * 10 + digit;
    }
    assert body[..|body|] == body;
    hide AllDigits, Magnitude;
    if isNegative {
      var lastDigit: int64 := value % 10;
      var tens: int64 := -(value / 10);
      var product: int64 := tens * 10;
      var result: int64 := product - lastDigit;
      decoded := Integer(result);
    } else {
      decoded := Integer(value);
    }
  }

  // ---------------------------------------------------------------- printing

  function DigitChar(d: nat): (c: char)
    requires d < 10
    ensures IsDigit(c) && DigitValue(c) == d
  {
    ('0' as int + d) as char
  }

  function UIntText(v: nat): (t: string)
    ensures t != "" && AllDigits(t)
  {
    if v < 10 then [DigitChar(v)] else UIntText(v / 10) + [DigitChar(v % 10)]
  }

  /** valueToString of both widths. */
  function IntText(v: int): string { if v < 0 then "-" + UIntText(-v) else UIntText(v) }

  function Pow10(k: nat): nat { if k == 0 then 1 else 10 * Pow10(k - 1) }

  lemma {:induction false} TextLength(v: nat, k: nat)
    requires k > 0 && v < Pow10(k)
    ensures |UIntText(v)| <= k
    decreases k
  {
    if v >= 10 {
      TextLength(v / 10, k - 1);
    }
  }

  lemma AtMostTwentyDigits(v: uint64)
    ensures |UIntText(v)| <= 20
  {
    assert Pow10(5) == 100_000;
    assert Pow10(10) == 10_000_000_000;
    assert Pow10(15) == 1_000_000_000_000_000;
    assert Pow10(20) == 100_000_000_000_000_000_000;
    TextLength(v, 20);
  }

  /** The buffer holds t from position current on. */
  predicate Holds(buffer: array<char>, current: int, t: string)
    reads buffer
  {
    0 <= current && current + |t| <= buffer.Length && forall k :: 0 <= k < |t| ==> buffer[current + k] == t[k]
  }

  function Shorter(v: nat): string { if v == 0 then "" else UIntText(v) }

  lemma ShorterOfZero()
    ensures Shorter(0) == ""
  {
  }

  lemma LastDigit(v: nat, written: string)
    ensures UIntText(v) + written == Shorter(v / 10) + ([DigitChar(v % 10)] + written)
  {
    assert UIntText(v) == Shorter(v / 10) + [DigitChar(v % 10)];
    assert (Shorter(v / 10) + [DigitChar(v % 10)]) + written == Shorter(v / 10) + ([DigitChar(v % 10)] + written);
  }

  /** uintToString: writes the digits and a terminating zero downwards from start. */
  method UIntToString(value: uint64, buffer: array<char>, start: nat) returns (current: nat)
    requires BUFFER_SIZE <= start <= buffer.Length
    modifies buffer
    ensures current == start - 1 - |UIntText(value)| && start - 21 <= current
    ensures Holds(buffer, current, UIntText(value)) && buffer[start - 1] == '\0'
    ensures forall k :: 0 <= k < current || start <= k < buffer.Length ==> buffer[k] == old(buffer[k])
  {
    hide UIntText;
    AtMostTwentyDigits(value);
    ShorterOfZero();
    current := start - 1;
    buffer[current] := '\0';
    var rest: nat := value;
    current := current - 1;
    buffer[current] := DigitChar(rest % 10);
    ghost var written := [DigitChar(rest % 10)];
    LastDigit(value, "");
    assert UIntText(value) + "" == UIntText(value) && [DigitChar(value % 10)] + "" == written;
    rest := rest / 10;
    while rest != 0
      invariant current + |written| + 1 == start
      invariant UIntText(value) == Shorter(rest) + written
      invariant Holds(buffer, current, written) && buffer[start - 1] == '\0'
      invariant forall k :: 0 <= k < current || start <= k < buffer.Length ==> buffer[k] == old(buffer[k])
    {
      LastDigit(rest, written);
      current := current - 1;
      buffer[current] := DigitChar(rest % 10);
      written := [DigitChar(rest % 10)] + written;
      rest := rest / 10;
    }
    assert "" + written == written;
  }

  method ValueToString(value: int64) returns (text: string)
    ensures text == IntText(value)
  {
    hide UIntText;
    var buffer := new char[BUFFER_SIZE];
    var magnitude: uint64 := if value == MIN_INT64 then MAX_INT64 + 1 else if value < 0 then -value else value;
    var current := UIntToString(magnitude, buffer, BUFFER_SIZE);
    ghost var digits := buffer[current..BUFFER_SIZE - 1];
    assert digits == UIntText(magnitude);
    if value < 0 {
      current := current - 1;
      buffer[current] := '-';
      assert buffer[current..BUFFER_SIZE - 1] == "-" + digits;
    }
    text := buffer[current..BUFFER_SIZE - 1];
  }

  method ValueToStringUnsigned(value: uint64) returns (text: string)
    ensures text == IntText(value)
  {
    var buffer := new char[BUFFER_SIZE];
    var current := UIntToString(value, buffer, BUFFER_SIZE);
    text := buffer[current..BUFFER_SIZE - 1];
  }

  // ---------------------------------------------------------------- decoding inverts printing

  lemma {:induction false} MagnitudeOfText(v: nat)
    ensures Magnitude(UIntText(v)) == v
  {
    var t := UIntText(v);
    if v < 10 {
      assert t[..0] == "";
    } else {
      MagnitudeOfText(v / 10);
      assert t[..|t| - 1] == UIntText(v / 10);
    }
  }

  lemma NumberRoundTrip(v: int)
    ensures DecodeNumber(IntText(v)) == Integer(v) <==> MIN_INT64 <= v <= MAX_UINT64
  {
    if v < 0 {
      MagnitudeOfText(-v);
      assert Unsigned(IntText(v)) == UIntText(-v);
    } else {
      MagnitudeOfText(v);
      assert UIntText(v)[0] != '-';
    }
  }

  // ---------------------------------------------------------------- what digits denote

  /** Digits count by tens: what stands before another |t| digits counts ten to that power. */
  lemma {:induction false} MagnitudeJoins(s: string, t: string)
    requires AllDigits(s) && AllDigits(t)
    ensures AllDigits(s + t) && Magnitude(s + t) == Magnitude(s) * Pow10(|t|) + Magnitude(t)
    decreases |t|
  {
    if t == "" {
      assert s + t == s;
    } else {
      var (init, last) := (t[..|t| - 1], t[|t| - 1]);
      MagnitudeJoins(s, init);
      assert t == init + [last];
      LastCounts(init, last);
      assert s + (init + [last]) == s + init + [last];
      LastCounts(s + init, last);
      hide Magnitude, AllDigits, DigitValue;
      TensMultiply(Magnitude(s), Pow10(|init|));
      assert Pow10(|t|) == 10 * Pow10(|init|);
    }
  }

  lemma LastCounts(init: string, last: char)
    requires AllDigits(init) && IsDigit(last)
    ensures AllDigits(init + [last]) && Magnitude(init + [last]) == Magnitude(init) * 10 + DigitValue(last)
  {
    var t := init + [last];
    assert t[..|t| - 1] == init && t[|t| - 1] == last;
  }

  lemma TensMultiply(a: nat, b: nat)
    ensures a * b * 10 == a * (10 * b)
  {
  }

  lemma OneDigit(c: char)
    requires '0' <= c <= '9'
    ensures AllDigits([c]) && Magnitude([c]) == c as int - 48
  {
    assert [c][..0] == "";
  }

  lemma {:induction false} LeadingDigitCounts(t: string)
    requires AllDigits(t) && t != "" && t[0] != '0'
    ensures Magnitude(t) > 0
    decreases |t|
  {
    if |t| > 1 {
      LeadingDigitCounts(t[..|t| - 1]);
    }
  }

  /** Digits without a needless zero in front are exactly what is printed for the number they denote. */
  lemma {:induction false} TextOfMagnitude(t: string)
    requires AllDigits(t) && t != "" && (|t| > 1 ==> t[0] != '0')
    ensures UIntText(Magnitude(t)) == t
    decreases |t|
  {
    var (init, last) := (t[..|t| - 1], t[|t| - 1]);
    assert t == init + [last];
    if init == "" {
      assert t[..0] == "";
    } else {
      LeadingDigitCounts(init);
      TextOfMagnitude(init);
      assert Magnitude(t) / 10 == Magnitude(init) && DigitChar(Magnitude(t) % 10) == last;
    }
  }

  /** Digits, or a minus sign and digits, denote a number. */
  predicate Denotes(text: string, v: int) {
    || (AllDigits(text) && v == Magnitude(text))
    || (text != "" && text[0] == '-' && AllDigits(text[1..]) && v == -(Magnitude(text[1..]) as int))
  }

  /** A text decodes to an integer exactly if it denotes it and it fits 64 bits, signed or unsigned. */
  lemma DecodesExactly(text: string, v: int)
    ensures DecodeNumber(text) == Integer(v) <==>
              Denotes(text, v) && -9223372036854775808 <= v <= 18446744073709551615
  {
    if text != "" && text[0] == '-' {
      assert !IsDigit(text[0]);
    }
  }

  /** At least one digit, no zero in front of another digit, and no minus sign in front of zero. */
  predicate IsShortest(text: string) {
    var digits := if text != "" && text[0] == '-' then text[1..] else text;
    && digits != "" && (|digits| > 1 ==> digits[0] != '0')
    && (digits == "0" ==> text == digits)
  }

  lemma {:induction false} NoLeadingZero(v: nat)
    ensures UIntText(v)[0] == '0' <==> v == 0
    ensures v == 0 ==> UIntText(v) == "0"
  {
    if v >= 10 {
      NoLeadingZero(v / 10);
    }
  }

  lemma ShortestDenotes(text: string, v: int)
    requires Denotes(text, v) && IsShortest(text)
    ensures text == IntText(v)
  {
    if text[0] == '-' {
      assert !IsDigit(text[0]);
      TextOfMagnitude(text[1..]);
      LeadingDigitCountsOrZero(text[1..]);
      assert text == "-" + text[1..];
    } else {
      TextOfMagnitude(text);
    }
  }

  lemma LeadingDigitCountsOrZero(t: string)
    requires AllDigits(t) && t != "" && t != "0" && (|t| > 1 ==> t[0] != '0')
    ensures Magnitude(t) > 0
  {
    assert |t| == 1 ==> t == [t[0]];
    LeadingDigitCounts(t);
  }

  /** What is printed for an integer is the one shortest text that denotes it. */
  lemma PrintsShortest(text: string, v: int)
    ensures text == IntText(v) <==> Denotes(text, v) && IsShortest(text)
  {
    if Denotes(text, v) && IsShortest(text) {
      ShortestDenotes(text, v);
    }
    if text == IntText(v) {
      var digits := UIntText(if v < 0 then -v else v);
      MagnitudeOfText(if v < 0 then -v else v);
      NoLeadingZero(if v < 0 then -v else v);
      assert v < 0 ==> text[1..] == digits;
      assert IsDigit(digits[0]);
    }
  }
}
