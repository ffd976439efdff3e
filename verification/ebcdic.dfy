/**
 * The EBCDIC negative-overpunch decoder of ebcdic-converter.go.  A number
 * whose last character is one of ten designators is negative, the
 * designator standing for its last digit.  The decoder works on the bytes of
 * a Go string: it looks at the last BYTE, converted to a rune, so the table
 * entry for the rune U+00FC ('ü') matches the single byte 0xFC and never the
 * two-byte UTF-8 encoding of 'ü'.
 */
module Ebcdic {
  import opened Results
  import opened GoStrings

  type Bytes = seq<byte>

  const Minus: byte := 0x2D
  const Dot: byte := 0x2E
  const Zero: byte := 0x30

  /** `ebcdicToASCIINegativeMap`, keyed by rune value: 'J' (0x4A) to 'R' (0x52)
      stand for 1 to 9 and 'ü' (U+00FC) for 0. */
  const NegativeDesignators: map<int, nat> := map[
    0x4A := 1, 0x4B := 2, 0x4C := 3, 0x4D := 4, 0x4E := 5,
    0x4F := 6, 0x50 := 7, 0x51 := 8, 0x52 := 9, 0xFC := 0]

  const DesignatorKeys: set<int> := {0x4A, 0x4B, 0x4C, 0x4D, 0x4E, 0x4F, 0x50, 0x51, 0x52, 0xFC}

  /** The designator rune standing for each final digit: the table read backwards. */
  function DesignatorRune(d: nat): (c: char)
    requires d < 10
    ensures c as int in NegativeDesignators && NegativeDesignators[c as int] == d
  {
    if d == 0 then 'ü' else (0x4A + d - 1) as char
  }

  /** The designator table is a bijection between ten runes and the digits 0-9:
      reading a designator's digit back through `DesignatorRune` gives the
      designator again (so distinct runes stand for distinct digits), and
      every digit has a designator. */
  lemma DesignatorTableIsBijective()
    ensures forall c | c in NegativeDesignators :: NegativeDesignators[c] < 10
    ensures forall c | c in NegativeDesignators :: DesignatorRune(NegativeDesignators[c]) as int == c
    ensures forall d: nat | d < 10 :: d in NegativeDesignators.Values
    ensures forall a, b | a in NegativeDesignators && b in NegativeDesignators && a != b ::
              NegativeDesignators[a] != NegativeDesignators[b]
  {
    DesignatorsReadBack();
    forall d: nat | d < 10 ensures d in NegativeDesignators.Values {
      assert NegativeDesignators[DesignatorRune(d) as int] == d;
    }
  }

  lemma DesignatorsReadBack()
    ensures forall c | c in NegativeDesignators ::
              NegativeDesignators[c] < 10 && DesignatorRune(NegativeDesignators[c]) as int == c
  {
    assert NegativeDesignators.Keys == DesignatorKeys;
    forall c | c in DesignatorKeys
      ensures NegativeDesignators[c] < 10 && DesignatorRune(NegativeDesignators[c]) as int == c
    {
    }
  }

  /** The one failure of the converter: `"empty EBCDIC field"`. */
  datatype ConvertError = EmptyField

  predicate IsDigitByte(b: byte)
  {
    0x30 <= b <= 0x39
  }

  predicate AllDigitBytes(s: Bytes)
  {
    forall k | 0 <= k < |s| :: IsDigitByte(s[k])
  }

  /** The value of a sequence of ASCII digit bytes, most significant first. */
  function DigitsValue(s: Bytes): nat
    requires AllDigitBytes(s)
    decreases |s|
  {
    if |s| == 0 then 0 else DigitsValue(s[..|s| - 1]) * 10 + (s[|s| - 1] - Zero) as nat
  }

  /** `strconv.Itoa(digit)` for a single digit. */
  function DigitText(d: nat): (s: Bytes)
    requires d < 10
    ensures |s| == 1 && IsDigitByte(s[0]) && DigitsValue(s) == d
  {
    [(0x30 + d) as byte]
  }

  /** The number of leading `'0'` bytes, as the source's `start` loop counts them. */
  function ZeroPrefix(s: Bytes): (start: nat)
    ensures start <= |s|
    ensures forall k | 0 <= k < start :: s[k] == Zero
    ensures start < |s| ==> s[start] != Zero
    decreases |s|
  {
    if |s| > 0 && s[0] == Zero then 1 + ZeroPrefix(s[1..]) else 0
  }

  /** The digit encoded by the last byte of `field`, read as a rune, if it is a designator. */
  function LastByteDesignator(field: Bytes): (d: Option<nat>)
    requires |field| > 0
    ensures d.Some? ==> d.value < 10
  {
    var lastChar := field[|field| - 1] as int;
    if lastChar in NegativeDesignators then
      assert NegativeDesignators[lastChar] in NegativeDesignators.Values;
      Some(NegativeDesignators[lastChar])
    else None
  }

  /** The signed decimal text for the magnitude `numPart` followed by the final digit `digit`. */
  function NegativeText(numPart: Bytes, digit: nat): (r: Bytes)
    requires digit < 10
    ensures |r| >= 2 && r[0] == Minus && r[|r| - 1] == DigitText(digit)[0]
  {
    if numPart == [] then
      // just a single designator
      [Minus] + DigitText(digit)
    else if Dot in numPart then
      // a decimal value: leading zeros go from the integer part only
      var parts := Split(numPart, Dot);
      var intPart := parts[0];
      var start := ZeroPrefix(intPart);
      var intPart := if start == |intPart| then [Zero] else intPart[start..];
      if |parts| > 1 then [Minus] + intPart + [Dot] + parts[1] + DigitText(digit)
      else [Minus] + intPart + DigitText(digit)
    else
      var start := ZeroPrefix(numPart);
      if start == |numPart| then [Minus] + DigitText(digit)
      else [Minus] + numPart[start..] + DigitText(digit)
  }

  /** `EbcdicToAsciiNumber`: fails on empty input only; a field not ending in a
      designator byte is returned unchanged; otherwise the result is negative
      and ends with the designator's digit. */
  function EbcdicToAsciiNumber(field: Bytes): (r: Result<Bytes, ConvertError>)
    ensures r.Failure? <==> |field| == 0
    ensures |field| > 0 && field[|field| - 1] as int !in NegativeDesignators ==> r == Success(field)
    ensures |field| > 0 && field[|field| - 1] as int in NegativeDesignators ==>
              && r.Success? && |r.value| >= 2 && r.value[0] == Minus
              && r.value[|r.value| - 1] == DigitText(NegativeDesignators[field[|field| - 1] as int])[0]
  {
    if |field| == 0 then Failure(EmptyField)
    else
      match LastByteDesignator(field)
      case Some(digit) => Success(NegativeText(field[..|field| - 1], digit))
      // not a negative designator: the field is returned as it is
      case None => Success(field)
  }

  /** Leading zeros add nothing to a digit string's value. */
  lemma {:induction false} ZerosAddNothing(s: Bytes)
    requires AllDigitBytes(s)
    ensures AllDigitBytes(s[ZeroPrefix(s)..])
    ensures DigitsValue(s[ZeroPrefix(s)..]) == DigitsValue(s)
    decreases |s|
  {
    var start := ZeroPrefix(s);
    if start == |s| {
      AllZerosValue(s);
    } else {
      ValueOfSuffixAfterZeros(s, start);
    }
  }

  lemma {:induction false} AllZerosValue(s: Bytes)
    requires forall k | 0 <= k < |s| :: s[k] == Zero
    ensures AllDigitBytes(s) && DigitsValue(s) == 0
    decreases |s|
  {
    if |s| > 0 {
      AllZerosValue(s[..|s| - 1]);
    }
  }

  lemma {:induction false} ValueOfSuffixAfterZeros(s: Bytes, start: nat)
    requires AllDigitBytes(s)
    requires start <= |s|
    requires forall k | 0 <= k < start :: s[k] == Zero
    ensures DigitsValue(s[start..]) == DigitsValue(s)
    decreases |s|
  {
    if start == |s| {
      AllZerosValue(s);
    } else {
      ValueOfSuffixAfterZeros(s[..|s| - 1], start);
      assert s[start..][..|s[start..]| - 1] == s[..|s| - 1][start..];
    }
  }

  /** A negative integer field (digits then a designator) decodes to `-` followed
      by the canonical digits of magnitude*10 + final digit: no leading zero
      unless the whole number is one digit. */
  lemma {:induction false} NegativeIntegerValue(field: Bytes)
    requires |field| > 0 && field[|field| - 1] as int in NegativeDesignators
    requires AllDigitBytes(field[..|field| - 1])
    ensures var r := EbcdicToAsciiNumber(field).value;
            && r[0] == Minus
            && AllDigitBytes(r[1..])
            && DigitsValue(r[1..]) == DigitsValue(field[..|field| - 1]) * 10 + NegativeDesignators[field[|field| - 1] as int]
            && (r[1] == Zero ==> |r| == 2)
  {
    var numPart := field[..|field| - 1];
    var digit := NegativeDesignators[field[|field| - 1] as int];
    var r := EbcdicToAsciiNumber(field).value;
    assert Dot !in numPart by {
      assert forall j | 0 <= j < |numPart| :: numPart[j] != Dot;
    }
    var start := ZeroPrefix(numPart);
    ZerosAddNothing(numPart);
    if start == |numPart| {
      assert r[1..] == DigitText(digit);
    } else {
      var tail := numPart[start..];
      assert r[1..] == tail + DigitText(digit);
      assert (tail + DigitText(digit))[..|tail|] == tail;
    }
  }

  /** The overpunch encoding of a non-negative magnitude: its last digit
      replaced by the designator rune for that digit, written as the single
      byte of the rune's value (0xFC for the zero designator). */
  function Overpunch(m: Bytes): (r: Bytes)
    requires |m| > 0 && AllDigitBytes(m)
  {
    var d := (m[|m| - 1] - Zero) as nat;
    m[..|m| - 1] + [DesignatorRune(d) as int as byte]
  }

  /** A canonical magnitude: digits with no leading zero, or `0` itself. */
  predicate Canonical(m: Bytes)
  {
    |m| > 0 && AllDigitBytes(m) && (m[0] == Zero ==> |m| == 1)
  }

  function Zeros(k: nat): (z: Bytes)
    ensures |z| == k && forall i | 0 <= i < k :: z[i] == Zero
  {
    seq(k, _ => Zero)
  }

  /** The designator-free part of a zero-filled overpunched magnitude, with
      its final digit, rebuilds the negated magnitude. */
  lemma {:induction false} NegativeTextOfCanonical(m: Bytes, k: nat)
    requires Canonical(m)
    ensures NegativeText(Zeros(k) + m[..|m| - 1], (m[|m| - 1] - Zero) as nat) == [Minus] + m
  {
    var d := (m[|m| - 1] - Zero) as nat;
    var numPart := Zeros(k) + m[..|m| - 1];
    assert DigitText(d) == [m[|m| - 1]];
    assert Dot !in numPart by {
      forall j | 0 <= j < |numPart| ensures numPart[j] != Dot {
        if j >= k {
          assert numPart[j] == m[j - k];
        }
      }
    }
    if numPart == [] {
      assert m == [m[0]];
    } else {
      var start := ZeroPrefix(numPart);
      if |m| == 1 {
        assert numPart == Zeros(k);
        assert start == |numPart|;
        assert m == DigitText(d);
      } else {
        assert m[0] != Zero;
        assert numPart[k] == m[0];
        assert start == k by {
          ZeroPrefixOfZerosThen(numPart, k);
        }
        assert numPart[start..] == m[..|m| - 1];
        assert m[..|m| - 1] + DigitText(d) == m;
      }
    }
  }

  /** Decoding a zero-filled overpunched magnitude gives the magnitude back,
      negated; `-0` decodes to `-0`. */
  lemma OverpunchRoundTrip(m: Bytes, k: nat)
    requires Canonical(m)
    ensures EbcdicToAsciiNumber(Zeros(k) + Overpunch(m)) == Success([Minus] + m)
  {
    var field := Zeros(k) + Overpunch(m);
    assert field[..|field| - 1] == Zeros(k) + m[..|m| - 1];
    NegativeTextOfCanonical(m, k);
  }

  lemma ZeroPrefixOfZerosThen(s: Bytes, k: nat)
    requires k < |s|
    requires forall i | 0 <= i < k :: s[i] == Zero
    requires s[k] != Zero
    ensures ZeroPrefix(s) == k
  {
  }

  /** A decimal field keeps exactly one `.`: the integer part loses its leading
      zeros (becoming `0` when nothing is left), and the fraction is the text
      between the first and any second `.`, followed by the final digit. */
  lemma {:induction false} DecimalFieldShape(field: Bytes)
    requires |field| > 1 && field[|field| - 1] as int in NegativeDesignators
    requires Dot in field[..|field| - 1]
    ensures var r := EbcdicToAsciiNumber(field).value;
            var inParts := Split(field[..|field| - 1], Dot);
            var outParts := Split(r, Dot);
            && |outParts| == 2
            && outParts[0] == [Minus] + (if ZeroPrefix(inParts[0]) == |inParts[0]| then [Zero]
                                         else inParts[0][ZeroPrefix(inParts[0])..])
            && outParts[1] == inParts[1] + DigitText(NegativeDesignators[field[|field| - 1] as int])
  {
    var numPart := field[..|field| - 1];
    var digit := NegativeDesignators[field[|field| - 1] as int];
    var parts := Split(numPart, Dot);
    SplitCountsSeparator(numPart, Dot);
    var start := ZeroPrefix(parts[0]);
    var intPart := if start == |parts[0]| then [Zero] else parts[0][start..];
    var r := EbcdicToAsciiNumber(field).value;
    var a := [Minus] + intPart;
    var b := parts[1] + DigitText(digit);
    assert Dot !in a by {
      assert Dot !in parts[0];
      if start < |parts[0]| {
        assert forall x | x in parts[0][start..] :: x in parts[0];
      }
    }
    assert Dot !in b;
    assert r == Join([a, b], Dot) by {
      assert Join([a, b][1..], Dot) == b;
    }
    SplitJoin([a, b], Dot);
  }

  // ---------------------------------------------------------------------
  // The zero designator and UTF-8 text.

  /** As written, a UTF-8 text whose last rune is not ASCII is never read as
      negative: the last byte of a multi-byte rune is a continuation byte,
      which is no designator. In particular `"0020ü"` stays `"0020ü"`. */
  lemma AsWrittenIgnoresNonAsciiDesignator(s: seq<char>)
    requires |s| > 0 && s[|s| - 1] as int >= 0x80
    ensures EbcdicToAsciiNumber(Utf8Encode(s)) == Success(Utf8Encode(s))
  {
    var bs := Utf8Encode(s);
    var last := Utf8EncodeRune(s[|s| - 1]);
    assert bs == Utf8Encode(s[..|s| - 1]) + last;
    assert bs[|bs| - 1] == last[|last| - 1];
    ContinuationIsNoDesignator(bs[|bs| - 1]);
  }

  /** A UTF-8 continuation byte is never a key of the designator table. */
  lemma ContinuationIsNoDesignator(b: byte)
    requires 0x80 <= b < 0xC0
    ensures b as int !in NegativeDesignators
  {
    assert NegativeDesignators.Keys == DesignatorKeys;
  }

  /** The concrete case from the converter's tests: `"0020ü"` was meant to read as -200. */
  lemma AsWrittenMissesZeroDesignator()
    ensures EbcdicToAsciiNumber(Utf8Encode("0020ü")) == Success(Utf8Encode("0020ü"))
    ensures Utf8Encode("0020ü") == [0x30, 0x30, 0x32, 0x30, 0xC3, 0xBC]
  {
    AsWrittenIgnoresNonAsciiDesignator("0020ü");
    assert "0020ü"[..4] == "0020";
    assert "0020"[..3] == "002";
    assert "002"[..2] == "00";
    assert "00"[..1] == "0";
  }

  /** The digit encoded by the last RUNE of the UTF-8 text `field`, with the
      number of bytes that rune occupies. */
  function LastRuneDesignator(field: Bytes): (d: Option<(nat, nat)>)
    requires |field| > 0
    ensures d.Some? ==> d.value.0 < 10 && 1 <= d.value.1 <= |field|
  {
    var last := field[|field| - 1];
    if last < 0x80 && last as int in NegativeDesignators then
      assert NegativeDesignators[last as int] in NegativeDesignators.Values;
      Some((NegativeDesignators[last as int], 1))
    else if |field| >= 2 && field[|field| - 2..] == Utf8EncodeRune('ü') then Some((0, 2))
    else None
  }

  /** The converter reading the last rune rather than the last byte, so that
      every entry of the designator table, 'ü' included, is recognised in
      UTF-8 text. */
  function EbcdicRunesToAsciiNumber(field: Bytes): (r: Result<Bytes, ConvertError>)
    ensures r.Failure? <==> |field| == 0
  {
    if |field| == 0 then Failure(EmptyField)
    else
      match LastRuneDesignator(field)
      case Some((digit, width)) => Success(NegativeText(field[..|field| - width], digit))
      case None => Success(field)
  }

  /** The overpunch encoding of a magnitude as UTF-8 text: the designator rune
      replacing the last digit is written in UTF-8. */
  function OverpunchUtf8(m: Bytes): (r: Bytes)
    requires |m| > 0 && AllDigitBytes(m)
  {
    m[..|m| - 1] + Utf8EncodeRune(DesignatorRune((m[|m| - 1] - Zero) as nat))
  }

  lemma Utf8OfZeroDesignator()
    ensures Utf8EncodeRune('ü') == [0xC3, 0xBC]
  {
    assert 'ü' as int == 252;
  }

  /** With the last rune examined, the round trip holds for all ten designators
      in UTF-8 text, the zero designator 'ü' included. */
  lemma OverpunchUtf8RoundTrip(m: Bytes, k: nat)
    requires Canonical(m)
    ensures EbcdicRunesToAsciiNumber(Zeros(k) + OverpunchUtf8(m)) == Success([Minus] + m)
  {
    var d := (m[|m| - 1] - Zero) as nat;
    var field := Zeros(k) + OverpunchUtf8(m);
    var prefix := Zeros(k) + m[..|m| - 1];
    NegativeTextOfCanonical(m, k);
    if d == 0 {
      Utf8OfZeroDesignator();
      assert field == prefix + [0xC3, 0xBC];
      assert LastRuneDesignator(field) == Some((0, 2)) by {
        assert field[|field| - 1] == 0xBC;
        assert field[|field| - 2..] == [0xC3, 0xBC];
      }
      assert field[..|field| - 2] == prefix;
    } else {
      var c := DesignatorRune(d);
      assert c as int < 0x80;
      assert field == prefix + [c as int as byte];
      assert field[..|field| - 1] == prefix;
    }
  }

  /** The test case `"0020ü"` now reads as -200. */
  lemma CorrectedReadsZeroDesignator()
    ensures EbcdicRunesToAsciiNumber([0x30, 0x30, 0x32, 0x30, 0xC3, 0xBC]) == Success([Minus, 0x32, 0x30, 0x30])
  {
    var m: Bytes := [0x32, 0x30, 0x30];
    OverpunchUtf8RoundTrip(m, 2);
    Utf8OfZeroDesignator();
    assert DesignatorRune(0) == 'ü';
    assert OverpunchUtf8(m) == [0x32, 0x30, 0xC3, 0xBC];
    assert Zeros(2) == [0x30, 0x30];
    assert Zeros(2) + OverpunchUtf8(m) == [0x30, 0x30, 0x32, 0x30, 0xC3, 0xBC];
    assert [Minus] + m == [Minus, 0x32, 0x30, 0x30];
  }
}
