/**
 * The fixed-width padding formatter of utils.go.  The three padding types
 * are built on `fmt.Sprintf` with a `*` width argument, whose semantics are
 * modelled here: the width counts runes, a negative width left-justifies to
 * its magnitude, and a width beyond one million prints `%!(BADWIDTH)`.
 * The centre type computes its padding from `len(str)`, the UTF-8 byte length.
 */
module Padding {
  import opened GoStrings

  /** `stringPaddingType` values. Type 1 pads on the left (right-justifies),
      type 2 pads on the right. */
  const PaddingLeft: int := 1
  const PaddingRight: int := 2
  const PaddingCenter: int := 3

  /** fmt refuses widths of larger magnitude than this. */
  const MaxWidth: int := 1000000
  const BadWidth: string := "%!(BADWIDTH)"

  /** `n` spaces, none when `n` is not positive. */
  function Spaces(n: int): (s: string)
    ensures |s| == (if n > 0 then n else 0)
    ensures forall i | 0 <= i < |s| :: s[i] == ' '
  {
    if n > 0 then seq(n, _ => ' ') else []
  }

  /** `fmt.Sprintf("%*s", w, s)` (or `"%-*s"` when `minus`). */
  function SprintfWidth(s: string, w: int, minus: bool): (r: string)
    ensures -MaxWidth <= w <= MaxWidth && w >= 0 && !minus ==> r == Spaces(w - |s|) + s
    ensures -MaxWidth <= w <= MaxWidth && (w < 0 || minus) ==>
              r == s + Spaces((if w < 0 then -w else w) - |s|)
    ensures (w > MaxWidth || w < -MaxWidth) ==> r == BadWidth + s
  {
    if w > MaxWidth || w < -MaxWidth then BadWidth + s
    else
      var width := if w < 0 then -w else w;
      if minus || w < 0 then s + Spaces(width - |s|) else Spaces(width - |s|) + s
  }

  /** Go's `x / 2` on `int`, which truncates toward zero. */
  function GoHalf(x: int): (h: int)
    ensures x >= 0 ==> h == x / 2
    ensures x < 0 ==> h == -((-x) / 2)
  {
    if x >= 0 then x / 2 else -((-x) / 2)
  }

  /** `r` is `str` placed at `offset` in a slot of `length` runes, every other rune a space. */
  predicate PlacedAt(r: string, str: string, length: int, offset: int)
  {
    && |r| == length
    && 0 <= offset && offset + |str| <= length
    && r[offset..offset + |str|] == str
    && (forall i | 0 <= i < offset :: r[i] == ' ')
    && (forall i | offset + |str| <= i < length :: r[i] == ' ')
  }

  lemma PlacedBetweenSpaces(a: int, str: string, b: int)
    ensures a >= 0 && b >= 0 ==> PlacedAt(Spaces(a) + str + Spaces(b), str, a + |str| + b, a)
  {
    if a >= 0 && b >= 0 {
      var r := Spaces(a) + str + Spaces(b);
      assert r[a..a + |str|] == str;
      assert forall i | a + |str| <= i < |r| :: r[i] == Spaces(b)[i - a - |str|];
    }
  }

  /** The centre case: `padding := (length - measured) / 2` spaces, the string,
      then the rest, where `measured` is the length the source measured `str` by.
      Measured in runes, the string sits in the middle with the odd space on the
      right; an over-long string is not truncated but grows by the excess. */
  function Centre(str: string, length: int, measured: int): (r: string)
    ensures measured == |str| && |str| <= length <= MaxWidth ==>
              PlacedAt(r, str, length, (length - |str|) / 2)
    ensures measured == |str| && 0 <= length < |str| <= MaxWidth ==>
              PlacedAt(r, str, 2 * |str| - length, (|str| - length) / 2)
  {
    var padding := GoHalf(length - measured);
    PlacedBetweenSpaces(padding, str, length - |str| - padding);
    PlacedBetweenSpaces(-padding, str, -(length - |str| - padding));
    SprintfWidth("", padding, false) + str + SprintfWidth("", length - measured - padding, false)
  }

  /** `formatStringWithPadding`. */
  function FormatStringWithPadding(str: string, length: int, paddingType: int): (r: string)
    // an unknown padding type leaves the string alone
    ensures paddingType !in {PaddingLeft, PaddingRight, PaddingCenter} ==> r == str
    // Left and Right fill the slot, str at its right or left edge
    ensures paddingType == PaddingLeft && |str| <= length <= MaxWidth ==> PlacedAt(r, str, length, length - |str|)
    ensures paddingType == PaddingRight && |str| <= length <= MaxWidth ==> PlacedAt(r, str, length, 0)
    // ... and never truncate
    ensures paddingType in {PaddingLeft, PaddingRight} && 0 <= length < |str| && length <= MaxWidth ==> r == str
    // Centre on ASCII text: half the spare room on the left, the odd space on the right
    ensures paddingType == PaddingCenter && ByteLen(str) == |str| && |str| <= length <= MaxWidth ==>
              PlacedAt(r, str, length, (length - |str|) / 2)
    // Centre on over-long ASCII text grows it by the excess instead of truncating
    ensures paddingType == PaddingCenter && ByteLen(str) == |str| && 0 <= length < |str| <= MaxWidth ==>
              PlacedAt(r, str, 2 * |str| - length, (|str| - length) / 2)
  {
    if paddingType == PaddingLeft then
      PlacedBetweenSpaces(length - |str|, str, 0);
      SprintfWidth(str, length, false)
    else if paddingType == PaddingRight then
      PlacedBetweenSpaces(0, str, length - |str|);
      SprintfWidth(str, length, true)
    else if paddingType == PaddingCenter then
      Centre(str, length, ByteLen(str))
    else
      // unknown padding type
      str
  }

  /** As written, centring measures the spare room in bytes but fmt pads in
      runes, so a non-ASCII string comes out short of the slot: `"ü"` centred
      in 5 gives `" ü  "`, four runes. */
  lemma AsWrittenCentreFallsShort()
    ensures FormatStringWithPadding("ü", 5, PaddingCenter) == " ü  "
    ensures |FormatStringWithPadding("ü", 5, PaddingCenter)| == 4
  {
    assert ByteLen("ü") == 2 by {
      assert "ü"[..0] == [];
    }
    assert GoHalf(5 - 2) == 1;
    assert SprintfWidth("", 1, false) == " " by { assert Spaces(1) == " "; }
    assert SprintfWidth("", 2, false) == "  " by { assert Spaces(2) == "  "; }
    assert FormatStringWithPadding("ü", 5, PaddingCenter) == " " + "ü" + "  ";
  }

  /** `formatStringWithPadding` with the centre padding measured in runes, as fmt measures it. */
  function FormatStringWithPaddingByRunes(str: string, length: int, paddingType: int): (r: string)
    ensures paddingType !in {PaddingLeft, PaddingRight, PaddingCenter} ==> r == str
    ensures paddingType == PaddingLeft && |str| <= length <= MaxWidth ==> PlacedAt(r, str, length, length - |str|)
    ensures paddingType == PaddingRight && |str| <= length <= MaxWidth ==> PlacedAt(r, str, length, 0)
    ensures paddingType == PaddingCenter && |str| <= length <= MaxWidth ==>
              PlacedAt(r, str, length, (length - |str|) / 2)
  {
    if paddingType == PaddingCenter then Centre(str, length, |str|)
    else
      FormatStringWithPadding(str, length, paddingType)
  }

  /** The corrected centring fills the slot exactly for every string: `"ü"` in 5 gives `"  ü  "`. */
  lemma CorrectedCentreFillsSlot()
    ensures FormatStringWithPaddingByRunes("ü", 5, PaddingCenter) == "  ü  "
  {
  }

  /** The centring example of the formatter's tests: `"test_center"` in 17 gets 3 spaces either side. */
  lemma CentreExample()
    ensures FormatStringWithPadding("test_center", 17, PaddingCenter) == "   test_center   "
  {
    var s := "test_center";
    assert ByteLen(s) == 11 by {
      assert forall k | 0 <= k < |s| :: s[k] as int < 0x80;
    }
    assert GoHalf(17 - 11) == 3;
    assert SprintfWidth("", 3, false) == "   " by { assert Spaces(3) == "   "; }
    assert FormatStringWithPadding(s, 17, PaddingCenter) == "   " + s + "   ";
  }
}
