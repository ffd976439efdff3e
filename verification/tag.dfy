/**
 * The field layout descriptor of one struct field (tag.go): the half-open
 * range `[fromPos, toPos)` read from the `range:"a,b"` struct tag, clamped
 * to an upper bound, and the `optional` bit read from the `flags` tag.
 */
module FieldTag {
  import opened Results
  import opened GoStrings
  import opened Strconv

  datatype Flags = Flags(optional: bool)

  datatype Tag = Tag(fromPos: int, toPos: int, flags: Flags)

  /** The sentinel errors of tag.go, plus the runtime panic of indexing a
      missing second range component. */
  datatype TagError =
    | TagEmpty            // ErrTagEmpty: no range tag at all
    | InvalidUpperBound   // ErrTagInvalidUpperBound: the bound is 0
    | InvalidRangeValues  // ErrTagInvalidRangeValues: a component is not an integer
    | InefectualRange     // ErrTagInefectualRange: empty or inverted range after clamping
    | MissingRangeEnd     // `parts[1]` index out of range: the tag has no comma

  /** A struct tag as the key-to-value lookup `reflect.StructTag.Get` offers:
      a missing key reads as the empty string. */
  datatype StructTag = StructTag(entries: map<string, string>) {
    function Get(key: string): string
    {
      if key in entries then entries[key] else ""
    }
  }

  /** Go's `(start, end, err)` triple returned by `parseRangeTag`. */
  datatype RangeResult = RangeResult(start: int, end: int, err: Option<TagError>)

  /** Go's `(tag, err)` pair returned by `parseFieldTag`: the tag is meaningful
      (its flags at least) even when an error is returned. */
  datatype TagOutcome = TagOutcome(tag: Tag, err: Option<TagError>)

  const OptionalFlag: string := "optional"

  /** Whether any of the comma-separated flag tokens is `optional`. */
  function HasOptional(parts: seq<string>): (b: bool)
    ensures b <==> exists k | 0 <= k < |parts| :: parts[k] == OptionalFlag
    decreases |parts|
  {
    if |parts| == 0 then false
    else
      var b := parts[0] == OptionalFlag || HasOptional(parts[1..]);
      assert b ==> (exists k | 0 <= k < |parts| :: parts[k] == OptionalFlag) by {
        if !(parts[0] == OptionalFlag) && b {
          var k :| 0 <= k < |parts[1..]| && parts[1..][k] == OptionalFlag;
          assert parts[k + 1] == OptionalFlag;
        }
      }
      assert (exists k | 0 <= k < |parts| :: parts[k] == OptionalFlag) ==> b by {
        if exists k | 0 <= k < |parts| :: parts[k] == OptionalFlag {
          var k :| 0 <= k < |parts| && parts[k] == OptionalFlag;
          if k > 0 {
            assert parts[1..][k - 1] == OptionalFlag;
          }
        }
      }
      b
  }

  /** `parseFlagsTag`: never fails; `optional` is set exactly when one of the
      comma-separated tokens is `optional`, every other token being ignored. */
  function ParseFlagsTag(s: string): (r: Result<Flags, TagError>)
    ensures r.Success?
    ensures r.value.optional <==> OptionalFlag in Split(s, ',')
  {
    if s == "" then Success(Flags(false))
    else Success(Flags(HasOptional(Split(s, ','))))
  }

  /** A flags tag written as the comma-separated tokens `tokens` sets
      `optional` exactly when `optional` is one of them. */
  lemma FlagsFromTokens(tokens: seq<string>)
    requires |tokens| >= 1
    requires forall k | 0 <= k < |tokens| :: ',' !in tokens[k]
    ensures ParseFlagsTag(Join(tokens, ',')).value.optional <==> OptionalFlag in tokens
  {
    SplitJoin(tokens, ',');
  }

  function Max(a: int, b: int): int { if a >= b then a else b }

  function Min(a: int, b: int): int { if a <= b then a else b }

  /** `parseRangeTag`: the clamped half-open range named by `"a,b"`. */
  function ParseRangeTag(s: string, upperBound: int): (r: RangeResult)
    ensures r.err.Some? ==> r.start == 0 && r.end == 0
    ensures s == "" ==> r.err == Some(TagEmpty)
    ensures s != "" && upperBound == 0 ==> r.err == Some(InvalidUpperBound)
    ensures r.err.None? ==> 0 <= r.start < r.end <= upperBound
    // a start that is not an integer is rejected before the end is looked at
    ensures s != "" && upperBound != 0 && Atoi(Split(s, ',')[0]).None? ==> r.err == Some(InvalidRangeValues)
    // an integer start with no comma after it reaches the missing second component
    ensures s != "" && upperBound != 0 && Atoi(Split(s, ',')[0]).Some? && |Split(s, ',')| < 2 ==>
              r.err == Some(MissingRangeEnd)
    ensures s != "" && upperBound != 0 && Atoi(Split(s, ',')[0]).Some? && |Split(s, ',')| >= 2 ==>
              Atoi(Split(s, ',')[1]).None? ==> r.err == Some(InvalidRangeValues)
    // two integer components, however spelt and whatever follows them, give
    // the clamped range, or are rejected when that range is empty or inverted
    ensures s != "" && upperBound != 0 && |Split(s, ',')| >= 2 ==>
              Atoi(Split(s, ',')[0]).Some? && Atoi(Split(s, ',')[1]).Some? ==>
              var x, y := Atoi(Split(s, ',')[0]).value, Atoi(Split(s, ',')[1]).value;
              if Max(x, 0) < ResolvedEnd(y, upperBound)
              then r == RangeResult(Max(x, 0), ResolvedEnd(y, upperBound), None)
              else r == RangeResult(0, 0, Some(InefectualRange))
  {
    if s == "" then RangeResult(0, 0, Some(TagEmpty))
    else if upperBound == 0 then RangeResult(0, 0, Some(InvalidUpperBound))
    else
      var parts := Split(s, ',');
      match Atoi(parts[0])
      case None => RangeResult(0, 0, Some(InvalidRangeValues))
      case Some(x) =>
        if |parts| < 2 then RangeResult(0, 0, Some(MissingRangeEnd))
        else
          match Atoi(parts[1])
          case None => RangeResult(0, 0, Some(InvalidRangeValues))
          case Some(y) =>
            var start := Max(x, 0);
            var end := Min(y, upperBound);
            // -1 stands for "up to the upper bound"
            var end := if end == -1 then upperBound else end;
            if start == end then RangeResult(0, 0, Some(InefectualRange))
            else if start > end then RangeResult(0, 0, Some(InefectualRange))
            else RangeResult(start, end, None)
  }

  /** Where a range ending at `y` ends once clamped to `upperBound`, `-1` meaning the bound. */
  function ResolvedEnd(y: int, upperBound: int): int
  {
    if Min(y, upperBound) == -1 then upperBound else Min(y, upperBound)
  }

  /** The range tag `"x,y"` for two integers. */
  function FormatRange(x: int, y: int): string
  {
    Itoa(x) + "," + Itoa(y)
  }

  /** The range tag of any two integers parses back to those integers, clamped:
      the start raised to 0, the end lowered to the bound (`-1` meaning the
      bound), and an empty or inverted result rejected. */
  lemma {:induction false} ParseRangeOfIntegers(x: int, y: int, upperBound: int)
    requires upperBound != 0
    ensures var r := ParseRangeTag(FormatRange(x, y), upperBound);
            if Max(x, 0) < ResolvedEnd(y, upperBound)
            then r == RangeResult(Max(x, 0), ResolvedEnd(y, upperBound), None)
            else r == RangeResult(0, 0, Some(InefectualRange))
  {
    var parts := [Itoa(x), Itoa(y)];
    assert Join(parts, ',') == FormatRange(x, y) by {
      assert Join(parts[1..], ',') == Itoa(y);
    }
    SplitJoin(parts, ',');
    AtoiItoa(x);
    AtoiItoa(y);
  }

  /** A well-formed range within the bound survives a format/parse round trip. */
  lemma RangeRoundTrip(from: int, to: int, upperBound: int)
    requires 0 <= from < to <= upperBound
    ensures ParseRangeTag(FormatRange(from, to), upperBound) == RangeResult(from, to, None)
  {
    ParseRangeOfIntegers(from, to, upperBound);
  }

  /** Any comma-separated components whose first two are integers form a range
      tag: the first two are read, clamped as for `FormatRange`, and the rest ignored. */
  lemma {:induction false} ParseRangeOfComponents(parts: seq<string>, x: int, y: int, upperBound: int)
    requires |parts| >= 2
    requires forall i | 0 <= i < |parts| :: ',' !in parts[i]
    requires Atoi(parts[0]) == Some(x) && Atoi(parts[1]) == Some(y)
    requires upperBound != 0
    ensures var r := ParseRangeTag(Join(parts, ','), upperBound);
            if Max(x, 0) < ResolvedEnd(y, upperBound)
            then r == RangeResult(Max(x, 0), ResolvedEnd(y, upperBound), None)
            else r == RangeResult(0, 0, Some(InefectualRange))
  {
    SplitJoin(parts, ',');
    assert Join(parts, ',') == parts[0] + [','] + Join(parts[1..], ',');
  }

  /** `Atoi` takes leading zeros and a '+' sign, and the parser reads only the
      first two components, so these spellings name the range [1, 5). */
  lemma LeadingZeroRange()
    ensures ParseRangeTag("01,5", 10) == RangeResult(1, 5, None)
  {
    assert Join(["01", "5"], ',') == "01,5" by { assert Join(["5"], ',') == "5"; }
    assert Atoi("01") == Some(1) by { assert AllDigits("01"); assert DigitsValue("01") == 1; }
    assert Atoi("5") == Some(5) by { assert AllDigits("5"); }
    ParseRangeOfComponents(["01", "5"], 1, 5, 10);
  }

  lemma PlusSignRange()
    ensures ParseRangeTag("+1,5", 10) == RangeResult(1, 5, None)
  {
    assert Join(["+1", "5"], ',') == "+1,5" by { assert Join(["5"], ',') == "5"; }
    assert Atoi("+1") == Some(1) by { assert AllDigits("1"); assert "+1"[1..] == "1"; }
    assert Atoi("5") == Some(5) by { assert AllDigits("5"); }
    ParseRangeOfComponents(["+1", "5"], 1, 5, 10);
  }

  lemma ExtraComponentIgnored()
    ensures ParseRangeTag("1,2,3", 10) == RangeResult(1, 2, None)
  {
    assert Join(["1", "2", "3"], ',') == "1,2,3" by {
      assert Join(["3"], ',') == "3";
      assert Join(["2", "3"], ',') == "2,3";
    }
    assert Atoi("1") == Some(1) by { assert AllDigits("1"); }
    assert Atoi("2") == Some(2) by { assert AllDigits("2"); }
    ParseRangeOfComponents(["1", "2", "3"], 1, 2, 10);
  }

  /** A range tag without a comma has no second component to read. */
  lemma NoCommaRange()
    ensures ParseRangeTag("5", 4).err == Some(MissingRangeEnd)
  {
    assert Split("5", ',') == ["5"] by { assert Join(["5"], ',') == "5"; SplitJoin(["5"], ','); }
    assert Atoi("5") == Some(5) by { assert AllDigits("5"); }
  }

  /** A tag whose start is not a number, and one whose end is not, as in the parser's tests. */
  lemma NonNumericRangeStart()
    ensures ParseRangeTag("a,5", 10).err == Some(InvalidRangeValues)
  {
    assert Join(["a", "5"], ',') == "a,5" by { assert Join(["5"], ',') == "5"; }
    SplitJoin(["a", "5"], ',');
  }

  lemma NonNumericRangeEnd()
    ensures ParseRangeTag("2,b", 10).err == Some(InvalidRangeValues)
  {
    assert Join(["2", "b"], ',') == "2,b" by { assert Join(["b"], ',') == "b"; }
    SplitJoin(["2", "b"], ',');
    assert Atoi("2").Some? by { assert AllDigits("2"); }
  }

  /** The ranges of the parser's tests that parse, or are rejected after clamping. */
  lemma RangeTestValid()
    ensures ParseRangeTag("2,5", 10) == RangeResult(2, 5, None)
  {
    assert Itoa(2) == "2" by { assert NatDigits(2) == "2"; }
    assert Itoa(5) == "5" by { assert NatDigits(5) == "5"; }
    RangeCase(2, 5, 10, "2", "5");
  }

  lemma RangeTestCapped()
    ensures ParseRangeTag("1,20", 15) == RangeResult(1, 15, None)
  {
    assert Itoa(1) == "1" by { assert NatDigits(1) == "1"; }
    assert Itoa(20) == "20" by { assert NatDigits(2) == "2"; assert NatDigits(20) == NatDigits(2) + "0"; }
    RangeCase(1, 20, 15, "1", "20");
  }

  lemma RangeTestEmpty()
    ensures ParseRangeTag("3,3", 10).err == Some(InefectualRange)
  {
    assert Itoa(3) == "3" by { assert NatDigits(3) == "3"; }
    RangeCase(3, 3, 10, "3", "3");
  }

  lemma RangeTestInverted()
    ensures ParseRangeTag("5,2", 10).err == Some(InefectualRange)
  {
    assert Itoa(5) == "5" by { assert NatDigits(5) == "5"; }
    assert Itoa(2) == "2" by { assert NatDigits(2) == "2"; }
    RangeCase(5, 2, 10, "5", "2");
  }

  lemma RangeTestToBound()
    ensures ParseRangeTag("0,-1", 10) == RangeResult(0, 10, None)
  {
    assert Itoa(0) == "0" by { assert NatDigits(0) == "0"; }
    assert Itoa(-1) == "-1" by { assert NatDigits(1) == "1"; }
    RangeCase(0, -1, 10, "0", "-1");
  }

  /** The tag written `a + "," + b` is the range tag of `x` and `y`, parsed as such. */
  lemma RangeCase(x: int, y: int, upperBound: int, a: string, b: string)
    requires upperBound != 0 && Itoa(x) == a && Itoa(y) == b
    ensures var r := ParseRangeTag(a + "," + b, upperBound);
            if Max(x, 0) < ResolvedEnd(y, upperBound)
            then r == RangeResult(Max(x, 0), ResolvedEnd(y, upperBound), None)
            else r == RangeResult(0, 0, Some(InefectualRange))
  {
    ParseRangeOfIntegers(x, y, upperBound);
  }

  /** `parseFieldTag`: the flags are parsed first, so a tag whose range is
      rejected still carries its flags; on success the range lies within the bound. */
  function ParseFieldTag(st: StructTag, upperBound: int): (r: TagOutcome)
    ensures r.tag.flags.optional <==> OptionalFlag in Split(st.Get("flags"), ',')
    ensures st.Get("range") == "" ==> r.err == Some(TagEmpty)
    ensures r.err.Some? ==> r.tag.fromPos == 0 && r.tag.toPos == 0
    ensures r.err.None? ==> 0 <= r.tag.fromPos < r.tag.toPos <= upperBound
    // the range and its error are those of the range tag
    ensures r.err == ParseRangeTag(st.Get("range"), upperBound).err
    ensures r.err.None? ==> r.tag.fromPos == ParseRangeTag(st.Get("range"), upperBound).start
    ensures r.err.None? ==> r.tag.toPos == ParseRangeTag(st.Get("range"), upperBound).end
  {
    match ParseFlagsTag(st.Get("flags"))
    case Failure(e) => TagOutcome(Tag(0, 0, Flags(false)), Some(e))
    case Success(flags) =>
      var rr := ParseRangeTag(st.Get("range"), upperBound);
      if rr.err.Some? then TagOutcome(Tag(0, 0, flags), rr.err)
      else TagOutcome(Tag(rr.start, rr.end, flags), None)
  }
}
