/**
 * Models of the Go standard-library string helpers the codec relies on:
 * `strings.Split` with a one-element separator, its inverse `strings.Join`,
 * `strings.TrimSpace` with `unicode.IsSpace`, and the UTF-8 byte length that
 * Go's `len` reports for a string.
 */
module GoStrings {

  /** `strings.Split(s, sep)`: the maximal pieces of `s` between occurrences of `sep`.
      Splitting the empty sequence yields one empty piece, as in Go. */
  function Split<T(==)>(s: seq<T>, sep: T): (parts: seq<seq<T>>)
    ensures |parts| >= 1
    ensures forall i | 0 <= i < |parts| :: sep !in parts[i]
    ensures Join(parts, sep) == s
    decreases |s|
  {
    if |s| == 0 then [[]]
    else
      var rest := Split(s[1..], sep);
      if s[0] == sep then [[]] + rest
      else [[s[0]] + rest[0]] + rest[1..]
  }

  /** `strings.Join(parts, sep)`. */
  function Join<T>(parts: seq<seq<T>>, sep: T): seq<T>
    decreases |parts|
  {
    if |parts| == 0 then []
    else if |parts| == 1 then parts[0]
    else parts[0] + [sep] + Join(parts[1..], sep)
  }

  /** Joining pieces that contain no separator and splitting again gives the pieces back. */
  lemma {:induction false} SplitJoin<T>(parts: seq<seq<T>>, sep: T)
    requires |parts| >= 1
    requires forall i | 0 <= i < |parts| :: sep !in parts[i]
    ensures Split(Join(parts, sep), sep) == parts
    decreases |parts|, |parts[0]|
  {
    var p := parts[0];
    if |parts| == 1 {
      if |p| > 0 {
        SplitJoin([p[1..]], sep);
        assert Join([p[1..]], sep) == p[1..];
      }
    } else {
      var s := Join(parts, sep);
      if |p| == 0 {
        assert s == [sep] + Join(parts[1..], sep);
        assert s[1..] == Join(parts[1..], sep);
        SplitJoin(parts[1..], sep);
      } else {
        var parts' := [p[1..]] + parts[1..];
        assert s[1..] == Join(parts', sep) by {
          assert parts'[1..] == parts[1..];
          assert s == [p[0]] + (p[1..] + [sep] + Join(parts[1..], sep));
        }
        SplitJoin(parts', sep);
        assert [p[0]] + p[1..] == p;
      }
    }
  }

  /** A sequence splits into at least two pieces exactly when it contains the separator. */
  lemma {:induction false} SplitCountsSeparator<T>(s: seq<T>, sep: T)
    ensures |Split(s, sep)| >= 2 <==> sep in s
    decreases |s|
  {
    if |s| > 0 {
      SplitCountsSeparator(s[1..], sep);
      assert sep in s <==> s[0] == sep || sep in s[1..];
    }
  }

  /** `unicode.IsSpace`: the Latin-1 spaces and the other Unicode White_Space runes. */
  predicate IsSpace(c: char)
  {
    c == '\t' || c == '\n' || c == '\U{B}' || c == '\U{C}' || c == '\r' || c == ' '
    || c == '\U{85}' || c == '\U{A0}' || c == '\U{1680}'
    || ('\U{2000}' <= c <= '\U{200A}')
    || c == '\U{2028}' || c == '\U{2029}' || c == '\U{202F}' || c == '\U{205F}' || c == '\U{3000}'
  }

  /** Every rune of `s` outside the window `[i, j)` is white space. */
  predicate OnlySpaceOutside(s: seq<char>, i: int, j: int)
    requires 0 <= i <= j <= |s|
  {
    && (forall k | 0 <= k < i :: IsSpace(s[k]))
    && (forall k | j <= k < |s| :: IsSpace(s[k]))
  }

  /** `strings.TrimSpace` on a rune sequence: the longest infix that neither
      starts nor ends with white space, everything cut away being white space. */
  function TrimSpace(s: seq<char>): (r: seq<char>)
    ensures exists i, j | 0 <= i <= j <= |s| :: r == s[i..j] && OnlySpaceOutside(s, i, j)
    ensures |r| > 0 ==> !IsSpace(r[0]) && !IsSpace(r[|r| - 1])
  {
    var i := SpacePrefix(s);
    var j := i + SpaceFreeEnd(s[i..]);
    assert OnlySpaceOutside(s, i, j) by {
      forall k | j <= k < |s| ensures IsSpace(s[k]) {
        assert s[k] == s[i..][k - i];
      }
    }
    s[i..j]
  }

  /** A rune sequence that neither starts nor ends with white space is left as it is. */
  lemma TrimSpaceOfTrimmed(s: seq<char>)
    requires |s| > 0 ==> !IsSpace(s[0]) && !IsSpace(s[|s| - 1])
    ensures TrimSpace(s) == s
  {
    assert SpacePrefix(s) == 0;
    assert s[0..] == s;
    assert SpaceFreeEnd(s) == |s|;
  }

  /** Trimming twice is trimming once. */
  lemma TrimSpaceIdempotent(s: seq<char>)
    ensures TrimSpace(TrimSpace(s)) == TrimSpace(s)
  {
    TrimSpaceOfTrimmed(TrimSpace(s));
  }

  /** Length of the white-space prefix of `s`. */
  function SpacePrefix(s: seq<char>): (i: nat)
    ensures i <= |s|
    ensures forall k | 0 <= k < i :: IsSpace(s[k])
    ensures i < |s| ==> !IsSpace(s[i])
    decreases |s|
  {
    if |s| > 0 && IsSpace(s[0]) then 1 + SpacePrefix(s[1..]) else 0
  }

  /** Length of `s` without its white-space suffix. */
  function SpaceFreeEnd(s: seq<char>): (j: nat)
    ensures j <= |s|
    ensures forall k | j <= k < |s| :: IsSpace(s[k])
    ensures j > 0 ==> !IsSpace(s[j - 1])
    ensures |s| > 0 && !IsSpace(s[0]) ==> j > 0
    decreases |s|
  {
    if |s| > 0 && IsSpace(s[|s| - 1]) then SpaceFreeEnd(s[..|s| - 1]) else |s|
  }

  /** Number of bytes in the UTF-8 encoding of one rune. */
  function Utf8Width(c: char): nat
  {
    if c as int < 0x80 then 1
    else if c as int < 0x800 then 2
    else if c as int < 0x10000 then 3
    else 4
  }

  /** Go's `len(str)`: the UTF-8 byte length of a string, at least its rune count. */
  function ByteLen(s: seq<char>): (n: nat)
    ensures n >= |s|
    ensures n == |s| <==> forall k | 0 <= k < |s| :: s[k] as int < 0x80
    decreases |s|
  {
    if |s| == 0 then 0 else ByteLen(s[..|s| - 1]) + Utf8Width(s[|s| - 1])
  }

  /** Go's `byte`. */
  newtype byte = b: int | 0 <= b < 256

  /** The UTF-8 encoding of one rune, as Go's `[]byte(string)` produces it. */
  function Utf8EncodeRune(c: char): (bs: seq<byte>)
    ensures |bs| == Utf8Width(c)
    ensures c as int < 0x80 ==> bs == [c as int as byte]
    ensures c as int >= 0x80 ==> 0x80 <= bs[|bs| - 1] < 0xC0
  {
    var n := c as int;
    if n < 0x80 then [n as byte]
    else if n < 0x800 then [(0xC0 + n / 64) as byte, (0x80 + n % 64) as byte]
    else if n < 0x10000 then
      [(0xE0 + n / 4096) as byte, (0x80 + (n / 64) % 64) as byte, (0x80 + n % 64) as byte]
    else
      [(0xF0 + n / 262144) as byte, (0x80 + (n / 4096) % 64) as byte,
       (0x80 + (n / 64) % 64) as byte, (0x80 + n % 64) as byte]
  }

  /** The UTF-8 encoding of a rune sequence; its length is Go's `len`. */
  function Utf8Encode(s: seq<char>): (bs: seq<byte>)
    ensures |bs| == ByteLen(s)
    decreases |s|
  {
    if |s| == 0 then [] else Utf8Encode(s[..|s| - 1]) + Utf8EncodeRune(s[|s| - 1])
  }
}
