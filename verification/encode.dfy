/**
 * Encoding a record into one fixed-length line (encode.go): the tagged
 * fields are collected, put in ascending `fromPos` order, rendered one by one
 * by `MarshalField`, and written after a cursor that starts at column 2, with
 * spaces filling the gap before each field.
 */
module Encode {
  import opened Results
  import opened Strconv
  import opened FieldTag
  import opened Padding
  import opened FieldOrder

  /** The alignment a field is formatted with; `AlignmentNone` on a tag means
      "use the configured one". */
  datatype Alignment = AlignmentNone | AlignmentLeft | AlignmentRight | AlignmentCenter

  /** The package configuration (config.go). */
  datatype Config = Config(alignment: Alignment, decimalPlaces: int, leadingZeroes: bool)

  /** The configuration `GetConfig` creates on first use and never changes. */
  const DefaultConfig: Config := Config(AlignmentLeft, 2, true)

  /** The value of one struct field, by the kind `MarshalField` dispatches on. */
  datatype FieldValue =
    | StringVal(s: string)
    | IntVal(i: int)                  // reflect.Int only
    | Float64Val(x: real)
    | MarshalerStruct(id: nat)        // a struct implementing Marshaler; `id` selects its Marshal result
    | PlainStruct                     // a struct that does not implement Marshaler
    | OtherVal(kindName: string)      // any other kind: bool, the sized ints, slices, ...

  datatype EncField = EncField(name: string, tag: StructTag, value: FieldValue)

  /** What `Marshal` is handed, by its reflect kind. */
  datatype Subject =
    | NilPointer
    | PointerTo(target: seq<EncField>)
    | StructValue(fields: seq<EncField>)
    | OtherValue(kindName: string)

  /** An error from one of the formatting collaborators, kept opaque. */
  datatype FieldError = FieldError(message: string) | IntConversionFailed(cause: FieldError)

  datatype EncodeError =
    | NilPointerError
    | InvalidValue
    | TagParseFailed(field: string, tagError: TagError)
    | MarshalFieldFailed(field: string, cause: FieldError)
    | FieldTooLong(field: string, required: int, actual: int)
    | OverlappingField(field: string)

  const NilPointerMessage: string := "cannot marshal nil pointer"
  const InvalidValueMessage: string := "invalid marshal value"

  /** The two results of `ConvertAsciiToEBCDICNumber`. */
  datatype Conversion = Conversion(text: string, err: Option<FieldError>)

  /** The collaborators `Marshal` and `MarshalField` call but that are not part
      of this model: the tag parser they call with one argument, the tag's
      alignment, length and decimals, the alignment formatters, the number
      converter, `%f` formatting and a user type's `Marshal`. */
  datatype EncodeEnv = EncodeEnv(
    parseTag: StructTag -> TagOutcome,
    alignOf: Tag -> Alignment,
    lenOf: Tag -> int,
    decimalsOf: Tag -> int,
    formatString: (string, int, Alignment) -> Result<string, FieldError>,
    toEbcdic: (string, int) -> Conversion,
    formatNumber: (string, int, bool, Alignment) -> Result<string, FieldError>,
    formatFloat: real -> string,
    marshalCustom: nat -> Result<string, FieldError>)

  /** The alignment `MarshalField` uses: the tag's, unless it has none. */
  function ChosenAlignment(env: EncodeEnv, cfg: Config, t: Tag): Alignment
  {
    if env.alignOf(t) != AlignmentNone then env.alignOf(t) else cfg.alignment
  }

  /** `MarshalField`: render one field for the slot of tag `t`. */
  function MarshalField(env: EncodeEnv, cfg: Config, v: FieldValue, t: Tag): (r: Result<string, FieldError>)
    // a struct without Marshal and every kind not dispatched on render as nothing
    ensures v.PlainStruct? || v.OtherVal? ==> r == Success("")
    // a string goes to the string formatter with the tag's length and the chosen alignment
    ensures v.StringVal? ==> r == env.formatString(v.s, env.lenOf(t), ChosenAlignment(env, cfg, t))
    // an int is printed with %d and converted; a failed conversion is reported wrapped
    ensures v.IntVal? && env.toEbcdic(Itoa(v.i), env.decimalsOf(t)).err.Some? ==>
              r == Failure(IntConversionFailed(env.toEbcdic(Itoa(v.i), env.decimalsOf(t)).err.value))
    // ... and a converted one goes to the number formatter with the configured leading zeroes
    ensures v.IntVal? && env.toEbcdic(Itoa(v.i), env.decimalsOf(t)).err.None? ==>
              r == env.formatNumber(env.toEbcdic(Itoa(v.i), env.decimalsOf(t)).text, env.lenOf(t),
                                    cfg.leadingZeroes, ChosenAlignment(env, cfg, t))
    // a float is printed with %f, converted, and formatted whatever the conversion reported
    ensures v.Float64Val? ==>
              r == env.formatNumber(env.toEbcdic(env.formatFloat(v.x), env.decimalsOf(t)).text, env.lenOf(t),
                                    cfg.leadingZeroes, ChosenAlignment(env, cfg, t))
    // a Marshaler's error is returned as it is; its output is formatted as a string
    ensures v.MarshalerStruct? && env.marshalCustom(v.id).Failure? ==> r == Failure(env.marshalCustom(v.id).error)
    ensures v.MarshalerStruct? && env.marshalCustom(v.id).Success? ==>
              r == env.formatString(env.marshalCustom(v.id).value, env.lenOf(t), ChosenAlignment(env, cfg, t))
  {
    var align := ChosenAlignment(env, cfg, t);
    match v
    case StringVal(s) => env.formatString(s, env.lenOf(t), align)
    case IntVal(i) =>
      var c := env.toEbcdic(Itoa(i), env.decimalsOf(t));
      if c.err.Some? then Failure(IntConversionFailed(c.err.value))
      else env.formatNumber(c.text, env.lenOf(t), cfg.leadingZeroes, align)
    case Float64Val(x) =>
      var c := env.toEbcdic(env.formatFloat(x), env.decimalsOf(t));
      env.formatNumber(c.text, env.lenOf(t), cfg.leadingZeroes, align)
    case MarshalerStruct(id) => (
      match env.marshalCustom(id)
      case Failure(e) => Failure(e)
      case Success(bytes) => env.formatString(bytes, env.lenOf(t), align))
    case PlainStruct => Success("")
    case OtherVal(_) => Success("")
  }

  /** A tag that sets an alignment overrides the configured one: the
      configuration's alignment then makes no difference to any field. */
  lemma TagAlignmentOverridesConfig(env: EncodeEnv, cfg: Config, v: FieldValue, t: Tag, a: Alignment)
    requires env.alignOf(t) != AlignmentNone
    ensures MarshalField(env, cfg, v, t) == MarshalField(env, cfg.(alignment := a), v, t)
  {
  }

  /** Without a tag alignment, a string field is formatted with the configured
      alignment, and with the tag's otherwise. */
  lemma StringFieldAlignment(env: EncodeEnv, cfg: Config, s: string, t: Tag)
    ensures env.alignOf(t) == AlignmentNone ==>
              MarshalField(env, cfg, StringVal(s), t) == env.formatString(s, env.lenOf(t), cfg.alignment)
    ensures env.alignOf(t) != AlignmentNone ==>
              MarshalField(env, cfg, StringVal(s), t) == env.formatString(s, env.lenOf(t), env.alignOf(t))
  {
  }

  /** The formatters fill the width they are given: every text they return is that many runes long. */
  ghost predicate FormattersFillWidth(env: EncodeEnv)
  {
    && (forall s, n, a :: env.formatString(s, n, a).Success? ==> |env.formatString(s, n, a).value| == n)
    && (forall s, n, z, a :: env.formatNumber(s, n, z, a).Success? ==> |env.formatNumber(s, n, z, a).value| == n)
  }

  /** Only the kinds `MarshalField` dispatches on go through a formatter. */
  predicate Formatted(v: FieldValue)
  {
    v.StringVal? || v.IntVal? || v.Float64Val? || v.MarshalerStruct?
  }

  /** With formatters that fill their width, a formatted field renders to exactly
      the tag's length, and any other field to nothing, whatever its slot: the
      second kind is the one that shifts later fields. */
  lemma RenderedWidth(env: EncodeEnv, cfg: Config, v: FieldValue, t: Tag)
    requires FormattersFillWidth(env)
    ensures Formatted(v) && MarshalField(env, cfg, v, t).Success? ==> |MarshalField(env, cfg, v, t).value| == env.lenOf(t)
    ensures !Formatted(v) ==> MarshalField(env, cfg, v, t) == Success("")
  {
  }

  /** A float field is rendered whatever the converter reports: its error is
      dropped and its text used. */
  lemma FloatConversionErrorIgnored(env: EncodeEnv, cfg: Config, x: real, t: Tag, e: FieldError)
    requires env.toEbcdic(env.formatFloat(x), env.decimalsOf(t)).err == Some(e)
    ensures MarshalField(env, cfg, Float64Val(x), t)
         == env.formatNumber(env.toEbcdic(env.formatFloat(x), env.decimalsOf(t)).text,
                             env.lenOf(t), cfg.leadingZeroes, ChosenAlignment(env, cfg, t))
  {
  }

  // ---------------------------------------------------------------------
  // Collecting the tagged fields.

  /** A field whose tag error stops `Marshal`: not an empty tag, and either not
      optional or the panic of a range tag without a comma, which no flag skips. */
  predicate Rejected(env: EncodeEnv, f: EncField)
  {
    var p := env.parseTag(f.tag);
    p.err.Some? && p.err.value != TagEmpty && (!p.tag.flags.optional || p.err.value == MissingRangeEnd)
  }

  /** `e` is what collecting its field yields: the field's tag parsed cleanly to `e.tag`. */
  predicate KeptAs(env: EncodeEnv, e: Entry<EncField>)
  {
    env.parseTag(e.field.tag) == TagOutcome(e.tag, None)
  }

  /** The first loop of `Marshal`: keep every field whose tag parses, skip an
      empty or optional one that does not, abort on any other. */
  function Collect(env: EncodeEnv, fields: seq<EncField>): (r: Result<seq<Entry<EncField>>, EncodeError>)
    ensures r.Success? ==> forall e | e in r.value :: KeptAs(env, e) && e.field in fields
    decreases |fields|
  {
    if |fields| == 0 then Success([])
    else
      var f := fields[0];
      var p := env.parseTag(f.tag);
      if p.err.Some? then
        if p.err.value == TagEmpty || (p.tag.flags.optional && p.err.value != MissingRangeEnd) then Collect(env, fields[1..])
        else Failure(TagParseFailed(f.name, p.err.value))
      else
        match Collect(env, fields[1..])
        case Failure(e) => Failure(e)
        case Success(es) => Success([Entry(p.tag, f)] + es)
  }

  /** Collecting succeeds exactly when no field is rejected, and otherwise
      fails with the tag error of the first rejected field. */
  lemma {:induction false} CollectOutcome(env: EncodeEnv, fields: seq<EncField>)
    ensures Collect(env, fields).Success? <==> forall i | 0 <= i < |fields| :: !Rejected(env, fields[i])
    ensures Collect(env, fields).Failure? ==>
              exists i | 0 <= i < |fields| ::
                && Rejected(env, fields[i])
                && (forall j | 0 <= j < i :: !Rejected(env, fields[j]))
                && Collect(env, fields).error == TagParseFailed(fields[i].name, env.parseTag(fields[i].tag).err.value)
    decreases |fields|
  {
    if |fields| > 0 {
      CollectOutcome(env, fields[1..]);
      var r := Collect(env, fields);
      if !Rejected(env, fields[0]) && r.Failure? {
        var i :| 0 <= i < |fields[1..]| && Rejected(env, fields[1..][i])
                 && (forall j | 0 <= j < i :: !Rejected(env, fields[1..][j]))
                 && Collect(env, fields[1..]).error == TagParseFailed(fields[1..][i].name, env.parseTag(fields[1..][i].tag).err.value);
        assert Rejected(env, fields[i + 1]);
        forall j | 0 <= j < i + 1
          ensures !Rejected(env, fields[j])
        {
          if j > 0 { assert fields[j] == fields[1..][j - 1]; }
        }
      }
      if r.Success? {
        forall i | 0 <= i < |fields|
          ensures !Rejected(env, fields[i])
        {
          if i > 0 { assert fields[i] == fields[1..][i - 1]; }
        }
      }
      if forall i | 0 <= i < |fields| :: !Rejected(env, fields[i]) {
        forall i | 0 <= i < |fields[1..]|
          ensures !Rejected(env, fields[1..][i])
        {
          assert fields[1..][i] == fields[i + 1];
        }
      }
    }
  }

  /** Collecting keeps each field whose tag parses exactly as often as it occurs. */
  lemma {:induction false} CollectCounts(env: EncodeEnv, fields: seq<EncField>, e: Entry<EncField>)
    requires Collect(env, fields).Success?
    ensures multiset(Collect(env, fields).value)[e] == if KeptAs(env, e) then multiset(fields)[e.field] else 0
    decreases |fields|
  {
    if |fields| > 0 {
      var f := fields[0];
      assert fields == [f] + fields[1..];
      assert multiset(fields) == multiset{f} + multiset(fields[1..]);
      CollectCounts(env, fields[1..], e);
      var p := env.parseTag(f.tag);
      if p.err.None? {
        var es := Collect(env, fields[1..]).value;
        assert Collect(env, fields).value == [Entry(p.tag, f)] + es;
        assert multiset([Entry(p.tag, f)] + es) == multiset{Entry(p.tag, f)} + multiset(es);
      }
    }
  }

  /** Whether collecting succeeds, and what it keeps, do not depend on the order
      the fields are declared in. */
  lemma CollectOrderIndependent(env: EncodeEnv, fs1: seq<EncField>, fs2: seq<EncField>)
    requires multiset(fs1) == multiset(fs2)
    ensures Collect(env, fs1).Success? <==> Collect(env, fs2).Success?
    ensures Collect(env, fs1).Success? ==> multiset(Collect(env, fs1).value) == multiset(Collect(env, fs2).value)
  {
    CollectOutcome(env, fs1);
    CollectOutcome(env, fs2);
    forall i | 0 <= i < |fs1| ensures fs1[i] in multiset(fs2) { assert fs1[i] in multiset(fs1); }
    forall i | 0 <= i < |fs2| ensures fs2[i] in multiset(fs1) { assert fs2[i] in multiset(fs2); }
    if Collect(env, fs1).Success? && Collect(env, fs2).Success? {
      forall e
        ensures multiset(Collect(env, fs1).value)[e] == multiset(Collect(env, fs2).value)[e]
      {
        CollectCounts(env, fs1, e);
        CollectCounts(env, fs2, e);
      }
    }
  }

  // ---------------------------------------------------------------------
  // Writing the sorted fields.

  /** The cursor `Marshal` starts at: the first two columns are filled by the caller. */
  const StartPos: int := 2

  /** A field as `Marshal`'s second loop sees it: its name and what `MarshalField` made of it. */
  datatype Rendered = Rendered(name: string, text: Result<string, FieldError>)

  type Piece = Entry<Rendered>

  function Render(env: EncodeEnv, cfg: Config, e: Entry<EncField>): (p: Piece)
    ensures p.tag == e.tag && p.field.name == e.field.name
  {
    Entry(e.tag, Rendered(e.field.name, MarshalField(env, cfg, e.field.value, e.tag)))
  }

  function RenderAll(env: EncodeEnv, cfg: Config, entries: seq<Entry<EncField>>): (ps: seq<Piece>)
    ensures |ps| == |entries|
    ensures forall i | 0 <= i < |entries| :: ps[i] == Render(env, cfg, entries[i])
  {
    seq(|entries|, i requires 0 <= i < |entries| => Render(env, cfg, entries[i]))
  }

  /** The three checks `Marshal` makes on one field with the cursor at
      `lastPos`, in its order: rendering, length (in runes), overlap. */
  function Check(p: Piece, lastPos: int): (r: Option<EncodeError>)
    ensures r.None? <==>
              && p.field.text.Success?
              && |p.field.text.value| <= p.tag.toPos - p.tag.fromPos
              && lastPos <= p.tag.fromPos
    // the rendering error comes first
    ensures p.field.text.Failure? ==> r == Some(MarshalFieldFailed(p.field.name, p.field.text.error))
    // then the length, in runes
    ensures p.field.text.Success? && |p.field.text.value| > p.tag.toPos - p.tag.fromPos ==>
              r == Some(FieldTooLong(p.field.name, p.tag.toPos - p.tag.fromPos, |p.field.text.value|))
    // then the overlap with the previous field
    ensures p.field.text.Success? && |p.field.text.value| <= p.tag.toPos - p.tag.fromPos && p.tag.fromPos < lastPos ==>
              r == Some(OverlappingField(p.field.name))
  {
    match p.field.text
    case Failure(err) => Some(MarshalFieldFailed(p.field.name, err))
    case Success(str) =>
      var tagLen := p.tag.toPos - p.tag.fromPos;
      if |str| > tagLen then Some(FieldTooLong(p.field.name, tagLen, |str|))
      else if p.tag.fromPos - lastPos < 0 then Some(OverlappingField(p.field.name))
      else None
  }

  /** Where the cursor stands before entry `i`: the start, or the end of entry `i - 1`. */
  function CursorBefore<F>(entries: seq<Entry<F>>, start: int, i: nat): int
    requires i <= |entries|
  {
    if i == 0 then start else entries[i - 1].tag.toPos
  }

  /** The second loop of `Marshal`: write each field after the spaces that
      fill the gap from the cursor, then move the cursor to the field's end. */
  function Assemble(ps: seq<Piece>, lastPos: int): (r: Result<string, EncodeError>)
    decreases |ps|
  {
    if |ps| == 0 then Success([])
    else
      var p := ps[0];
      match Check(p, lastPos)
      case Some(err) => Failure(err)
      case None =>
        var gap := p.tag.fromPos - lastPos;
        var pad := if gap > 0 then SprintfWidth("", gap, false) else "";
        match Assemble(ps[1..], p.tag.toPos)
        case Failure(err) => Failure(err)
        case Success(rest) => Success(pad + p.field.text.value + rest)
  }

  /** The cursor before entry `i + 1` of a list is the cursor before entry `i` of its tail. */
  lemma CursorShift<F>(entries: seq<Entry<F>>, start: int)
    requires |entries| > 0
    ensures forall i | 0 <= i <= |entries| - 1 ::
              CursorBefore(entries[1..], entries[0].tag.toPos, i) == CursorBefore(entries, start, i + 1)
  {
  }

  /** Assembling succeeds exactly when every field passes its checks with the
      cursor at the previous field's end; otherwise the first field that does
      not decides the error. */
  lemma {:induction false} AssembleOutcome(ps: seq<Piece>, lastPos: int)
    ensures Assemble(ps, lastPos).Success? <==>
              forall i | 0 <= i < |ps| :: Check(ps[i], CursorBefore(ps, lastPos, i)).None?
    ensures Assemble(ps, lastPos).Failure? ==>
              exists i | 0 <= i < |ps| ::
                && Check(ps[i], CursorBefore(ps, lastPos, i)) == Some(Assemble(ps, lastPos).error)
                && forall j | 0 <= j < i :: Check(ps[j], CursorBefore(ps, lastPos, j)).None?
    decreases |ps|
  {
    if |ps| > 0 {
      var p := ps[0];
      var rest := ps[1..];
      AssembleOutcome(rest, p.tag.toPos);
      CursorShift(ps, lastPos);
      var r := Assemble(ps, lastPos);
      if Check(p, lastPos).None? {
        if r.Failure? {
          var i :| 0 <= i < |rest|
                   && Check(rest[i], CursorBefore(rest, p.tag.toPos, i)) == Some(Assemble(rest, p.tag.toPos).error)
                   && forall j | 0 <= j < i :: Check(rest[j], CursorBefore(rest, p.tag.toPos, j)).None?;
          forall j | 0 <= j < i + 1
            ensures Check(ps[j], CursorBefore(ps, lastPos, j)).None?
          {
            if j > 0 { assert ps[j] == rest[j - 1]; }
          }
          assert ps[i + 1] == rest[i];
        }
        if forall i | 0 <= i < |ps| :: Check(ps[i], CursorBefore(ps, lastPos, i)).None? {
          forall i | 0 <= i < |rest|
            ensures Check(rest[i], CursorBefore(rest, p.tag.toPos, i)).None?
          {
            assert ps[i + 1] == rest[i];
          }
        }
      }
      if r.Success? {
        forall i | 0 <= i < |ps|
          ensures Check(ps[i], CursorBefore(ps, lastPos, i)).None?
        {
          if i > 0 {
            assert ps[i] == rest[i - 1];
          }
        }
      }
    }
  }

  /** Every field rendered to exactly its width `toPos - fromPos`. */
  predicate ExactWidths(ps: seq<Piece>)
  {
    forall i | 0 <= i < |ps| ::
      ps[i].field.text.Success? && |ps[i].field.text.value| == ps[i].tag.toPos - ps[i].tag.fromPos
  }

  /** No field starts before the cursor, nor more than `MaxWidth` columns after it. */
  predicate GapsInRange<F>(entries: seq<Entry<F>>, start: int)
  {
    forall i {:trigger CursorBefore(entries, start, i)} | 0 <= i < |entries| ::
      CursorBefore(entries, start, i) <= entries[i].tag.fromPos <= CursorBefore(entries, start, i) + MaxWidth
  }

  /** The tail of a list meeting the exact-layout conditions meets them too,
      with the cursor at the head's end, and the head passes its checks. */
  lemma ExactTail(ps: seq<Piece>, start: int)
    requires |ps| > 0
    requires ExactWidths(ps)
    requires GapsInRange(ps, start)
    ensures ExactWidths(ps[1..])
    ensures GapsInRange(ps[1..], ps[0].tag.toPos)
    ensures Check(ps[0], start).None?
    ensures ps[0].tag.fromPos - start <= MaxWidth
  {
    var rest := ps[1..];
    CursorShift(ps, start);
    assert CursorBefore(ps, start, 0) <= ps[0].tag.fromPos <= CursorBefore(ps, start, 0) + MaxWidth;
    assert GapsInRange(rest, ps[0].tag.toPos) by {
      forall i | 0 <= i < |rest|
        ensures CursorBefore(rest, ps[0].tag.toPos, i) <= rest[i].tag.fromPos
                <= CursorBefore(rest, ps[0].tag.toPos, i) + MaxWidth
      {
        assert rest[i] == ps[i + 1];
        assert CursorBefore(ps, start, i + 1) <= ps[i + 1].tag.fromPos <= CursorBefore(ps, start, i + 1) + MaxWidth;
      }
    }
  }

  /** One step of assembling when the head passes its checks: the gap's
      spaces, the head's text, then the tail assembled from the head's end. */
  lemma AssembleStep(ps: seq<Piece>, start: int)
    requires |ps| > 0
    requires Check(ps[0], start).None?
    requires ps[0].tag.fromPos - start <= MaxWidth
    requires Assemble(ps[1..], ps[0].tag.toPos).Success?
    ensures Assemble(ps, start)
         == Success(Spaces(ps[0].tag.fromPos - start) + ps[0].field.text.value
                    + Assemble(ps[1..], ps[0].tag.toPos).value)
  {
    var gap := ps[0].tag.fromPos - start;
    if gap > 0 {
      assert SprintfWidth("", gap, false) == Spaces(gap) + "" == Spaces(gap);
    } else {
      assert Spaces(gap) == "";
    }
  }

  /** The text a rendered field contributes to the line (none when it failed). */
  function TextOf(p: Piece): string
  {
    if p.field.text.Success? then p.field.text.value else ""
  }

  /** The line an exact layout writes: each field's text after the spaces
      that carry the cursor to its start. */
  function Line(ps: seq<Piece>, cursor: int): string
    decreases |ps|
  {
    if |ps| == 0 then []
    else Spaces(ps[0].tag.fromPos - cursor) + TextOf(ps[0]) + Line(ps[1..], ps[0].tag.toPos)
  }

  /** Under the exact-layout conditions assembling succeeds and writes `Line`. */
  lemma {:induction false} ExactAssembles(ps: seq<Piece>, start: int)
    requires ExactWidths(ps)
    requires GapsInRange(ps, start)
    ensures Assemble(ps, start) == Success(Line(ps, start))
    decreases |ps|
  {
    if |ps| > 0 {
      ExactTail(ps, start);
      ExactAssembles(ps[1..], ps[0].tag.toPos);
      AssembleStep(ps, start);
    }
  }

  /** Under the exact-layout conditions every field lies between the start
      and the last field's end, and the line ends there. */
  lemma {:induction false} ExactLength(ps: seq<Piece>, start: int)
    requires ExactWidths(ps)
    requires GapsInRange(ps, start)
    ensures |Line(ps, start)| == CursorBefore(ps, start, |ps|) - start
    ensures forall i | 0 <= i < |ps| ::
              start <= ps[i].tag.fromPos <= ps[i].tag.toPos <= CursorBefore(ps, start, |ps|)
    decreases |ps|
  {
    if |ps| > 0 {
      var rest := ps[1..];
      var to0 := ps[0].tag.toPos;
      ExactTail(ps, start);
      CursorShift(ps, start);
      ExactLength(rest, to0);
      forall i | 0 <= i < |ps|
        ensures start <= ps[i].tag.fromPos <= ps[i].tag.toPos <= CursorBefore(ps, start, |ps|)
      {
        if i > 0 {
          assert rest[i - 1] == ps[i];
        } else if |rest| > 0 {
          assert to0 <= rest[0].tag.fromPos;
        }
      }
    }
  }

  /** The line of a list is the line of its first `i` entries followed by
      the line of the rest, begun at the cursor before entry `i`. */
  lemma {:induction false} LineSplit(ps: seq<Piece>, cursor: int, i: nat)
    requires i <= |ps|
    ensures Line(ps, cursor) == Line(ps[..i], cursor) + Line(ps[i..], CursorBefore(ps, cursor, i))
    decreases i
  {
    if i == 0 {
      assert ps[..0] == [] && ps[0..] == ps;
    } else {
      LineSplit(ps[1..], ps[0].tag.toPos, i - 1);
      LineSplitStep(ps, cursor, i);
    }
  }

  /** The step of `LineSplit`: a split of the tail, with the head put before it. */
  lemma LineSplitStep(ps: seq<Piece>, cursor: int, i: nat)
    requires 0 < i <= |ps|
    requires Line(ps[1..], ps[0].tag.toPos)
          == Line(ps[1..][..i - 1], ps[0].tag.toPos) + Line(ps[1..][i - 1..], CursorBefore(ps[1..], ps[0].tag.toPos, i - 1))
    ensures Line(ps, cursor) == Line(ps[..i], cursor) + Line(ps[i..], CursorBefore(ps, cursor, i))
  {
    var to0 := ps[0].tag.toPos;
    var head := Spaces(ps[0].tag.fromPos - cursor) + TextOf(ps[0]);
    assert ps[..i][0] == ps[0] && ps[..i][1..] == ps[1..][..i - 1];
    assert ps[1..][i - 1..] == ps[i..];
    assert CursorBefore(ps[1..], to0, i - 1) == CursorBefore(ps, cursor, i);
    assert Line(ps[..i], cursor) == head + Line(ps[1..][..i - 1], to0);
    AppendAssoc(head, Line(ps[1..][..i - 1], to0), Line(ps[i..], CursorBefore(ps, cursor, i)));
  }

  lemma AppendAssoc<T>(a: seq<T>, b: seq<T>, c: seq<T>)
    ensures a + (b + c) == (a + b) + c
  {
  }

  /** The exact-layout conditions hold of the first `i` entries, and of the
      rest from the cursor before entry `i`. */
  lemma ExactParts(ps: seq<Piece>, start: int, i: nat)
    requires ExactWidths(ps)
    requires GapsInRange(ps, start)
    requires i <= |ps|
    ensures ExactWidths(ps[..i]) && GapsInRange(ps[..i], start)
    ensures ExactWidths(ps[i..]) && GapsInRange(ps[i..], CursorBefore(ps, start, i))
    ensures CursorBefore(ps[..i], start, i) == CursorBefore(ps, start, i)
  {
    var pre := ps[..i];
    var suf := ps[i..];
    var cur := CursorBefore(ps, start, i);
    forall j | 0 <= j < |pre|
      ensures CursorBefore(pre, start, j) <= pre[j].tag.fromPos <= CursorBefore(pre, start, j) + MaxWidth
    {
      assert CursorBefore(pre, start, j) == CursorBefore(ps, start, j);
    }
    forall j | 0 <= j < |suf|
      ensures CursorBefore(suf, cur, j) <= suf[j].tag.fromPos <= CursorBefore(suf, cur, j) + MaxWidth
    {
      assert CursorBefore(suf, cur, j) == CursorBefore(ps, start, i + j);
    }
  }

  /** The first field of an exact layout comes right after the gap from the
      start, and that gap is all spaces. */
  lemma ExactFirst(ps: seq<Piece>, start: int)
    requires ExactWidths(ps)
    requires GapsInRange(ps, start)
    requires 0 < |ps|
    ensures start <= ps[0].tag.fromPos <= ps[0].tag.toPos <= start + |Line(ps, start)|
    ensures Line(ps, start)[ps[0].tag.fromPos - start .. ps[0].tag.toPos - start] == ps[0].field.text.value
    ensures forall k | 0 <= k < ps[0].tag.fromPos - start :: Line(ps, start)[k] == ' '
  {
    ExactTail(ps, start);
    assert CursorBefore(ps, start, 0) == start;
    var pad := Spaces(ps[0].tag.fromPos - start);
    var text := TextOf(ps[0]);
    var tail := Line(ps[1..], ps[0].tag.toPos);
    assert Line(ps, start) == pad + text + tail;
    assert (pad + text + tail)[|pad| .. |pad| + |text|] == text;
    forall k | 0 <= k < ps[0].tag.fromPos - start
      ensures Line(ps, start)[k] == ' '
    {
      assert (pad + text + tail)[k] == pad[k];
    }
  }

  /** Under the exact-layout conditions the line is the line of the first `i`
      entries, which reaches the cursor before entry `i`, followed by a line
      that shows entry `i` after the gap to its start. */
  lemma ExactAround(ps: seq<Piece>, start: int, i: nat) returns (before: string, after: string, cur: int)
    requires ExactWidths(ps)
    requires GapsInRange(ps, start)
    requires i < |ps|
    ensures cur == CursorBefore(ps, start, i)
    ensures Line(ps, start) == before + after
    ensures |before| == cur - start
    ensures cur <= ps[i].tag.fromPos <= ps[i].tag.toPos <= cur + |after|
    ensures after[ps[i].tag.fromPos - cur .. ps[i].tag.toPos - cur] == ps[i].field.text.value
    ensures forall k | 0 <= k < ps[i].tag.fromPos - cur :: after[k] == ' '
  {
    cur := CursorBefore(ps, start, i);
    before := Line(ps[..i], start);
    after := Line(ps[i..], cur);
    ExactParts(ps, start, i);
    assert Line(ps, start) == before + after by { LineSplit(ps, start, i); }
    assert |before| == cur - start by {
      assert |ps[..i]| == i;
      ExactLength(ps[..i], start);
    }
    var rest := ps[i..];
    assert rest[0] == ps[i];
    ExactFirst(rest, cur);
  }

  /** Under the exact-layout conditions field `i` occupies columns
      `[fromPos - start, toPos - start)` of the line. */
  lemma ExactField(ps: seq<Piece>, start: int, i: nat)
    requires ExactWidths(ps)
    requires GapsInRange(ps, start)
    requires i < |ps|
    ensures start <= ps[i].tag.fromPos <= ps[i].tag.toPos <= start + |Line(ps, start)|
    ensures Line(ps, start)[ps[i].tag.fromPos - start .. ps[i].tag.toPos - start] == ps[i].field.text.value
  {
    var before, after, cur := ExactAround(ps, start, i);
    ShiftedSlice(before, after, start, cur, ps[i].tag.fromPos, ps[i].tag.toPos, ps[i].field.text.value);
  }

  /** A slice `[from - base, to - base)` of `tail` is found at
      `[from - start, to - start)` once `head`, covering `[start, base)`, is put before it. */
  lemma ShiftedSlice(head: string, tail: string, start: int, base: int, from: int, to: int, text: string)
    requires |head| == base - start
    requires base <= from <= to <= base + |tail|
    requires tail[from - base .. to - base] == text
    ensures start <= from <= to <= start + |head + tail|
    ensures (head + tail)[from - start .. to - start] == text
  {
    assert (head + tail)[from - start .. to - start] == tail[from - base .. to - base];
  }

  /** Under the exact-layout conditions the columns from the cursor before
      field `i` up to its start are spaces. */
  lemma ExactGap(ps: seq<Piece>, start: int, i: nat, k: int)
    requires ExactWidths(ps)
    requires GapsInRange(ps, start)
    requires i < |ps|
    requires CursorBefore(ps, start, i) - start <= k < ps[i].tag.fromPos - start
    ensures 0 <= k < |Line(ps, start)| && Line(ps, start)[k] == ' '
  {
    var before, after, cur := ExactAround(ps, start, i);
    assert after[k - |before|] == ' ';
    assert (before + after)[k] == after[k - |before|];
  }

  /** With every field at exactly its width, the line is a fixed-position
      record: field `i` occupies columns `[fromPos - start, toPos - start)`,
      every column between two fields is a space, and the line ends at the
      last field's end, with no trailing padding. */
  lemma ExactLayout(ps: seq<Piece>, start: int)
    requires ExactWidths(ps)
    requires GapsInRange(ps, start)
    ensures Assemble(ps, start).Success?
    ensures |Assemble(ps, start).value| == CursorBefore(ps, start, |ps|) - start
    ensures forall i | 0 <= i < |ps| ::
              && start <= ps[i].tag.fromPos <= ps[i].tag.toPos <= start + |Assemble(ps, start).value|
              && Assemble(ps, start).value[ps[i].tag.fromPos - start .. ps[i].tag.toPos - start] == ps[i].field.text.value
    ensures forall i, k | 0 <= i < |ps| && CursorBefore(ps, start, i) - start <= k < ps[i].tag.fromPos - start ::
              0 <= k < |Assemble(ps, start).value| && Assemble(ps, start).value[k] == ' '
  {
    ExactAssembles(ps, start);
    ExactLength(ps, start);
    var line := Line(ps, start);
    forall i | 0 <= i < |ps|
      ensures start <= ps[i].tag.fromPos <= ps[i].tag.toPos <= start + |line|
      ensures line[ps[i].tag.fromPos - start .. ps[i].tag.toPos - start] == ps[i].field.text.value
    {
      ExactField(ps, start, i);
    }
    forall i, k | 0 <= i < |ps| && CursorBefore(ps, start, i) - start <= k < ps[i].tag.fromPos - start
      ensures 0 <= k < |line| && line[k] == ' '
    {
      ExactGap(ps, start, i, k);
    }
  }

  // ---------------------------------------------------------------------
  // A field that writes fewer runes than its width.

  /** The second loop moves the cursor to the field's end whatever the field
      wrote, so a field rendered short (`MarshalField`'s empty string for a
      bool, say) pulls every later field to the left: here `B [5,7)` ends up
      in columns 0-1 instead of 3-4. */
  lemma AsWrittenShortFieldShiftsLater()
    ensures Assemble([Entry(Tag(2, 5, Flags(false)), Rendered("A", Success(""))),
                      Entry(Tag(5, 7, Flags(false)), Rendered("B", Success("xy")))], StartPos)
         == Success("xy")
  {
    var a := Entry(Tag(2, 5, Flags(false)), Rendered("A", Success("")));
    var b := Entry(Tag(5, 7, Flags(false)), Rendered("B", Success("xy")));
    assert [b][1..] == [];
    assert Assemble([b], 5) == Success("" + "xy" + []);
    assert [a, b][1..] == [b];
    AssembleStep([a, b], 2);
    assert Spaces(0) == "";
    assert "" + "xy" + [] == "xy";
    assert Spaces(0) + "" + "xy" == "xy";
  }

  /** A rendered field padded on the right with spaces to its width, as a
      fixed-position record needs; a field that is too long is left as it is. */
  function FillSlot(p: Piece): (q: Piece)
    ensures q.tag == p.tag && q.field.name == p.field.name
    ensures q.field.text.Success? <==> p.field.text.Success?
    ensures p.field.text.Success? && |p.field.text.value| <= p.tag.toPos - p.tag.fromPos ==>
              && |q.field.text.value| == p.tag.toPos - p.tag.fromPos
              && q.field.text.value[..|p.field.text.value|] == p.field.text.value
    ensures p.field.text.Success? && |p.field.text.value| > p.tag.toPos - p.tag.fromPos ==> q == p
  {
    match p.field.text
    case Failure(_) => p
    case Success(t) =>
      if |t| > p.tag.toPos - p.tag.fromPos then p
      else Entry(p.tag, Rendered(p.field.name, Success(t + Spaces(p.tag.toPos - p.tag.fromPos - |t|))))
  }

  function FillSlots(ps: seq<Piece>): (qs: seq<Piece>)
    ensures |qs| == |ps|
    ensures forall i | 0 <= i < |ps| :: qs[i] == FillSlot(ps[i])
  {
    seq(|ps|, i requires 0 <= i < |ps| => FillSlot(ps[i]))
  }

  /** The second loop with each field filled to its width before it is written. */
  function AssembleFilled(ps: seq<Piece>, lastPos: int): Result<string, EncodeError>
  {
    Assemble(FillSlots(ps), lastPos)
  }

  /** Filling the slots changes no check: the filled line is produced exactly
      when the written one is, and fails with the same error otherwise. */
  lemma FilledChecksAgree(ps: seq<Piece>, lastPos: int)
    ensures forall i | 0 <= i < |ps| ::
              Check(FillSlots(ps)[i], CursorBefore(FillSlots(ps), lastPos, i)) == Check(ps[i], CursorBefore(ps, lastPos, i))
    ensures AssembleFilled(ps, lastPos).Success? <==> Assemble(ps, lastPos).Success?
  {
    var qs := FillSlots(ps);
    forall i | 0 <= i < |ps|
      ensures Check(qs[i], CursorBefore(qs, lastPos, i)) == Check(ps[i], CursorBefore(ps, lastPos, i))
    {
      assert CursorBefore(qs, lastPos, i) == CursorBefore(ps, lastPos, i);
    }
    AssembleOutcome(ps, lastPos);
    AssembleOutcome(qs, lastPos);
  }

  /** When the written line is produced, the filled pieces meet the exact-layout conditions. */
  lemma FilledIsExact(ps: seq<Piece>, start: int)
    requires Assemble(ps, start).Success?
    requires GapsInRange(ps, start)
    ensures forall i | 0 <= i < |ps| ::
              ps[i].field.text.Success? && |ps[i].field.text.value| <= ps[i].tag.toPos - ps[i].tag.fromPos
    ensures ExactWidths(FillSlots(ps))
    ensures GapsInRange(FillSlots(ps), start)
    ensures CursorBefore(FillSlots(ps), start, |ps|) == CursorBefore(ps, start, |ps|)
  {
    var qs := FillSlots(ps);
    AssembleOutcome(ps, start);
    forall i | 0 <= i < |ps|
      ensures ps[i].field.text.Success? && |ps[i].field.text.value| <= ps[i].tag.toPos - ps[i].tag.fromPos
    {
      assert Check(ps[i], CursorBefore(ps, start, i)).None?;
    }
    forall i | 0 <= i < |qs|
      ensures CursorBefore(qs, start, i) <= qs[i].tag.fromPos <= CursorBefore(qs, start, i) + MaxWidth
    {
      assert CursorBefore(qs, start, i) == CursorBefore(ps, start, i);
    }
  }

  /** `line` shows the whole text of `p` from column `fromPos - start`. */
  predicate ShowsAt(line: string, p: Piece, start: int)
  {
    && p.field.text.Success?
    && start <= p.tag.fromPos <= p.tag.fromPos + |p.field.text.value| <= start + |line|
    && line[p.tag.fromPos - start .. p.tag.fromPos - start + |p.field.text.value|] == p.field.text.value
  }

  /** With the slots filled, every field's text starts at column
      `fromPos - start` whatever its length, and the line ends at the last
      field's end. */
  lemma CorrectedKeepsColumns(ps: seq<Piece>, start: int)
    requires Assemble(ps, start).Success?
    requires GapsInRange(ps, start)
    ensures AssembleFilled(ps, start).Success?
    ensures |AssembleFilled(ps, start).value| == CursorBefore(ps, start, |ps|) - start
    ensures forall i | 0 <= i < |ps| :: ShowsAt(AssembleFilled(ps, start).value, ps[i], start)
  {
    var qs := FillSlots(ps);
    FilledIsExact(ps, start);
    ExactAssembles(qs, start);
    ExactLength(qs, start);
    forall i | 0 <= i < |ps|
      ensures ShowsAt(Line(qs, start), ps[i], start)
    {
      FilledPrefixAt(ps[i], qs, start, i);
    }
    assert AssembleFilled(ps, start) == Assemble(qs, start);
  }

  lemma FilledPrefixAt(p: Piece, qs: seq<Piece>, start: int, i: nat)
    requires ExactWidths(qs) && GapsInRange(qs, start) && i < |qs|
    requires qs[i] == FillSlot(p)
    requires p.field.text.Success? && |p.field.text.value| <= p.tag.toPos - p.tag.fromPos
    ensures ShowsAt(Line(qs, start), p, start)
  {
    ExactField(qs, start, i);
    FilledSlotShows(Line(qs, start), p, qs[i], start);
  }

  /** A line showing the filled slot of `p` in place shows `p`'s own text from the slot's start. */
  lemma FilledSlotShows(line: string, p: Piece, q: Piece, start: int)
    requires q == FillSlot(p)
    requires p.field.text.Success? && |p.field.text.value| <= p.tag.toPos - p.tag.fromPos
    requires start <= q.tag.fromPos <= q.tag.toPos <= start + |line|
    requires line[q.tag.fromPos - start .. q.tag.toPos - start] == q.field.text.value
    ensures ShowsAt(line, p, start)
  {
    PrefixOfSlice(line, q.tag.fromPos - start, q.tag.toPos - start, p.field.text.value);
  }

  /** A prefix of a slice is the slice of the same start and the prefix's length. */
  lemma PrefixOfSlice<T>(line: seq<T>, lo: int, hi: int, t: seq<T>)
    requires 0 <= lo <= hi <= |line|
    requires |t| <= hi - lo && line[lo..hi][..|t|] == t
    ensures line[lo..lo + |t|] == t
  {
    assert line[lo..lo + |t|] == line[lo..hi][..|t|];
  }

  // ---------------------------------------------------------------------
  // Marshal.

  /** The fields of a record: collect, sort by `fromPos`, lay out from column 2. */
  function MarshalFields(env: EncodeEnv, cfg: Config, fields: seq<EncField>): (r: Result<string, EncodeError>)
    ensures Collect(env, fields).Failure? ==> r == Failure(Collect(env, fields).error)
  {
    match Collect(env, fields)
    case Failure(e) => Failure(e)
    case Success(es) => Assemble(RenderAll(env, cfg, SortByFrom(es)), StartPos)
  }

  /** `Marshal`: a nil pointer and a value that is neither a struct nor a
      pointer are refused; a struct and a pointer to one encode alike. */
  function Marshal(env: EncodeEnv, cfg: Config, d: Subject): (r: Result<string, EncodeError>)
    ensures d.NilPointer? ==> r == Failure(NilPointerError)
    ensures d.OtherValue? ==> r == Failure(InvalidValue)
  {
    match d
    case NilPointer => Failure(NilPointerError)
    case PointerTo(fields) => MarshalFields(env, cfg, fields)
    case StructValue(fields) => MarshalFields(env, cfg, fields)
    case OtherValue(_) => Failure(InvalidValue)
  }

  /** A pointer to a struct encodes exactly as the struct itself. */
  lemma PointerEncodesLikeStruct(env: EncodeEnv, cfg: Config, fields: seq<EncField>)
    ensures Marshal(env, cfg, PointerTo(fields)) == Marshal(env, cfg, StructValue(fields))
  {
  }

  /** The text of the two errors `Marshal` makes up itself. */
  function Message(e: EncodeError): (m: Option<string>)
    ensures m.Some? <==> e.NilPointerError? || e.InvalidValue?
  {
    match e
    case NilPointerError => Some(NilPointerMessage)
    case InvalidValue => Some(InvalidValueMessage)
    case _ => None
  }

  /** The refusals of `Marshal`, with their messages. */
  lemma MarshalRefusals(env: EncodeEnv, cfg: Config, kindName: string)
    ensures Message(Marshal(env, cfg, NilPointer).error) == Some("cannot marshal nil pointer")
    ensures Message(Marshal(env, cfg, OtherValue(kindName)).error) == Some("invalid marshal value")
  {
  }

  /** With distinct starts among the kept fields, the encoded line does not
      depend on the order the fields are declared in (and whether encoding
      succeeds never does). */
  lemma MarshalOrderIndependent(env: EncodeEnv, cfg: Config, fs1: seq<EncField>, fs2: seq<EncField>)
    requires multiset(fs1) == multiset(fs2)
    requires Collect(env, fs1).Success? ==> DistinctStarts(Collect(env, fs1).value)
    ensures Collect(env, fs1).Success? <==> Collect(env, fs2).Success?
    ensures Collect(env, fs1).Success? ==> MarshalFields(env, cfg, fs1) == MarshalFields(env, cfg, fs2)
  {
    CollectOrderIndependent(env, fs1, fs2);
    if Collect(env, fs1).Success? {
      SortByFromIndependent(Collect(env, fs1).value, Collect(env, fs2).value);
    }
  }

  /** When the kept fields render to exactly their widths and start in
      ascending, non-overlapping order, field `i` (in `fromPos` order) sits at
      column `fromPos - 2` of the line, and the line is as long as the last
      field's end minus 2. */
  lemma MarshalPlacesFields(env: EncodeEnv, cfg: Config, fields: seq<EncField>, ps: seq<Piece>)
    requires Collect(env, fields).Success? && ps == RenderAll(env, cfg, SortByFrom(Collect(env, fields).value))
    requires ExactWidths(ps) && GapsInRange(ps, StartPos)
    ensures MarshalFields(env, cfg, fields).Success?
    ensures |MarshalFields(env, cfg, fields).value| == CursorBefore(ps, StartPos, |ps|) - StartPos
    ensures forall i | 0 <= i < |ps| ::
              && StartPos <= ps[i].tag.fromPos <= ps[i].tag.toPos <= StartPos + |MarshalFields(env, cfg, fields).value|
              && MarshalFields(env, cfg, fields).value[ps[i].tag.fromPos - StartPos .. ps[i].tag.toPos - StartPos]
                 == ps[i].field.text.value
  {
    ExactLayout(ps, StartPos);
  }
}
