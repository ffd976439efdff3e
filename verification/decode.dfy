/**
 * The decode traversal of decode.go: `Unmarshal` walks the fields of a
 * record description in declaration order and assigns each field the
 * whitespace-trimmed rune slice `[fromPos, toPos)` of the WHOLE record,
 * converted by `setFieldValue`.  Reflection is replaced by an explicit
 * schema; the callees decode.go uses but that are not part of this model
 * (the one-argument `parseFieldTag`, `tag.Validate`, `tag.decimals`,
 * `ConvertEBCDICToAsciiNumber`, `strconv.ParseFloat` and user `Unmarshaler`s)
 * are function-valued parameters gathered in `Env`.
 */
module Decode {
  import opened Results
  import opened GoStrings
  import opened Strconv
  import opened FieldTag

  /** What `setFieldValue` and `Unmarshal` distinguish about a field's type. */
  datatype Kind =
    | IntKind(width: IntWidth)  // reflect.Int, Int8, Int16, Int32, Int64
    | FloatKind                 // reflect.Float32, Float64
    | StringKind
    | BoolKind
    | Nested(fields: seq<Field>) // a struct that does not implement Unmarshaler
    | SelfDecoding              // any other kind whose address implements Unmarshaler
    | Unsupported(kindName: string)

  datatype Field = Field(name: string, tag: StructTag, kind: Kind)

  /** The signed integer kinds; `Int` is 64 bits wide. */
  datatype IntWidth = Int | Int8 | Int16 | Int32 | Int64

  /** The kinds narrower than the 64 bits `ParseInt` reads. */
  predicate Narrow(w: IntWidth)
  {
    w.Int8? || w.Int16? || w.Int32?
  }

  /** Half the number of values of a narrow kind: its values are `[-half, half)`. */
  function HalfRange(w: IntWidth): (h: int)
    requires Narrow(w)
    ensures h >= 0x80
  {
    match w
    case Int8 => 0x80
    case Int16 => 0x8000
    case _ => 0x8000_0000
  }

  /** What `reflect.Value.SetInt` stores: the value converted to the field's
      width, which keeps its low bits (two's complement wrap-around). */
  function StoredInt(i: int, w: IntWidth): (r: int)
    ensures Narrow(w) ==> -HalfRange(w) <= r < HalfRange(w) && (r - i) % (2 * HalfRange(w)) == 0
    ensures Narrow(w) && -HalfRange(w) <= i < HalfRange(w) ==> r == i
    ensures !Narrow(w) ==> r == i
  {
    if Narrow(w) then (i + HalfRange(w)) % (2 * HalfRange(w)) - HalfRange(w) else i
  }

  /** `300` stored in an `int8` field reads back as `44`, and `-129` as `127`. */
  lemma NarrowFieldsWrap()
    ensures StoredInt(300, Int8) == 44
    ensures StoredInt(-129, Int8) == 127
    ensures StoredInt(40000, Int16) == -25536
  {
  }

  /** A Go type as `reflect.Type.String()` prints it. */
  datatype GoType = GoType(name: string, isPointer: bool)

  /** The `v any` handed to `Unmarshal`. */
  datatype Target =
    | NilInterface
    | NonPointer(typeName: string)
    | NilPointer(typeName: string)   // typeName includes the leading `*`
    | RecordPointer(typeName: string, fields: seq<Field>)

  datatype Value =
    | IntValue(i: int)
    | FloatValue(x: real)
    | StringValue(s: string)
    | BoolValue(b: bool)
    | SelfDecoded(input: string)    // the text handed to the field's own Unmarshal

  /** One write into the target: the field at `path` (field indices from the
      outermost record inward) received `value`. */
  datatype Assignment = Assignment(path: seq<nat>, value: Value)

  datatype SetError =
    | ConversionFailed      // ConvertEBCDICToAsciiNumber returned an error
    | InvalidIntValue       // ErrInvalidIntValue
    | InvalidFloatValue     // ErrInvalidFloatValue
    | InvalidBooleanValue   // ErrInvalidBooleanValue
    | UnsupportedKind       // ErrUnsupportedKind
    | SelfDecodeFailed      // the field's own Unmarshal returned an error

  datatype DecodeError =
    | InvalidUnmarshal(t: Option<GoType>)          // InvalidUnmarshalError
    | TagParseFailed(field: string, tagError: TagError)
    | ValidateFailed(field: string)
    | SetFailed(field: string, setError: SetError)
    | SliceOutOfRange(field: string)               // runtime panic of runes[fromPos:toPos]

  /** `InvalidUnmarshalError.Error`. */
  function InvalidUnmarshalMessage(t: Option<GoType>): string
  {
    match t
    case None => "range: Unmarshal(nil)"
    case Some(ty) =>
      if !ty.isPointer then "range: Unmarshal(non-pointer " + ty.name + ")"
      else "range: Unmarshal(nil " + ty.name + ")"
  }

  /** The collaborators decode.go calls but this model does not define. */
  datatype Env = Env(
    parseTag: StructTag -> TagOutcome,            // parseFieldTag(tag)
    validate: (Tag, int) -> bool,                 // tag.Validate(len(runes)) == nil
    decimals: Tag -> int,                         // tag.decimals
    convertNumber: (string, int) -> Option<string>, // ConvertEBCDICToAsciiNumber
    parseFloat: string -> Option<real>,           // strconv.ParseFloat(s, 64)
    selfDecode: string -> bool)                   // Unmarshaler.Unmarshal(value) == nil

  /** What `Unmarshal` leaves behind: the writes it made, in order, and the
      error it returned.  Writes made before an error stay in the target. */
  datatype Outcome = Outcome(writes: seq<Assignment>, err: Option<DecodeError>)

  const Skip: Outcome := Outcome([], None)

  /** `setFieldValue`: convert the trimmed text of one field. */
  function SetFieldValue(env: Env, kind: Kind, value: string, t: Tag): (r: Result<Value, SetError>)
    ensures kind == StringKind ==> r == Success(StringValue(value))
    ensures kind == BoolKind ==>
              (r.Success? <==> ParseBool(value).Some?)
              && (r.Success? ==> r.value == BoolValue(ParseBool(value).value))
              && (r.Failure? ==> r.error == InvalidBooleanValue)
    ensures kind.IntKind? && env.convertNumber(value, env.decimals(t)).Some? ==>
              var c := env.convertNumber(value, env.decimals(t)).value;
              (r.Success? <==> Atoi(c).Some?)
              && (r.Success? ==> r.value == IntValue(StoredInt(Atoi(c).value, kind.width)))
              && (r.Failure? ==> r.error == InvalidIntValue)
    // a number the converter rejects fails before it is parsed
    ensures (kind.IntKind? || kind == FloatKind) && env.convertNumber(value, env.decimals(t)).None? ==>
              r == Failure(ConversionFailed)
    ensures kind == FloatKind && env.convertNumber(value, env.decimals(t)).Some? ==>
              var c := env.convertNumber(value, env.decimals(t)).value;
              (r.Success? <==> env.parseFloat(c).Some?)
              && (r.Success? ==> r.value == FloatValue(env.parseFloat(c).value))
              && (r.Failure? ==> r.error == InvalidFloatValue)
    // a field that decodes itself receives the text, or reports its own failure
    ensures kind == SelfDecoding ==>
              (r.Success? <==> env.selfDecode(value))
              && (r.Success? ==> r.value == SelfDecoded(value))
              && (r.Failure? ==> r.error == SelfDecodeFailed)
    ensures kind.Nested? || kind.Unsupported? ==> r == Failure(UnsupportedKind)
  {
    match kind
    case IntKind(w) => (
      match env.convertNumber(value, env.decimals(t))
      case None => Failure(ConversionFailed)
      case Some(c) => (
        match Atoi(c)
        case None => Failure(InvalidIntValue)
        case Some(i) => Success(IntValue(StoredInt(i, w)))))
    case FloatKind => (
      match env.convertNumber(value, env.decimals(t))
      case None => Failure(ConversionFailed)
      case Some(c) => (
        match env.parseFloat(c)
        case None => Failure(InvalidFloatValue)
        case Some(x) => Success(FloatValue(x))))
    case StringKind => Success(StringValue(value))
    case BoolKind => (
      match ParseBool(value)
      case None => Failure(InvalidBooleanValue)
      case Some(b) => Success(BoolValue(b)))
    case SelfDecoding =>
      if env.selfDecode(value) then Success(SelfDecoded(value)) else Failure(SelfDecodeFailed)
    case Nested(_) => Failure(UnsupportedKind)
    case Unsupported(_) => Failure(UnsupportedKind)
  }

  /** The text a field with range `t` receives: the trimmed runes `[fromPos, toPos)`. */
  function FieldText(runes: seq<char>, t: Tag): string
    requires 0 <= t.fromPos <= t.toPos <= |runes|
  {
    TrimSpace(runes[t.fromPos..t.toPos])
  }

  /** The body of `Unmarshal`'s loop for a field that is not a nested record. */
  function DecodeLeaf(env: Env, runes: seq<char>, f: Field, path: seq<nat>): (o: Outcome)
    ensures |o.writes| <= 1
    ensures o.err.None? && |o.writes| == 1 ==>
              var t := env.parseTag(f.tag).tag;
              && o.writes[0].path == path
              && 0 <= t.fromPos <= t.toPos <= |runes|
              && Success(o.writes[0].value) == SetFieldValue(env, f.kind, FieldText(runes, t), t)
    ensures o.err.Some? ==> o.writes == []
  {
    var p := env.parseTag(f.tag);
    if p.err.Some? then
      if p.err.value == TagEmpty then Skip
      // the missing range end is a runtime panic, which no flag can skip
      else if p.tag.flags.optional && p.err.value != MissingRangeEnd then Skip
      else Outcome([], Some(TagParseFailed(f.name, p.err.value)))
    else
      var t := p.tag;
      if !env.validate(t, |runes|) then
        if t.flags.optional then Skip else Outcome([], Some(ValidateFailed(f.name)))
      else if !(0 <= t.fromPos <= t.toPos <= |runes|) then
        Outcome([], Some(SliceOutOfRange(f.name)))
      else
        match SetFieldValue(env, f.kind, FieldText(runes, t), t)
        case Failure(e) =>
          if t.flags.optional then Skip else Outcome([], Some(SetFailed(f.name, e)))
        case Success(v) => Outcome([Assignment(path, v)], None)
  }

  /** Running `a` and then, if it succeeded, `b`. */
  function AndThen(a: Outcome, b: Outcome): Outcome
  {
    if a.err.Some? then a else Outcome(a.writes + b.writes, b.err)
  }

  /** One field of `Unmarshal`'s loop: a nested record is decoded recursively
      against the same whole input; any other field goes through `DecodeLeaf`. */
  function DecodeField(env: Env, runes: seq<char>, f: Field, path: seq<nat>): Outcome
    decreases f, 1
  {
    match f.kind
    case Nested(children) => DecodeFields(env, runes, children, path, 0)
    case _ => DecodeLeaf(env, runes, f, path)
  }

  /** The remaining fields of `Unmarshal`'s loop, the first of them having index `first`. */
  function DecodeFields(env: Env, runes: seq<char>, fields: seq<Field>, path: seq<nat>, first: nat): Outcome
    decreases fields, 0
  {
    if |fields| == 0 then Skip
    else AndThen(DecodeField(env, runes, fields[0], path + [first]), DecodeFields(env, runes, fields[1..], path, first + 1))
  }

  /** `Unmarshal`. */
  function Unmarshal(env: Env, data: seq<char>, v: Target): (o: Outcome)
    ensures !v.RecordPointer? ==> o.writes == [] && o.err.Some? && o.err.value.InvalidUnmarshal?
  {
    match v
    case NilInterface => Outcome([], Some(InvalidUnmarshal(None)))
    case NonPointer(name) => Outcome([], Some(InvalidUnmarshal(Some(GoType(name, false)))))
    case NilPointer(name) => Outcome([], Some(InvalidUnmarshal(Some(GoType(name, true)))))
    case RecordPointer(_, fields) => DecodeFields(env, data, fields, [], 0)
  }

  // ---------------------------------------------------------------------
  // Properties of the traversal.

  /** The three rejections of a target that is not a non-nil pointer, with the
      messages decode.go's tests pin; nothing is written. */
  lemma InvalidTargetsRejected(env: Env, data: seq<char>, name: string)
    ensures var o := Unmarshal(env, data, NilInterface);
            o.writes == [] && InvalidUnmarshalMessage(o.err.value.t) == "range: Unmarshal(nil)"
    ensures var o := Unmarshal(env, data, NonPointer(name));
            o.writes == [] && InvalidUnmarshalMessage(o.err.value.t) == "range: Unmarshal(non-pointer " + name + ")"
    ensures var o := Unmarshal(env, data, NilPointer(name));
            o.writes == [] && InvalidUnmarshalMessage(o.err.value.t) == "range: Unmarshal(nil " + name + ")"
  {
  }

  /** Decoding a field list is decoding its two halves in sequence: an error in
      the first half stops everything, with the first half's writes kept. */
  lemma {:induction false} DecodeFieldsConcat(env: Env, runes: seq<char>, a: seq<Field>, b: seq<Field>,
                                             path: seq<nat>, first: nat)
    ensures DecodeFields(env, runes, a + b, path, first)
         == AndThen(DecodeFields(env, runes, a, path, first), DecodeFields(env, runes, b, path, first + |a|))
    decreases |a|
  {
    if |a| == 0 {
      assert a + b == b;
      assert DecodeFields(env, runes, a, path, first) == Skip;
      AndThenSkip(DecodeFields(env, runes, b, path, first));
    } else {
      DecodeFieldsConcat(env, runes, a[1..], b, path, first + 1);
      DecodeFieldsConcatStep(env, runes, a, b, path, first);
    }
  }

  /** The step of `DecodeFieldsConcat`: the head's outcome put before a split of the rest. */
  lemma DecodeFieldsConcatStep(env: Env, runes: seq<char>, a: seq<Field>, b: seq<Field>, path: seq<nat>, first: nat)
    requires |a| > 0
    requires DecodeFields(env, runes, a[1..] + b, path, first + 1)
          == AndThen(DecodeFields(env, runes, a[1..], path, first + 1), DecodeFields(env, runes, b, path, first + |a|))
    ensures DecodeFields(env, runes, a + b, path, first)
         == AndThen(DecodeFields(env, runes, a, path, first), DecodeFields(env, runes, b, path, first + |a|))
  {
    TailOfConcat(a, b);
    AndThenAssoc(DecodeField(env, runes, a[0], path + [first]), DecodeFields(env, runes, a[1..], path, first + 1),
                 DecodeFields(env, runes, b, path, first + |a|));
  }

  /** The tail of a concatenation with a non-empty first part. */
  lemma TailOfConcat<T>(a: seq<T>, b: seq<T>)
    requires |a| > 0
    ensures (a + b)[0] == a[0] && (a + b)[1..] == a[1..] + b
  {
  }

  /** Nothing done first changes nothing. */
  lemma AndThenSkip(o: Outcome)
    ensures AndThen(Skip, o) == o
  {
    assert [] + o.writes == o.writes;
  }

  /** Sequencing is associative. */
  lemma AndThenAssoc(a: Outcome, b: Outcome, c: Outcome)
    ensures AndThen(a, AndThen(b, c)) == AndThen(AndThen(a, b), c)
  {
    if a.err.None? && b.err.None? {
      assert a.writes + (b.writes + c.writes) == (a.writes + b.writes) + c.writes;
    }
  }

  /** The first field whose decoding fails ends `Unmarshal`: its error is the
      result, the writes of the fields before it stay, and no field after it is
      looked at (the outcome is that of the prefix ending at the failing field). */
  lemma FirstErrorAborts(env: Env, runes: seq<char>, fields: seq<Field>, path: seq<nat>, first: nat, k: nat)
    requires k < |fields|
    requires DecodeFields(env, runes, fields[..k], path, first).err.None?
    requires DecodeField(env, runes, fields[k], path + [first + k]).err.Some?
    ensures DecodeFields(env, runes, fields, path, first) == DecodeFields(env, runes, fields[..k + 1], path, first)
    ensures DecodeFields(env, runes, fields, path, first).err == DecodeField(env, runes, fields[k], path + [first + k]).err
  {
    var upTo := fields[..k + 1];
    DecodeFieldsSplitAt(env, runes, fields, path, first, k + 1);
    assert upTo[..k] == fields[..k] && upTo[k..] == [fields[k]];
    DecodeFieldsSplitAt(env, runes, upTo, path, first, k);
    assert [fields[k]][1..] == [];
  }

  /** Decoding a field list is decoding its first `n` fields and then the rest. */
  lemma DecodeFieldsSplitAt(env: Env, runes: seq<char>, fields: seq<Field>, path: seq<nat>, first: nat, n: nat)
    requires n <= |fields|
    ensures DecodeFields(env, runes, fields, path, first)
         == AndThen(DecodeFields(env, runes, fields[..n], path, first), DecodeFields(env, runes, fields[n..], path, first + n))
  {
    assert fields == fields[..n] + fields[n..];
    DecodeFieldsConcat(env, runes, fields[..n], fields[n..], path, first);
  }

  /** A field without a range tag is skipped: no write, no error. */
  lemma EmptyTagSkipped(env: Env, runes: seq<char>, f: Field, path: seq<nat>)
    requires !f.kind.Nested?
    requires env.parseTag(f.tag).err == Some(TagEmpty)
    ensures DecodeField(env, runes, f, path) == Outcome([], None)
  {
  }

  /** An optional field never stops the decode through a tag, validation or
      conversion error; only the two runtime panics remain, of a range tag
      without a comma and of an out-of-range slice. */
  lemma OptionalFieldSwallowsErrors(env: Env, runes: seq<char>, f: Field, path: seq<nat>)
    requires !f.kind.Nested?
    requires env.parseTag(f.tag).tag.flags.optional
    ensures var o := DecodeField(env, runes, f, path);
            o.err.None? || o.err.value.SliceOutOfRange? || o.err == Some(TagParseFailed(f.name, MissingRangeEnd))
    // the errors swallowed leave the field unwritten
    ensures var p := env.parseTag(f.tag);
            p.err.Some? && p.err.value != MissingRangeEnd ==> DecodeField(env, runes, f, path) == Skip
    ensures var p := env.parseTag(f.tag);
            p.err.None? && !env.validate(p.tag, |runes|) ==> DecodeField(env, runes, f, path) == Skip
    ensures var p := env.parseTag(f.tag);
            p.err.None? && env.validate(p.tag, |runes|) && 0 <= p.tag.fromPos <= p.tag.toPos <= |runes| ==>
              SetFieldValue(env, f.kind, FieldText(runes, p.tag), p.tag).Failure? ==>
              DecodeField(env, runes, f, path) == Skip
  {
  }

  /** A range tag without a comma aborts the decode whether or not the field is optional. */
  lemma MissingRangeEndAborts(env: Env, runes: seq<char>, f: Field, path: seq<nat>)
    requires !f.kind.Nested?
    requires env.parseTag(f.tag).err == Some(MissingRangeEnd)
    ensures DecodeField(env, runes, f, path) == Outcome([], Some(TagParseFailed(f.name, MissingRangeEnd)))
  {
  }

  /** A non-optional field whose parsed tag the validator rejects aborts with `ValidateFailed`. */
  lemma ValidateErrorAborts(env: Env, runes: seq<char>, f: Field, path: seq<nat>)
    requires !f.kind.Nested?
    requires env.parseTag(f.tag).err.None?
    requires !env.validate(env.parseTag(f.tag).tag, |runes|)
    requires !env.parseTag(f.tag).tag.flags.optional
    ensures DecodeField(env, runes, f, path) == Outcome([], Some(ValidateFailed(f.name)))
  {
  }

  /** A non-optional field whose text does not convert aborts with the conversion's error. */
  lemma SetErrorAborts(env: Env, runes: seq<char>, f: Field, path: seq<nat>)
    requires !f.kind.Nested?
    requires env.parseTag(f.tag).err.None?
    requires var t := env.parseTag(f.tag).tag;
             env.validate(t, |runes|) && 0 <= t.fromPos <= t.toPos <= |runes|
             && SetFieldValue(env, f.kind, FieldText(runes, t), t).Failure?
    requires !env.parseTag(f.tag).tag.flags.optional
    ensures var t := env.parseTag(f.tag).tag;
            DecodeField(env, runes, f, path)
              == Outcome([], Some(SetFailed(f.name, SetFieldValue(env, f.kind, FieldText(runes, t), t).error)))
  {
  }

  /** A field whose tag parses and validates, whose range lies in the input and
      whose text converts, is written with the converted value, and the decode goes on. */
  lemma AcceptedFieldIsWritten(env: Env, runes: seq<char>, f: Field, path: seq<nat>)
    requires !f.kind.Nested?
    requires env.parseTag(f.tag).err.None?
    requires var t := env.parseTag(f.tag).tag;
             env.validate(t, |runes|) && 0 <= t.fromPos <= t.toPos <= |runes|
             && SetFieldValue(env, f.kind, FieldText(runes, t), t).Success?
    ensures var t := env.parseTag(f.tag).tag;
            DecodeField(env, runes, f, path)
              == Outcome([Assignment(path, SetFieldValue(env, f.kind, FieldText(runes, t), t).value)], None)
  {
  }

  /** A non-optional field with a rejected tag aborts with that tag error. */
  lemma TagErrorAborts(env: Env, runes: seq<char>, f: Field, path: seq<nat>)
    requires !f.kind.Nested?
    requires env.parseTag(f.tag).err.Some? && env.parseTag(f.tag).err != Some(TagEmpty)
    requires !env.parseTag(f.tag).tag.flags.optional
    ensures DecodeField(env, runes, f, path) == Outcome([], Some(TagParseFailed(f.name, env.parseTag(f.tag).err.value)))
  {
  }

  /** A string field whose tag parses and validates receives the trimmed runes
      `[fromPos, toPos)` of the whole input, verbatim. */
  lemma StringFieldGetsTrimmedSlice(env: Env, runes: seq<char>, f: Field, path: seq<nat>)
    requires f.kind == StringKind
    requires env.parseTag(f.tag).err.None?
    requires env.validate(env.parseTag(f.tag).tag, |runes|)
    requires var t := env.parseTag(f.tag).tag; 0 <= t.fromPos <= t.toPos <= |runes|
    ensures var t := env.parseTag(f.tag).tag;
            DecodeField(env, runes, f, path)
              == Outcome([Assignment(path, StringValue(TrimSpace(runes[t.fromPos..t.toPos])))], None)
  {
    var t := env.parseTag(f.tag).tag;
    var text := FieldText(runes, t);
    assert SetFieldValue(env, f.kind, text, t) == Success(StringValue(text));
    assert DecodeLeaf(env, runes, f, path) == Outcome([Assignment(path, StringValue(text))], None);
  }

  /** With the number converter passing text through, an int field reads back
      the integer `Itoa` printed, as its width stores it. */
  lemma IntFieldReadsPrintedInteger(env: Env, w: IntWidth, n: int, t: Tag)
    requires env.convertNumber(Itoa(n), env.decimals(t)) == Some(Itoa(n))
    ensures SetFieldValue(env, IntKind(w), Itoa(n), t) == Success(IntValue(StoredInt(n, w)))
  {
    AtoiItoa(n);
  }

  /** An int field whose tag parses and validates, whose converter passes the
      text through and whose trimmed slice is the decimal text of `n`, receives `n`
      as its width stores it. */
  lemma IntFieldGetsPrintedInteger(env: Env, runes: seq<char>, f: Field, path: seq<nat>, n: int)
    requires f.kind.IntKind?
    requires env.parseTag(f.tag).err.None?
    requires env.validate(env.parseTag(f.tag).tag, |runes|)
    requires var t := env.parseTag(f.tag).tag;
             && 0 <= t.fromPos <= t.toPos <= |runes|
             && TrimSpace(runes[t.fromPos..t.toPos]) == Itoa(n)
             && env.convertNumber(Itoa(n), env.decimals(t)) == Some(Itoa(n))
    ensures DecodeField(env, runes, f, path) == Outcome([Assignment(path, IntValue(StoredInt(n, f.kind.width)))], None)
  {
    IntFieldReadsPrintedInteger(env, f.kind.width, n, env.parseTag(f.tag).tag);
  }

  /** Every tag that parses lies within `[0, n]`, as `parseFieldTag` with upper bound `n` guarantees. */
  ghost predicate TagsWithin(env: Env, n: int)
  {
    forall st :: env.parseTag(st).err.None? ==> 0 <= env.parseTag(st).tag.fromPos <= env.parseTag(st).tag.toPos <= n
  }

  /** When tags are parsed against the length of the input, as the two-argument
      `parseFieldTag` does, no field (at any depth) can hit the slice panic. */
  lemma {:induction false} NoSlicePanicField(env: Env, runes: seq<char>, f: Field, path: seq<nat>)
    requires TagsWithin(env, |runes|)
    ensures var o := DecodeField(env, runes, f, path); o.err.None? || !o.err.value.SliceOutOfRange?
    decreases f, 1
  {
    match f.kind
    case Nested(children) => NoSlicePanicFields(env, runes, children, path, 0);
    case _ =>
  }

  lemma {:induction false} NoSlicePanicFields(env: Env, runes: seq<char>, fields: seq<Field>, path: seq<nat>, first: nat)
    requires TagsWithin(env, |runes|)
    ensures var o := DecodeFields(env, runes, fields, path, first); o.err.None? || !o.err.value.SliceOutOfRange?
    decreases fields, 0
  {
    if |fields| > 0 {
      NoSlicePanicField(env, runes, fields[0], path + [first]);
      NoSlicePanicFields(env, runes, fields[1..], path, first + 1);
    }
  }

  /** Every write lands inside the field it was made for: a nested record's
      writes all have paths that extend the nested field's path. */
  lemma {:induction false} WritesStayInsideField(env: Env, runes: seq<char>, f: Field, path: seq<nat>)
    ensures forall w | w in DecodeField(env, runes, f, path).writes :: |w.path| >= |path| && w.path[..|path|] == path
    decreases f, 1
  {
    if f.kind.Nested? {
      WritesStayInsideFields(env, runes, f.kind.fields, path, 0);
    } else {
      assert DecodeField(env, runes, f, path) == DecodeLeaf(env, runes, f, path);
      LeafWritesAtPath(env, runes, f, path);
      forall w | w in DecodeLeaf(env, runes, f, path).writes
        ensures |w.path| >= |path| && w.path[..|path|] == path
      {
        assert w.path[..|path|] == w.path;
      }
    }
  }

  /** A field that is not a nested record writes at most once, at its own path. */
  lemma LeafWritesAtPath(env: Env, runes: seq<char>, f: Field, path: seq<nat>)
    ensures forall w | w in DecodeLeaf(env, runes, f, path).writes :: w.path == path
  {
    var o := DecodeLeaf(env, runes, f, path);
    if |o.writes| == 1 {
      assert o.writes == [o.writes[0]];
    }
  }

  lemma {:induction false} WritesStayInsideFields(env: Env, runes: seq<char>, fields: seq<Field>, path: seq<nat>, first: nat)
    ensures forall w | w in DecodeFields(env, runes, fields, path, first).writes ::
              |w.path| > |path| && w.path[..|path|] == path && w.path[|path|] >= first
    decreases fields, 0
  {
    if |fields| > 0 {
      var p := path + [first];
      WritesStayInsideField(env, runes, fields[0], p);
      WritesStayInsideFields(env, runes, fields[1..], path, first + 1);
      forall w | w in DecodeField(env, runes, fields[0], p).writes
        ensures |w.path| > |path| && w.path[..|path|] == path && w.path[|path|] >= first
      {
        assert w.path[..|p|] == p;
        assert w.path[..|path|] == p[..|path|];
        assert w.path[|path|] == p[|path|];
      }
    }
  }

  // ---------------------------------------------------------------------
  // The fields of the nested record in decode_test.go's example, decoded
  // from "AB2D": A = "A", B = 2, and C keeps its zero value.

  function RangeTag(r: string): StructTag
  {
    StructTag(map["range" := r])
  }

  /** The collaborators instantiated as in a build where tags are parsed
      against the record length, validation accepts every parsed tag and
      numbers are not rescaled. */
  function PlainEnv(n: int): Env
  {
    Env(st => ParseFieldTag(st, n), (t, len) => true, t => 0, (s, d) => Some(s), s => None, s => true)
  }

  const ExampleA: Field := Field("A", RangeTag("0,1"), StringKind)
  const ExampleB: Field := Field("B", RangeTag("2,3"), IntKind(Int))
  const ExampleC: Field := Field("C", StructTag(map[]), FloatKind)

  /** The example's tags parse as written against the length 4. */
  lemma ExampleTagA()
    ensures PlainEnv(4).parseTag(ExampleA.tag) == TagOutcome(Tag(0, 1, Flags(false)), None)
  {
    RangeRoundTrip(0, 1, 4);
    assert FormatRange(0, 1) == "0,1";
  }

  lemma ExampleTagB()
    ensures PlainEnv(4).parseTag(ExampleB.tag) == TagOutcome(Tag(2, 3, Flags(false)), None)
  {
    RangeRoundTrip(2, 3, 4);
    assert FormatRange(2, 3) == "2,3";
  }

  lemma ExampleTagC()
    ensures PlainEnv(4).parseTag(ExampleC.tag).err == Some(TagEmpty)
  {
    assert Split("", ',') == [""];
  }

  /** `A string [0,1)` reads "A". */
  lemma ExampleLeafA()
    ensures DecodeField(PlainEnv(4), "AB2D", ExampleA, [0, 0]) == Outcome([Assignment([0, 0], StringValue("A"))], None)
  {
    ExampleTagA();
    assert "AB2D"[0..1] == "A";
    TrimSpaceOfTrimmed("A");
    StringFieldGetsTrimmedSlice(PlainEnv(4), "AB2D", ExampleA, [0, 0]);
  }

  /** `B int [2,3)` reads 2. */
  lemma ExampleLeafB()
    ensures DecodeField(PlainEnv(4), "AB2D", ExampleB, [0, 1]) == Outcome([Assignment([0, 1], IntValue(2))], None)
  {
    ExampleTagB();
    assert "AB2D"[2..3] == "2";
    TrimSpaceOfTrimmed("2");
    assert Itoa(2) == "2" by { assert NatDigits(2) == "2"; }
    IntFieldGetsPrintedInteger(PlainEnv(4), "AB2D", ExampleB, [0, 1], 2);
  }

  /** The untagged `C` is skipped. */
  lemma ExampleLeafC()
    ensures DecodeField(PlainEnv(4), "AB2D", ExampleC, [0, 2]) == Skip
  {
    ExampleTagC();
    EmptyTagSkipped(PlainEnv(4), "AB2D", ExampleC, [0, 2]);
  }

  /** An optional field whose range tag has no comma stops the decode: the
      missing second component is a panic in Go, not an error a flag can skip. */
  lemma ExampleNoCommaAborts()
    ensures var f := Field("X", StructTag(map["range" := "5", "flags" := "optional"]), StringKind);
            DecodeField(PlainEnv(4), "AB2D", f, [0]) == Outcome([], Some(TagParseFailed("X", MissingRangeEnd)))
  {
    var f := Field("X", StructTag(map["range" := "5", "flags" := "optional"]), StringKind);
    assert f.tag.Get("range") == "5";
    NoCommaRange();
    MissingRangeEndAborts(PlainEnv(4), "AB2D", f, [0]);
  }
}
