# fixedlength, modelled in Dafny

A model of the core of `fixedlength`, a Go codec that maps struct fields to
fixed column ranges of a line of text. Each field carries a `range:"a,b"` tag
giving the half-open rune range `[a, b)` and an optional `flags:"optional"`
tag. The modules are:

- `FieldTag` (tag.go) parses the tags and clamps a range to an upper bound.
- `Ebcdic` (ebcdic-converter.go) decodes EBCDIC negative overpunch. A
  designator letter in the last position stands for the last digit and makes
  the number negative.
- `Padding` (utils.go) pads a string to a width, on the left, on the right or
  centred. It is built on `fmt`'s `%*s`.
- `Decode` (decode.go) covers `Unmarshal`, `setFieldValue` and
  `InvalidUnmarshalError`. `Unmarshal` walks the fields in declaration order,
  recurses into nested records against the same whole input, and gives each
  field the trimmed rune slice of its range, converted by kind.
- `FieldOrder` and `Encode` (encode.go) cover `Marshal`. It collects the
  tagged fields, sorts them by start, renders each with `MarshalField`, and
  writes them after a cursor that starts at column 2, checking each field's
  length and overlap with the previous one.

Three modules model the Go standard library the codec relies on:
`GoStrings` (`strings.Split`/`Join`/`TrimSpace`, UTF-8 length), `Strconv`
(`Atoi`, `Itoa`, `ParseBool`) and `Results` (`Option`, `Result`).

Go reflection is replaced by an explicit schema: a list of fields, each with
a name, a struct tag and a kind. Some callees are not part of this model:
the one-argument `parseFieldTag` that decode.go and encode.go call,
`tag.Validate`, `tag.Len`, `t.align`, `tag.decimals`,
`ConvertEBCDICToAsciiNumber`, `ConvertAsciiToEBCDICNumber`,
`Format*WithAlignment`, `strconv.ParseFloat`, `%f` formatting and user
`Marshaler`/`Unmarshaler` types. Each of them is a function-valued field of
an environment (`Decode.Env`, `Encode.EncodeEnv`), so every property below
holds for every choice of them. Go panics become explicit errors:
`MissingRangeEnd` is a range tag without a comma, and `SliceOutOfRange` is a
range beyond the input (taken as beyond the rune slice's length; see Left out
for its capacity). A panic stops `Unmarshal` and `Marshal` even for an
optional field, since the `optional` checks only see returned errors.

Where the code and its description disagree, the model follows the code:

- `EbcdicToAsciiNumber` inspects the last byte, not the last rune (see Findings).
- Centring measures the string in bytes (see Findings).
- The cursor moves to a field's end whatever the field wrote (see Findings).
- `EbcdicToAsciiNumber` fails on empty input with "empty EBCDIC field"; it does not read it as "0". It takes no decimal places, and the scaling by decimal places belongs to `ConvertEBCDICToAsciiNumber`, which is not part of this model.
- `Marshal`'s cursor starts at column 2, not at the start of the record, since the first two columns are written by the caller.
- Centring puts the odd space on the right, so "hi" centred in 5 is " hi  " (one space before, two after). This follows from `Padding.FormatStringWithPadding`'s contract with offset (5 - 2) / 2 = 1.

## Model

| member | source | states |
|---|---|---|
| `GoStrings.SplitJoin` | tag.go:86 | Splitting the join of separator-free pieces gives back exactly those pieces, so a tag's components are recovered intact |
| `GoStrings.TrimSpace` | decode.go:162 | The trimmed text is an infix of the input with only white space outside it, and it neither starts nor ends with white space |
| `Strconv.Atoi` | tag.go:87-95 | `Atoi` succeeds exactly on an optional sign followed by at least one digit. The value is the digits' value, negated after '-'. A component with a comma in it is never a number |
| `Strconv.AtoiItoa` | tag.go:87-95 | `Atoi` reads back exactly the integer that `Itoa` / `%d` printed, negative ones included |
| `FieldTag.ParseFlagsTag` | tag.go:58-73 | Flag parsing never fails, and `optional` is set exactly when one comma-separated token is `optional`; other tokens are ignored |
| `FieldTag.FlagsFromTokens` | tag.go:58-73 | A flags tag written from a list of tokens sets `optional` if and only if `optional` is among them |
| `FieldTag.ParseRangeTag` | tag.go:77-114 | Every error returns (0, 0). An empty tag gives TagEmpty and a zero bound gives InvalidUpperBound. A first component that is no integer gives InvalidRangeValues. A tag without a comma then panics (MissingRangeEnd), and a second component that is no integer gives InvalidRangeValues. Two integer components, however spelt and whatever follows them, give start max(x,0) and end min(y,bound), with -1 meaning the bound, or InefectualRange when that is empty or inverted. Any accepted range satisfies 0 <= start < end <= bound |
| `FieldTag.ParseRangeOfIntegers` | tag.go:86-113 | The tag "x,y" yields start max(x,0) and end min(y,bound), with -1 meaning the bound. If that range is empty or inverted, it is rejected as inefectual |
| `FieldTag.NonNumericRangeStart` | tag_test.go:61-68 | "a,5" with bound 10 is rejected with InvalidRangeValues |
| `FieldTag.NonNumericRangeEnd` | tag_test.go:69-76 | "2,b" with bound 10 is rejected with InvalidRangeValues |
| `FieldTag.RangeTestValid` | tag_test.go:29-36 | "2,5" with bound 10 gives the range [2, 5) |
| `FieldTag.RangeTestCapped` | tag_test.go:45-52 | "1,20" with bound 15 is capped to [1, 15) |
| `FieldTag.RangeTestEmpty` | tag_test.go:77-84 | "3,3" is rejected as inefectual |
| `FieldTag.RangeTestInverted` | tag_test.go:85-92 | "5,2" is rejected as inefectual |
| `FieldTag.RangeTestToBound` | tag_test.go:93-100 | "0,-1" with bound 10 runs to the bound: [0, 10) |
| `FieldTag.ParseRangeOfComponents` | tag.go:86-113 | Any comma-separated components whose first two are integers parse to the clamped range of those two; later components are ignored |
| `FieldTag.LeadingZeroRange` | tag.go:86-113 | "01,5" with bound 10 gives [1, 5), since `Atoi` accepts leading zeros |
| `FieldTag.PlusSignRange` | tag.go:86-113 | "+1,5" with bound 10 gives [1, 5), since `Atoi` accepts a '+' sign |
| `FieldTag.ExtraComponentIgnored` | tag.go:86-113 | "1,2,3" with bound 10 gives [1, 2): only the first two components are read |
| `FieldTag.NoCommaRange` | tag.go:86-92 | "5" has an integer start and no second component, so it reaches the missing-index panic (MissingRangeEnd) |
| `FieldTag.RangeCase` | tag.go:86-113 | The tag printed from two integers parses to the clamped range, or to InefectualRange when that range is empty or inverted |
| `FieldTag.RangeRoundTrip` | tag.go:77-114 | A well-formed range inside the bound survives printing as "from,to" and parsing back |
| `FieldTag.ParseFieldTag` | tag.go:36-56 | The flags are parsed before the range, so a tag whose range fails still carries its `optional` flag. A missing range tag gives TagEmpty. The error, and on success the range, are exactly those of `ParseRangeTag` on the `range` tag, so the range lies within the bound |
| `Ebcdic.DesignatorTableIsBijective` | ebcdic-converter.go:9-20 | The ten designators map one-to-one onto the digits 0-9, and reading a designator's digit back gives the designator |
| `Ebcdic.EbcdicToAsciiNumber` | ebcdic-converter.go:22-81 | It fails only on empty input. A field whose last byte is no designator is returned unchanged. Otherwise the result starts with '-' and ends with the designator's digit |
| `Ebcdic.ZerosAddNothing` | ebcdic-converter.go:65-68 | Stripping the leading '0's leaves a digit string with the same value |
| `Ebcdic.NegativeIntegerValue` | ebcdic-converter.go:63-76 | For digits followed by a designator, the output is '-' then digits worth magnitude*10 + digit, with no leading zero unless the output is a single digit |
| `Ebcdic.OverpunchRoundTrip` | ebcdic-converter.go:27-77 | Any canonical magnitude, overpunched and zero-filled on the left, decodes to its negation, and "-0" to "-0" |
| `Ebcdic.DecimalFieldShape` | ebcdic-converter.go:38-61 | A decimal field keeps exactly one '.'. The integer part loses its leading zeros (becoming "0" if none remain), and the fraction is the first fraction piece followed by the digit |
| `Ebcdic.AsWrittenIgnoresNonAsciiDesignator` | ebcdic-converter.go:28-29 | UTF-8 text ending in a non-ASCII rune is returned unchanged, since its last byte is a continuation byte and never a designator |
| `Ebcdic.AsWrittenMissesZeroDesignator` | ebcdic-converter_test.go:59-61 | The test input "0020ü" (bytes 30 30 32 30 C3 BC) is returned unchanged rather than read as -200 |
| `Ebcdic.OverpunchUtf8RoundTrip` | ebcdic-converter.go:28-29 | Reading the last rune instead, the overpunch round trip holds in UTF-8 text for all ten designators, 'ü' included |
| `Ebcdic.CorrectedReadsZeroDesignator` | ebcdic-converter_test.go:59-61 | With the last rune read, "0020ü" decodes to "-200" |
| `Padding.FormatStringWithPadding` | utils.go:13-26 | Left and right padding fill a slot of `length` runes, with the string at the right or left edge and never truncated. Centring ASCII text puts half the spare room on the left and the odd space on the right, and an over-long string grows by the excess. An unknown type returns the string as it is |
| `Padding.Centre` | utils.go:19-21 | Measured in runes, the string sits at (length - n) / 2 in a slot of `length` spaces. An over-long string n runes long is not cut: the line grows to 2n - length runes, with the string at (n - length) / 2 |
| `Padding.CentreExample` | utils.go:19-21 | "test_center" centred in 17 gets three spaces on either side. This is the centring case of `FormatStringWithAlignment`'s test (utils_test.go:33-37), stated for the padding it delegates to |
| `Padding.AsWrittenCentreFallsShort` | utils.go:20-21 | "ü" centred in 5 gives " ü  ", four runes, one short of the slot |
| `Padding.FormatStringWithPaddingByRunes` | utils.go:13-26 | With centring measured in runes, every padding type fills the slot exactly, for every string |
| `Padding.CorrectedCentreFillsSlot` | utils.go:19-21 | Measured in runes, "ü" centred in 5 gives "  ü  " |
| `Decode.StoredInt` | decode.go:22-33 | For int8, int16 and int32 fields, `SetInt` keeps the value modulo 2^8, 2^16 or 2^32 in two's complement. The result is in the field's range, congruent to the input, and unchanged when it already fits. int and int64 store the value as it is |
| `Decode.NarrowFieldsWrap` | decode.go:22-33 | 300 is stored in an int8 as 44, -129 as 127, and 40000 in an int16 as -25536 |
| `Decode.SetFieldValue` | decode.go:19-66 | A string field receives its text verbatim. A bool field succeeds exactly when `ParseBool` accepts. An int field of any width succeeds exactly when the converted text is an integer, and gets that integer truncated to the field's width. A float field succeeds exactly when `parseFloat` accepts the converted text, and gets its value. A number the converter rejects fails with ConversionFailed before it is parsed. A field that decodes itself succeeds exactly when its own `Unmarshal` does, and receives the text. A nested or unsupported kind fails with UnsupportedKind |
| `Decode.DecodeLeaf` | decode.go:141-169 | A non-nested field writes at most once, at its own path, and only on success. The value is `setFieldValue` applied to the trimmed rune slice of its parsed range, which lies inside the input |
| `Decode.Unmarshal` | decode.go:119-124 | Any target other than a non-nil pointer is rejected with an InvalidUnmarshalError, and nothing is written |
| `Decode.InvalidTargetsRejected` | decode.go:105-124 | nil, a non-pointer and a nil pointer give the messages "range: Unmarshal(nil)", "range: Unmarshal(non-pointer T)" and "range: Unmarshal(nil T)" |
| `Decode.DecodeFieldsConcat` | decode.go:129-170 | Decoding a field list is decoding its two halves in sequence, and an error in the first half stops the second |
| `Decode.FirstErrorAborts` | decode.go:129-170 | The first failing field's error is the result. The writes before it are kept, and no later field is looked at |
| `Decode.EmptyTagSkipped` | decode.go:141-145 | A field without a range tag is skipped: no write and no error |
| `Decode.OptionalFieldSwallowsErrors` | decode.go:141-169 | An optional field never aborts the decode through a returned tag, validation or conversion error. Only the panics abort it: a range tag without a comma, or a slice out of range. A tag error other than the panic, a failed validation or a failed conversion leaves it unwritten: the field is skipped |
| `Decode.MissingRangeEndAborts` | tag.go:92 | A range tag without a comma aborts the decode with MissingRangeEnd and no write, whether or not the field is optional |
| `Decode.ValidateErrorAborts` | decode.go:153-159 | A non-optional field whose range fails validation aborts with ValidateFailed and no write |
| `Decode.SetErrorAborts` | decode.go:162-168 | A non-optional field whose conversion fails aborts with SetFailed carrying the conversion's error, and no write |
| `Decode.AcceptedFieldIsWritten` | decode.go:153-169 | A field that validates, lies inside the input and converts is written exactly once, at its own path, with the converted value |
| `Decode.TagErrorAborts` | decode.go:141-151 | A non-optional field whose tag fails (other than by being empty) aborts with that tag error |
| `Decode.StringFieldGetsTrimmedSlice` | decode.go:162-164 | A string field with a valid range receives the whitespace-trimmed runes [fromPos, toPos) of the whole input |
| `Decode.IntFieldReadsPrintedInteger` | decode.go:22-33 | An int field of any width whose converter passes text through reads back the integer `Itoa` printed, truncated to that width |
| `Decode.IntFieldGetsPrintedInteger` | decode.go:153-169 | An int field whose trimmed slice is the decimal text of n receives n, truncated to the field's width |
| `Decode.NoSlicePanicFields` | decode.go:153-162 | When tags are parsed against the input length, no field at any depth reaches the out-of-range slice |
| `Decode.WritesStayInsideFields` | decode.go:129-139 | Every write of field i has a path that starts with i, so a nested record only writes inside itself |
| `Decode.ExampleLeafA` | decode_test.go:11-28 | In the example record "AB2D", `A string [0,1)` receives "A" |
| `Decode.ExampleLeafB` | decode_test.go:12-32 | In "AB2D", `B int [2,3)` receives 2 |
| `Decode.ExampleLeafC` | decode_test.go:13-36 | In "AB2D", the untagged `C float64` is left alone |
| `Decode.ExampleNoCommaAborts` | tag.go:92 | In "AB2D", an optional field tagged `range:"5"` still aborts with MissingRangeEnd |
| `FieldOrder.SortByFrom` | encode.go:78-80 | The sorted list is a permutation of the collected fields |
| `FieldOrder.SortByFromSorted` | encode.go:78-80 | The sorted list is in ascending `fromPos` order |
| `FieldOrder.SortedPermutationUnique` | encode.go:78-80 | Two sorted permutations of the same entries, with distinct starts, are equal. An unstable sort therefore cannot change the result |
| `FieldOrder.SortByFromIndependent` | encode.go:78-80 | Sorting any two arrangements of the same entries with distinct starts gives the same list |
| `Encode.MarshalField` | encode.go:118-170 | Plain structs and unhandled kinds render as "". A string goes to the string formatter with the tag's length and alignment. An int is printed and converted: a failed conversion is reported wrapped, a converted one goes to the number formatter with the configured leading zeroes. A float is formatted whatever its conversion reports. A user `Marshal` either returns its error or has its output formatted as a string |
| `Encode.RenderedWidth` | encode.go:118-170 | When the formatters return exactly the width they are asked for, a formatted field renders to exactly the tag's length. Every other field renders to "" |
| `Encode.TagAlignmentOverridesConfig` | encode.go:122-125 | When the tag sets an alignment, the configured one makes no difference |
| `Encode.StringFieldAlignment` | encode.go:128-134 | A string field is formatted to the tag's length with the tag's alignment, or with the configured one when the tag has none |
| `Encode.FloatConversionErrorIgnored` | encode.go:148-154 | A float field's conversion error is dropped, and its converted text is formatted anyway |
| `Encode.Collect` | encode.go:63-76 | Every kept entry is a declared field whose tag parsed cleanly to the entry's range |
| `Encode.CollectOutcome` | encode.go:63-76 | Collecting succeeds if and only if no field has a non-empty tag error that is either non-optional or the missing-comma panic. Otherwise the first such field's error is returned |
| `Encode.CollectOrderIndependent` | encode.go:63-76 | Whether collecting succeeds, and which entries it keeps, do not depend on declaration order |
| `Encode.Check` | encode.go:88-104 | A field passes if and only if it rendered, fits its width in runes and does not start before the cursor. The checks run in that order: a rendering error gives MarshalFieldFailed with its cause, too long gives FieldTooLong with the width and actual length, and a start before the cursor gives OverlappingField |
| `Encode.AssembleOutcome` | encode.go:85-114 | Writing succeeds if and only if every field passes its checks with the cursor at the previous field's end. Otherwise the first failing field decides the error |
| `Encode.ExactLayout` | encode.go:84-115 | With every field at exactly its width and every gap at most 1,000,000 columns (the width limit of `%*s`), field i occupies columns [fromPos-2, toPos-2). Every column between fields is a space, and the line ends at the last field's end |
| `Encode.AsWrittenShortFieldShiftsLater` | encode.go:113 | A field that writes less than its width pulls later fields left: `B [5,7)` lands in columns 0-1 instead of 3-4 |
| `Encode.FilledChecksAgree` | encode.go:93-104 | Padding each field to its width changes no check, so the padded layout succeeds exactly when the written one does |
| `Encode.CorrectedKeepsColumns` | encode.go:106-113 | With each field padded to its width, every field's text starts at column fromPos-2 whatever its length |
| `Encode.Marshal` | encode.go:41-55 | A nil pointer and a value that is neither a struct nor a pointer are refused. A failing collection is reported as is |
| `Encode.PointerEncodesLikeStruct` | encode.go:45-52 | A pointer to a struct encodes exactly like the struct itself, since both reach the same field loop (a pointer-receiver `Marshal` is outside the model, see Left out) |
| `Encode.MarshalRefusals` | encode.go:47-54 | The refusals carry the messages "cannot marshal nil pointer" and "invalid marshal value" |
| `Encode.MarshalOrderIndependent` | encode.go:63-116 | With distinct starts, the encoded line does not depend on the order the fields are declared in |
| `Encode.MarshalPlacesFields` | encode.go:41-116 | When the sorted fields render to exactly their widths without overlap, with every gap at most 1,000,000 columns, `Marshal` succeeds and each field sits at column fromPos-2 of the line |

## Left out

- Reflection: struct values, field kinds and tags are an explicit schema (`Decode.Field`, `Encode.EncField`), not Go runtime types.
- The callees named above as environment fields are left abstract because their source is not part of this model. The one-argument `parseFieldTag` is one of them: tag.go defines only the two-argument form, so the form decode.go and encode.go call is not part of this model.
- config.go's `GetConfig` with `sync.Once` becomes a `Config` parameter, with `Encode.DefaultConfig` as the value it creates.
- `[]rune(string(data))` on invalid UTF-8 (replacement runes): the input of `Unmarshal` is already a rune sequence.
- Error wrapping text (`fmt.Errorf("failed to parse tag %s (%s) : %w", ...)`, `errors.Join`) becomes error constructors that carry the field name and the cause. Only the messages of `InvalidUnmarshalError` and of `Marshal`'s two refusals are modelled as text.
- `tag.String` and `flags.String`, used only inside error messages.
- Strconv.Atoi: 64-bit overflow (`ErrRange`) is not modelled, because integers are unbounded.
- Decode.SetFieldValue: `strconv.ParseInt`'s 64-bit range error is not modelled (it reads like `Atoi`), and a float32 field is not rounded to single precision.
- Decode.Unmarshal: only a pointer to a struct is modelled as a valid target. A non-nil pointer to another kind makes `NumField` panic at decode.go:129, and that panic is not modelled.
- Encode.PointerEncodesLikeStruct: `Marshaler` receivers and addressability are not modelled. For a field whose `Marshal` has a pointer receiver, `implementsMarshaler` (encode.go:17-29) is true only when the field is addressable, that is when the record is reached through a pointer, and then `field.Interface().(Marshaler)` at encode.go:157 panics; through a struct value the field renders "". In the model a field's value, and so whether it is a `MarshalerStruct`, is the same whether the record is reached through a pointer or not.
- Decode.SetFieldValue: a float value is whatever the abstract `parseFloat` returns, since floating point is not modelled; 64-bit rounding and ParseFloat's syntax are not stated.
- Decode.DecodeLeaf: a range past the input is taken to panic (`SliceOutOfRange`). Go panics only past the capacity of `runes`, which can exceed its length, since `[]rune(string)` may round its allocation up or use a 32-rune buffer. If `tag.Validate` admits `len(runes) < toPos <= cap(runes)`, Go hands the field zero-padded text (NUL runes) where the model aborts.
- Encode.MarshalField: the float branch renders through the abstract `formatFloat` (`%f`), since floating point is not modelled.
- Encode.Marshal: only a pointer to a struct is modelled (`PointerTo`). A non-nil pointer to another kind makes `NumField` panic in Go, and that panic is not modelled.
- Encode.MarshalField: encode.go:139 and 150 pass `tag.decimals` with `tag` naming the type rather than the parameter `t`. The model reads the decimals through `decimalsOf(t)`.
- FieldOrder.SortByFrom: `sort.Slice` is not stable. The model is a stable insertion sort, and `FieldOrder.SortedPermutationUnique` shows the order is unique when starts are distinct. With equal starts the second field always overlaps, so `Marshal` fails either way, but which field the error names is not modelled.
- Encode.MarshalOrderIndependent: when collecting fails, which field's error is returned can depend on declaration order; only success is shown to be order-independent.
- Ebcdic.DesignatorTableIsBijective: states injectivity and that every digit has a designator, not the number of keys.
- The `examples/` programs and the whole nested `TestUnmarshal` record: only its three leaf fields are stated (`Decode.ExampleLeafA`/`B`/`C`).

## Findings

| source | as written | input that shows it | evidently intended | confidence | as-written member | corrected member |
|---|---|---|---|---|---|---|
| ebcdic-converter.go:28 | `rune(ebcdicField[len-1])` converts the last BYTE to a rune, so the 'ü' entry (U+00FC) only matches a lone byte 0xFC. It never matches UTF-8 text, where 'ü' is C3 BC | "0020ü" is returned unchanged; the converter's test expects "-200" | read the last rune, so every designator is recognised in UTF-8 text | not executed; high (the test case pins the intent) | `Ebcdic.AsWrittenMissesZeroDesignator` | `Ebcdic.OverpunchUtf8RoundTrip` |
| utils.go:20-21 | centre padding is computed from `len(str)`, the UTF-8 byte length, while `%*s` pads by runes | "ü" centred in 5 gives " ü  ", 4 runes | measure in runes, so the slot is filled exactly | not executed; medium | `Padding.AsWrittenCentreFallsShort` | `Padding.FormatStringWithPaddingByRunes` |
| encode.go:113 | the cursor moves to `toPos` whatever the field wrote, and nothing pads a short field | `A [2,5)` rendered "" (e.g. a bool or plain struct) then `B [5,7)` "xy" gives "xy": B sits at columns 0-1 | each field occupies its columns, padded to its width | not executed; medium (`MarshalField` usually pads to `t.Len()`) | `Encode.AsWrittenShortFieldShiftsLater` | `Encode.CorrectedKeepsColumns` |
