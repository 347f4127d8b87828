# LightJson in Dafny

A model of the core of LightJson, a small C++ JSON library, and proofs about it. The model has three parts.

- **The value and the serializer.** `src/Json.cpp`, `src/JsonValue.h` and `include/Json.h` are modelled by:
  - `json_value.dfy`: the six-way value tree, its typed accessors, size, subscripts, equality, deep copy and the convenience constructors;
  - `serializer.dfy`: `serialize` with its string escapes, and `", "`-joined arrays and objects. The object's entries come in whatever order the `unordered_map` iterates them;
  - `json.dfy`: the `Json` handle, a class owning one value. It provides copy, copy-and-swap assignment, `swap`, writes through the mutable subscripts, `serialize`, and `parse` with its error string.
- **The two drafts of the front end.**
  - The class draft `Parser.cpp` (`parser.dfy`) keeps a cursor field.
  - The C draft `LightJson.cpp` (`light_json.dfy`) keeps a cursor object, an out-parameter value and integer return codes.

  Both skip whitespace, dispatch on the byte at the cursor, match `null`/`true`/`false` byte for byte, and scan numbers by the grammar of section 6 of RFC 8259. The shared pieces are in `scan.dfy`. Each draft's loops are methods that advance the cursor. Each method is proved to land where a step function of the input and the cursor says. The step functions are then proved to accept exactly `ws value ws` (section 2 of RFC 8259), and the two drafts are proved to agree.
- **The earlier variant-based value** `JsonValue.cpp` (`draft_value.dfy`): the tag it reports and its asserted getters.

Conventions used throughout:

- Bytes are `char`s below 256, so byte strings can be written as ordinary literals.
- Input is read as a C string. `Peek` yields the terminating NUL past the end, so an embedded NUL ends the input as it does for `const char*`.
- Exceptions and error returns are `Result` values.
- Integers are unbounded. The one width that matters, `(size_t)-1` for the size of a scalar, is written out as `SIZE_MAX`.

## Model

| member | source | states |
|---|---|---|
| Basics.PrefixBefore | tests/test.cpp:23-24 | the longest prefix of a byte string without the stop byte, followed in the string by that byte when it is shorter |
| Basics.PrefixBeforeStops | tests/test.cpp:23-24 | a prefix without the stop byte, followed by the stop byte, is exactly what the cut keeps |
| Basics.CString | include/Json.h:31 | the bytes a `const char*` denotes: the longest prefix without NUL, which ends at the first NUL of the buffer; a buffer without NUL is read whole |
| JsonValue.Value.Type | src/JsonValue.h:45 | the tag is fixed by the variant: each of the six tags holds exactly for its variant |
| JsonValue.Value.IsNull | src/Json.cpp:100 | true exactly for Null |
| JsonValue.Value.IsBool | src/Json.cpp:101 | true exactly for Bool |
| JsonValue.Value.IsNumber | src/Json.cpp:102 | true exactly for Number |
| JsonValue.Value.IsString | src/Json.cpp:103 | true exactly for String |
| JsonValue.Value.IsArray | src/Json.cpp:104 | true exactly for Array |
| JsonValue.Value.IsObject | src/Json.cpp:105 | true exactly for Object |
| JsonValue.Value.ToBool | src/JsonValue.h:20-58 | succeeds exactly on a Bool and returns its stored payload; any other variant raises "Not implemented" |
| JsonValue.Value.ToNumber | src/JsonValue.h:21-64 | succeeds exactly on a Number and returns its payload; otherwise "Not implemented" |
| JsonValue.Value.ToString | src/JsonValue.h:22-71 | succeeds exactly on a String and returns its payload; otherwise "Not implemented" |
| JsonValue.Value.ToArray | src/JsonValue.h:23-78 | succeeds exactly on an Array and returns a copy equal to its elements; otherwise "Not implemented" |
| JsonValue.Value.ToObject | src/JsonValue.h:24-88 | succeeds exactly on an Object and returns a copy equal to its entries; otherwise "Not implemented" |
| JsonValue.Value.Size | src/JsonValue.h:36-91 | element count of an Array, entry count of an Object, `(size_t)-1` for every other variant; never fails |
| JsonValue.Value.At | src/JsonValue.h:79 | on an Array, element `i` (an index below the size is the caller's obligation); otherwise "Not implemented" |
| JsonValue.Value.Get | src/JsonValue.h:89 | succeeds exactly on an Object holding the key and returns its value; a missing key raises out-of-range, and a non-object "Not implemented" |
| JsonValue.EqualIffSame | src/Json.cpp:130-141 | `operator==` holds exactly when the two value trees are identical: same tag, equal payloads, arrays element by element in order, objects as key-to-value maps |
| JsonValue.NotEqual | include/Json.h:77-79 | `!=` holds exactly when the values differ |
| JsonValue.Copy | src/Json.cpp:26-53 | the copy has the source's tag and equals the source, down to every element and entry |
| JsonValue.Default | include/Json.h:26 | a default value is Null, with size `(size_t)-1` |
| JsonValue.OfInt | include/Json.h:29 | an integer becomes a Number holding that integer |
| JsonValue.OfCString | include/Json.h:31 | a C string gives the String the `std::string` constructor gives on its bytes up to the NUL; without NUL bytes, the bytes themselves |
| JsonValue.OfArray | include/Json.h:34-35 | an array value has the sequence's size and reads back every element at its index |
| JsonValue.OfObject | include/Json.h:36-37 | an object value has the map's size, reads back every entry by its key, and reports out-of-range for every other key |
| Scan.SkipWs | Parser.cpp:23-26 | whitespace skipping consumes a run of the four whitespace bytes and stops on a byte that is not whitespace |
| Scan.SkipWsAt | LightJson.cpp:23-28 | the skip stops at exactly the end of the maximal whitespace run |
| Scan.MatchesAtIsLiteral | Parser.cpp:39 | comparing byte by byte, with NUL past the end, succeeds exactly when the next bytes are the literal |
| Scan.DigitsEnd | Parser.cpp:57 | a digit loop stops after a run of digits on a byte that is not a digit |
| Scan.DigitsEndAt | LightJson.cpp:53 | the digit loop stops at exactly the end of the maximal digit run |
| Scan.ScanInt | Parser.cpp:53-58 | the integer part of the scanner accepts only `0` or a digit 1-9 followed by digits |
| Scan.ScanFrac | Parser.cpp:59-62 | the fraction part accepts nothing, or `.` followed by at least one digit |
| Scan.ScanExp | Parser.cpp:63-69 | the exponent part accepts nothing, or `e`/`E`, an optional sign and at least one digit |
| Scan.ScanNumber | Parser.cpp:48-69 | the scanner never moves backwards or past the end of the input, whether it finishes the number or stops at the byte that broke the grammar |
| Scan.NumberScanSound | Parser.cpp:48-69 | whatever the scanner consumes is a number of the RFC 8259 grammar |
| Scan.NumberScanComplete | Parser.cpp:48-69 | a grammar number followed by a byte that cannot extend it is consumed exactly |
| Scan.NumberScanExact | LightJson.cpp:44-66 | at a position that cannot extend a number, the scan ends there if and only if the span is a number |
| Scan.NumberStart | Parser.cpp:51-56 | a number text starts with a minus sign or a digit |
| Scan.LeadingZeroStops | Parser.cpp:53 | a leading `0` is the whole integer part, so in `0123` only the `0` is consumed |
| Serializer.EscapeByte | src/Json.cpp:156-194 | a byte is copied unchanged exactly when it needs no escape (not `"`, `\` or a control byte); `/` and bytes from 0x80 up are copied; `"`, `\`, backspace, form feed, newline, carriage return and tab, and no other byte, become a backslash and the letter that decodes back to them; any other control byte becomes `\u00` and its two hexadecimal digits |
| Serializer.EscapeByteAsWritten | src/Json.cpp:185-194 | the source's decimal `\u` padding agrees with the hexadecimal escape exactly on the bytes that are not misrendered (0x0B and 0x0E-0x1F) |
| Serializer.EscapeBodyAppend | src/Json.cpp:155 | escaping a string escapes each byte in turn: the escape of a concatenation is the concatenation of the escapes |
| Serializer.EscapeBodyIdentity | src/Json.cpp:192 | a string without bytes that need escaping is written unchanged |
| Serializer.EscapeByteDecodes | src/Json.cpp:156-194 | the escape of any byte reads back as that byte under the string decoding of section 7 of RFC 8259 |
| Serializer.PairEscapeDecodes | src/Json.cpp:157-184 | each two-character escape reads back as the byte it stands for |
| Serializer.HexEscapeDecodes | src/Json.cpp:185-190 | a control byte without a two-character escape reads back from its hexadecimal `\u00XX` escape |
| Serializer.EscapeRoundTrip | src/Json.cpp:153-198 | decoding an escaped string body gives back the original bytes |
| Serializer.AsWrittenEscapeDecodes | src/Json.cpp:185-194 | the source's escape of a byte reads back as that byte exactly when it is not misrendered; a misrendered byte c reads back as the byte 16*(c/10)+c%10: the control byte 0x11 or one of 0x14-0x19 from a byte below 0x14, and a printable ASCII byte 0x20-0x29 or the digit `0` or `1` from 0x14 up |
| Serializer.EscapeLengthsAgree | src/Json.cpp:185-194 | the source's decimal escape and the hexadecimal escape of a byte have the same length |
| Serializer.AsWrittenBodyAgrees | src/Json.cpp:153-198 | the source's escaped body of a string equals the hexadecimal one exactly when no byte of it is misrendered |
| Serializer.StringTextAsWrittenAgrees | src/Json.cpp:153-198 | the source's text of a string value equals the one the model serializes exactly when no byte of it is misrendered |
| Serializer.QuoteFromControlByte | src/Json.cpp:186-190 | byte 0x16 is written `\u0022` and reads back as a double quote |
| Serializer.VerticalTabMisrendered | src/Json.cpp:186-190 | byte 0x0B is written `\u0011` and reads back as byte 0x11, so the source's text of that one-byte string differs from the hexadecimal one |
| Serializer.ShortEscapesText | tests/test.cpp:260 | the string of `"`, `\`, `/`, backspace, form feed, newline, carriage return and tab, separated by spaces, is written exactly as that test's text: two-character escapes, `/` unchanged |
| Serializer.NulBetween | src/Json.cpp:185-192 | a NUL byte between two strings needing no escape is written `\u0000` between them, both unchanged |
| Serializer.NulEscapeExample | tests/test.cpp:261 | `Hello`, a NUL byte and `World` is written exactly as that test's text, `"Hello\u0000World"` |
| Serializer.ElementTexts | src/Json.cpp:202-205 | an array contributes one serialized text per element |
| Serializer.PairTexts | src/Json.cpp:212-218 | an object contributes one `"key": value` text per listed key |
| Serializer.KeyOrderLength | src/Json.cpp:212 | an iteration order of a map lists as many keys as the map holds |
| Serializer.SerializeEmptyContainers | src/Json.cpp:200-220 | an empty array serializes as `[]` and an empty object as `{}`, whatever the iteration order |
| Serializer.SerializeStringDecodes | src/Json.cpp:153-198 | a serialized string is a quoted JSON string whose decoded contents are the original bytes |
| Serializer.PairTextsPermuted | src/Json.cpp:212 | two listings of the same keys give entry texts that are permutations of each other |
| Serializer.ObjectOrderIrrelevant | src/Json.cpp:209-220 | whatever order the map iterates in, the object's entries are the same texts, each exactly once |
| Serializer.SerializeString | src/Json.cpp:153-198 | the loop builds the opening quote, the escape of every byte in order, then the closing quote (with the corrected hexadecimal escape) |
| Serializer.SerializeValue | src/Json.cpp:85-94 | `serialize` gives `null`, `true`/`false`, the platform's rendering of a number, or the string (with the corrected hexadecimal escape), array or object text |
| Serializer.SerializeArray | src/Json.cpp:200-207 | the loop builds `[`, the element texts with `", "` before every one but the first, then `]` |
| Serializer.SerializeObject | src/Json.cpp:209-220 | the loop builds `{`, the `"key": value` texts in iteration order, `", "`-separated, then `}` |
| Parser.MessageKindPrefix | Parser.h:35-37 | an error message is the kind text, `": "`, then the rest of the input; the text the error tests keep, before its first colon, is the kind |
| Parser.MessageDeterminesError | Parser.h:35-37 | different errors never produce the same message |
| Parser.LiteralStep | Parser.cpp:38-46 | a literal succeeds exactly when the input continues with its bytes; the cursor then moves past it and the value follows the literal's first byte; otherwise "Invalid value" with the cursor unmoved |
| Parser.NumberStep | Parser.cpp:48-75 | a scan error raises "Invalid value" at the offending byte; a `strtod` result at a limit of a double raises "Number too big"; otherwise a Number with the cursor after the text |
| Parser.ValueStep | Parser.cpp:28-36 | the step stays within the input |
| Parser.ValueStepExpectsValue | Parser.cpp:33 | the dispatch fails with "Expect value" exactly when the cursor is at the end of the C string, and reports the cursor itself |
| Parser.Parser.constructor | Parser.h:18 | a parser starts at the first byte of its input |
| Parser.Parser.ParseWhiteSpace | Parser.cpp:23-26 | the loop leaves the cursor at the end of the maximal whitespace run |
| Parser.Parser.SkipDigitsAfter | Parser.cpp:57 | `while (isDigit(++curr_))` leaves the cursor at the end of the digits after the current byte |
| Parser.Parser.ParseLiteral | Parser.cpp:38-46 | result and cursor are those of the literal step |
| Parser.Parser.ParseIntegerPart | Parser.cpp:53-58 | the cursor ends where the integer scan ends, or the part fails where it does |
| Parser.Parser.ParseFractionPart | Parser.cpp:59-62 | the cursor ends where the fraction scan ends, or the part fails where it does |
| Parser.Parser.ParseExponentPart | Parser.cpp:63-69 | the cursor ends where the exponent scan ends, or the part fails where it does |
| Parser.Parser.ParseNumber | Parser.cpp:48-75 | result and cursor are those of the number step, including the cursor at each error |
| Parser.Parser.ParseValue | Parser.cpp:28-36 | result and cursor are those of the dispatch step: `n`/`t`/`f` literals, "Expect value" at the end, a number otherwise |
| Parser.Parser.Parse | Parser.cpp:14-21 | the result is the parse of whitespace, one value, whitespace and the end of input, with the first error's message |
| Parser.ParseSound | Parser.cpp:14-21 | on input without NUL bytes, a successful parse means the input is whitespace, a literal or number, and whitespace |
| Parser.TokenStep | Parser.cpp:28-36 | a literal or number followed by a byte that cannot extend it is one value step, failing only as "Number too big" |
| Parser.ParseComplete | Parser.cpp:14-21 | every text of the form whitespace, literal or number, whitespace parses, except for "Number too big" |
| Parser.ParseAcceptsExactly | Parser.cpp:14-75 | on input without NUL bytes, the parse succeeds if and only if the input is `ws value ws`, up to "Number too big" |
| Parser.ExpectValueExactly | Parser.cpp:14-21 | the parse fails with "Expect value" exactly when only whitespace precedes the end of the C string, and then with nothing after the colon |
| Parser.NumberStepDone | Parser.cpp:28-36 | a complete number whose conversion is not at a limit is dispatched to the number step, which succeeds ending after it |
| Parser.TokenStepDone | Parser.cpp:28-36 | a complete literal or number whose conversion is not at a limit is one successful value step ending after it |
| Parser.TrailingBytesNotSingular | Parser.cpp:14-21 | a complete value followed by whitespace and then any byte before the end of the C string gives "Root not singular", reported from the first byte after that whitespace |
| Parser.BadStartIsInvalid | Parser.cpp:56 | a first byte that starts no value gives "Invalid value" and a message repeating the input |
| Parser.BrokenLiteralIsInvalid | Parser.cpp:39-40 | a mismatched literal gives "Invalid value" at its first byte |
| Parser.InvalidLiteralExamples | tests/test.cpp:287-296 | `nul` and `nan` are invalid values |
| Parser.InvalidSignExamples | tests/test.cpp:289-290 | `+0` and `+1` are invalid values |
| Parser.InvalidStartExamples | tests/test.cpp:288-291 | `?` and `.123` are invalid values |
| Parser.InvalidInfinityExamples | tests/test.cpp:293-294 | `inf` and `INF` are invalid values |
| Parser.InvalidNanExample | tests/test.cpp:295 | `NAN` is an invalid value |
| Parser.MissingFractionExample | tests/test.cpp:292 | `1.` is an invalid value reported at the end of the input |
| Parser.LeadingZeroNotSingular | Parser.cpp:18-19 | a leading `0` followed by a byte that is not whitespace and cannot continue a number gives "Root not singular" with the rest after the `0`, provided `strtod` of the input is not a limit of a double |
| Parser.TrailingWordExample | tests/test.cpp:302 | `null x` is root-not-singular, with `x` as the rest |
| Parser.LeadingZeroExample | Parser.cpp:53 | `0` followed by any digit or `x` and more bytes is root-not-singular, reporting the bytes after the `0` |
| Parser.LeadingZeroDigitsExample | tests/test.cpp:303 | `0123` is root-not-singular, with `123` as the rest |
| Parser.LeadingZeroHexExample | tests/test.cpp:304 | `0x0` is root-not-singular, with `x0` as the rest |
| Parser.LeadingZeroLongHexExample | tests/test.cpp:305 | `0x123` is root-not-singular, with `x123` as the rest |
| Parser.ExpectValueExamples | Parser.cpp:33 | empty and all-whitespace input give "Expect value" |
| Parser.LiteralTextParses | Parser.cpp:14-46 | a literal after the leading whitespace, followed only by whitespace up to the end of the C string, parses to the literal's value |
| Parser.LiteralExamples | tests/test.cpp:73-79 | `null`, `null` surrounded by whitespace, and `true` parse to their values |
| Parser.MoreLiteralExamples | tests/test.cpp:80 | `false` parses to its value, and an embedded NUL ends the input, so `null` followed by NUL and `x` parses to null |
| Parser.WholeNumberParses | Parser.cpp:48-75 | an input that is exactly one number parses to what `strtod` makes of it, unless that is a limit of a double |
| Parser.WholeNumberAtLimit | Parser.cpp:70-73 | an input that is exactly one number whose conversion equals the largest finite or the smallest normal double is refused as "Number too big" with nothing left, although it is in range |
| Parser.NegativeZeroExample | tests/test.cpp:85 | `-0` parses to a number |
| Parser.FractionExample | tests/test.cpp:90 | `-1.5` parses to a number |
| Parser.FractionGrammar | tests/test.cpp:90 | `-1.5` is a number of the grammar, without NUL bytes |
| Parser.ExponentExample | tests/test.cpp:101 | `1.234E-10` parses to a number |
| Parser.ExponentGrammar | tests/test.cpp:101 | `1.234E-10` is a number of the grammar, without NUL bytes |
| JsonHandle.Json.constructor | src/Json.cpp:16-24 | a handle built from a value owns exactly that value |
| JsonHandle.Json.Copy | src/Json.cpp:26-53 | the copy owns a value equal to the source's, with the same tag |
| JsonHandle.Json.Swap | src/Json.cpp:143-145 | the two handles exchange their values |
| JsonHandle.Json.Assign | src/Json.cpp:55-59 | after assignment the handle owns the source's value, self-assignment included |
| JsonHandle.Json.SetAt | src/JsonValue.h:80 | writing through `[i]` changes only element `i` of an array; tag, size and other elements stay; another variant raises "Not implemented" and changes nothing |
| JsonHandle.Json.SetKey | src/JsonValue.h:90 | writing through `[key]` changes only that entry; a missing key raises out-of-range and is not inserted; key set, size and tag stay |
| JsonHandle.Json.Serialize | src/Json.cpp:85-94 | returns the serialization of the owned value (strings with the corrected hexadecimal escape) |
| JsonHandle.Json.Parse | src/Json.cpp:75-83 | on success the parsed value with the error string untouched; on failure Null, with the error string set to the exception's message |
| JsonHandle.LiteralRoundTrip | src/Json.cpp:87-88 | a serialized Null or Bool parses back to the same value |
| LightJson.LiteralStep | LightJson.cpp:30-42 | the literal succeeds exactly when the input continues with its bytes, writing the tag and moving past it; on a mismatch `PARSE_INVALID_VALUE`, the cursor one past the start, the tag untouched |
| LightJson.NumberStep | LightJson.cpp:44-75 | success exactly when the scan succeeds and `strtod` reports no range error, then the tag is `kNumber`; every failure leaves cursor and tag unmoved, with the code naming the failure |
| LightJson.ValueStep | LightJson.cpp:77-85 | no failing dispatch writes the tag |
| LightJson.ValueStepExpectsValue | LightJson.cpp:83 | the dispatch returns `PARSE_EXPECT_VALUE` exactly when the cursor is at the end of the C string, leaving the cursor there |
| LightJson.LightParse | LightJson.cpp:87-101 | every failure leaves `kNull`; success leaves the tag of a literal or number |
| LightJson.ParseWhitespace | LightJson.cpp:23-28 | the loop leaves the cursor at the end of the maximal whitespace run |
| LightJson.ParseLiteral | LightJson.cpp:30-42 | code, cursor and tag are those of the literal step; the number field is untouched |
| LightJson.SkipDigits | LightJson.cpp:53 | the loop stops at the end of the maximal digit run |
| LightJson.ScanIntegerPart | LightJson.cpp:47-54 | the integer part ends where the integer scan ends, or fails where it does |
| LightJson.ScanFractionPart | LightJson.cpp:55-59 | the fraction part ends where the fraction scan ends, or fails where it does |
| LightJson.ScanExponentPart | LightJson.cpp:60-66 | the exponent part ends where the exponent scan ends, or fails where it does |
| LightJson.ParseNumber | LightJson.cpp:44-75 | code, cursor and tag are those of the number step; the number field is written once the scan succeeds, even when the range check then fails |
| LightJson.ParseValue | LightJson.cpp:77-85 | code, cursor and tag are those of the dispatch step; a successful number leaves `strtod` of the C string at the cursor in the number field |
| LightJson.Parse | LightJson.cpp:87-101 | code and tag are those of the whole parse; a non-zero code leaves `kNull`; a successful number leaves `strtod` of the text after the leading whitespace in the number field, which `get_number` reads |
| LightJson.StepsAgree | LightJson.cpp:77-85 | from the same cursor and without a range error, the value steps of the two drafts both succeed or both fail, on success end at the same byte, give corresponding tags and corresponding error codes |
| LightJson.LightParseOutcome | LightJson.cpp:87-101 | a failing value step's code is returned; after a successful one, `PARSE_ROOT_NOT_SINGULAR` if anything but whitespace precedes the end of the C string, else `PARSE_OK` with the step's tag |
| LightJson.ParseOutcome | Parser.cpp:14-21 | a failing value step's error kind is raised; after a successful one, "Root not singular" if anything but whitespace precedes the end of the C string, else the step's value |
| LightJson.DraftsAgree | LightJson.cpp:77-101 | when neither draft's range check fires, both drafts accept the same inputs, give corresponding tags, and fail with corresponding error kinds |
| DraftValue.GetType | JsonValue.cpp:10-17 | `kNull` exactly for the null alternative, `kBool` exactly for bool, `kNumber` for double and also for string; no other tag |
| DraftValue.ToBool | JsonValue.cpp:24-27 | requires the bool alternative and returns its payload unchanged |
| DraftValue.ToDouble | JsonValue.cpp:29-32 | requires the double alternative and returns its payload unchanged |

## Left out

- `serializeNumber` (`%.17g`) is not modelled. It is the `formatNumber` parameter of `Serializer.Runtime`, because it is floating-point formatting.
- `strtod` is a parameter, applied to the C string at the start of the number, because its rounding is floating point. Numbers are modelled as reals, and a double's `==` (NaN, signed zero) is not modelled.
- Parser.NumberStep: the "Number too big" test compares the `strtod` result with the largest finite and the smallest normal double, as the draft does.
- LightJson.NumberStep: the draft's `errno == ERANGE && ±HUGE_VAL` test is a `rangeError` parameter.
- `PARSE_NUMBER_TOO_BIG` and the `number` field are used by `LightJson.cpp` but not declared in `LightJson.h`. The model gives the code the value 4.
- Serializer.SerializeString: writes the hexadecimal escape `Serializer.StringText`. The source writes the decimal escape, `Serializer.StringTextAsWritten`; the two agree exactly when no byte is misrendered (`Serializer.StringTextAsWrittenAgrees`). See "## Findings".
- Serializer.SerializeValue: a string inside the value is written with the hexadecimal escape, not the source's decimal one, for the same reason as `Serializer.SerializeString`.
- Serializer.SerializeArray: element texts come from `Serializer.Serialization`, so strings nested in the array are written with the hexadecimal escape, not the source's decimal one.
- Serializer.SerializeObject: value texts come from `Serializer.Serialization`, so strings nested in the object's values are written with the hexadecimal escape, not the source's decimal one.
- JsonHandle.Json.Serialize: returns `Serializer.Serialization`, which writes strings with the hexadecimal escape, not the source's decimal one, for the same reason as `Serializer.SerializeString`.
- JsonValue.OfInt: `Json(int)` widens through `float`. This rounds integers above 2^24, and the model does not capture that.
- The iteration order of `unordered_map` is a parameter (`keyOrder`), assumed only to list every key once. It is a function of the map's contents, so the model fixes one order per map value, while a real `unordered_map`'s order also depends on insertion history and bucket count. Object output is therefore determined only up to a permutation of its entries.
- Object keys are written between quotes without escaping, as the source does. No claim is made that such output is valid JSON when a key contains `"`, `\` or a control byte.
- String, array and object parsing, including `\uXXXX` and surrogate pairs, are not modelled. The full parser in `src/Parser.cpp` is not part of this model; `Json.parse` uses the `Parser.cpp` draft in its place. In these drafts `"`, `[` and `{` fall into the number scanner and are invalid values.
- Parser.ParseAcceptsExactly is stated for input without NUL bytes. An embedded NUL ends the input for both drafts, so the text after it is never read (`Parser.MoreLiteralExamples` shows one such input).
- Parser.NumberStep: the `Parser.cpp` draft refuses the two limits themselves, which the number tests at tests/test.cpp:107-112 expect to parse (`Parser.WholeNumberAtLimit`). It also lets an overflowing `1e309` through as infinity instead of the "Number out of bound" error those tests expect. Both come from the full parser in `src/Parser.cpp`, which is not part of this model.
- The PIMPL `unique_ptr`, move construction and assignment, and destructors are not modelled. The handle owns its value directly, and a moved-from handle with a null pointer is not represented.
- The read-only accessors of `Json` (`getType`, `is*`, `to*`, `size`, const `operator[]`) delegate to the value. They are modelled once, on `JsonValue.Value`.
- The stream `operator<<` overloads are I/O and are not modelled.
- The root `Json.cpp` parse swallows the exception without setting the error. It is a declaration-level draft and is not modelled separately.
- `JsonValue::toNull` and the C draft's `get_type`/`get_number` are plain field reads and carry no property.

## Findings

| source | as written | input that shows it | evidently intended | confidence | as-written member | corrected member |
|---|---|---|---|---|---|---|
| src/Json.cpp:185-194 | a control byte without a two-character escape is written as `\u` plus its code zero-padded to four DECIMAL digits (no `std::hex` on the stream) | byte 0x0B is written `\u0011`, which a JSON reader decodes as byte 0x11; every byte 0x0B and 0x0E-0x1F comes back as a different byte | the four hexadecimal digits of section 7 of RFC 8259 (`\u000b`), so that the string reads back unchanged | not executed | Serializer.EscapeByteAsWritten | Serializer.EscapeByte |
