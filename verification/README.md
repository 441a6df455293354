# pettystring JSON engine and base64 codec, modelled in Dafny

pettystring is a small C++ utility library. This project models two of its parts.

**The JSON engine** (`src/json.cpp` behind the `JsonObject` and `JsonArray` interfaces of
`include/pettystring/json.h`):
- a value hierarchy: null, boolean, string, number, object and array;
- a number that is a 32-bit integer, a 64-bit integer or a double;
- each value kind's coercions (`ToBoolean`, `ToString`, `ToInt32`) and its serializer;
- an input cursor (`InputStream`) over the text;
- a recursive-descent parser: `ParseValue`, `ParseObject`, `ParseArray`, `ParseString`
  with its `\u` escapes, and `ParseNumber`;
- the object and array facades: getters, coercing getters, `Put*`, `Append*`,
  `Remove`, `Swap`, `Serialize` and `Parse`.

**The base64 codec** (`include/pettystring/base64.h`): `EncodeBase64`, `IsBase64`,
`GetBase64Size` and `DecodeBase64`.

How the C++ maps onto the model:
- Values are an immutable datatype (`JsonValue.Value`).
- An object is the sequence of its members (`seq<Member>`). The source's
  `unordered_map` is compared against through `Members.ToMap`.
- An array is `seq<Value>`.
- A cursor is a position `p` in the text. Parsers return `Option<(result, end position)>`.
- A null `unique_ptr` or pointer is `None`.
- Floating point (`strtod`, `HUGE_VAL`, double-to-int conversion) is the `FloatLib`
  parameter.
- Bytes are the `Base64.Byte` subset of `int`.

Module layout, one file each:
- `Common`: option, integer widths, C strings.
- `NumberText`: decimal text, the `strtol`-style integer reader.
- `JsonValue`: values, numbers, coercions.
- `InputStream`: the cursor.
- `JsonString`: string escapes.
- `JsonParser`: the parser.
- `JsonSerializer`: the serializer.
- `Members`: the member list as a map.
- `JsonRoundTrip` and `JsonParseProperties`: parser and serializer properties.
- `JsonObjects` and `JsonArrays`: the facades.
- `Base64`: the codec.
- `IntendedEscapes` and `IntendedNumbers`: the corrected halves of the findings below.

## Model

| member | source | states |
|---|---|---|
| Common.NarrowToInt32 | src/json.cpp:319-330 | narrowing a 64-bit number to `int32_t` keeps the value modulo 2^32 and is the identity on values that fit |
| Common.CString | src/json.cpp:925-936 | `c_str()` exposes the longest NUL-free prefix, stopping exactly at the first NUL |
| Common.NullOptionPtr | include/pettystring/base64.h:62 | a null pointer reads as the default text, any other pointer as its own text |
| Common.Swap | src/json.cpp:558-562 | the two containers exchange contents, and a null pointer changes nothing; `JsonArray::Swap` (src/json.cpp:788-792) is the same operation |
| Common.SwapTwice | include/pettystring/json.h:179-183 | swapping twice restores both containers |
| NumberText.TryStringToInteger | src/json.cpp:925-931 | the integer reader succeeds exactly when the text is a decimal integer within the requested bounds, and yields that integer |
| NumberText.DecimalTextRoundTrip | src/json.cpp:925-931 | the decimal text of any integer is read back as that integer |
| JsonValue.NumberStringToJsonValue | src/json.cpp:917-943 | blank text and a leading `+` give no number; otherwise the number is an `int32` if it fits, else an `int64`, else a double that `strtod` consumed entirely and that is not `HUGE_VAL` |
| JsonValue.ClassificationIsNarrowest | src/json.cpp:925-942 | an `int32` result is the decimal value of the text, an `int64` result does not fit 32 bits, and a double result is not a 64-bit decimal integer |
| JsonValue.ClassifyDecimalText | src/json.cpp:925-931 | the decimal text of any 64-bit integer classifies as that integer, in the narrowest width that holds it |
| JsonValue.ToBoolean | src/json.cpp:80-82 | true exactly for `true` and the string "true", false exactly for `false` and the string "false", nothing for any other value |
| JsonValue.SerializeNumber | src/json.cpp:334-346 | a number serializes to the empty text (the formatting is commented out; see Findings) |
| JsonValue.ToString | src/json.cpp:89-91 | null gives nothing; a string gives itself, a boolean "true"/"false", a number "", an object "object" and an array "array" |
| JsonValue.NumberToInt32 | src/json.cpp:319-330 | an `int32` is itself, an `int64` is narrowed modulo 2^32, and a double goes through the library's conversion |
| JsonValue.ToInt32 | src/json.cpp:98-100 | defined exactly for booleans (1/0), numbers (narrowed) and strings that classify as numbers |
| JsonValue.BooleanCoercionAgreesWithText | src/json.cpp:172-181 | a value that coerces to a boolean prints as that boolean's text, and that text coerces back to the same boolean |
| JsonValue.StringToInt32OfDecimal | src/json.cpp:248-254 | a string holding the decimal text of a 64-bit integer coerces to that integer narrowed to 32 bits |
| InputStream.GetChar | src/json.cpp:845-847 | the character under the cursor, or NUL at the end |
| InputStream.NextChar | src/json.cpp:853-855 | moves one step when not at the end and returns the character now under the cursor, NUL past the last one |
| InputStream.Next | src/json.cpp:868-875 | moves one step and reports true exactly when not at the end |
| InputStream.Trim | src/json.cpp:895-903 | skips exactly the maximal run of whitespace (tab to carriage return, and space) |
| InputStream.GetToken | src/json.cpp:861-864 | the first character after the whitespace, never itself whitespace |
| InputStream.CompareAndNext | src/json.cpp:882-891 | succeeds exactly when the word lies at the cursor, leaving the cursor just past it |
| InputStream.TrimIdempotent | src/json.cpp:895-903 | trimming twice is trimming once |
| JsonString.HexDigitValue | src/json.cpp:969-986 | as written: a digit `0`-`9` is its value, and a letter `A`-`F` or `a`-`f` is worth 0 to 5 |
| JsonString.Parse4HexadecimalDigits | src/json.cpp:969-986 | succeeds exactly when four hexadecimal digits follow, moving four places and giving their weighted 16-bit value |
| JsonString.HexDigits | src/json.cpp:972-983 | a successful digit loop of at least one turn gives a 16-bit value |
| JsonString.HexDigitsAccepts | src/json.cpp:972-983 | the digit loop succeeds exactly when each of the characters after the cursor is a hexadecimal digit, and then moves past all of them |
| JsonString.AsWrittenCodeUnitsStayLow | src/json.cpp:976-980 | with the as-written letter values no escape reads above 0x9999 |
| JsonString.SurrogatePairCodePoint | src/json.cpp:1006 | a high and a low surrogate stand for a code point in U+10000..U+10FFFF |
| JsonString.CombineSurrogates | src/json.cpp:1006 | the pair's code point as stored in the 16-bit `code` variable: the true code point modulo 0x10000 |
| JsonString.EncodeUtf8 | src/json.cpp:1015-1024 | one, two or three UTF-8 bytes by range, with the right lead and continuation bytes, carrying exactly the code |
| JsonString.ParseCodePoint | src/json.cpp:991-1027 | a lone low surrogate fails; a non-surrogate gives its UTF-8; a high surrogate succeeds exactly when `\u` and a low surrogate follow |
| JsonString.UnescapeLetter | src/json.cpp:1048-1072 | defined exactly for the eight one-letter escapes |
| JsonString.UnicodeEscape | src/json.cpp:1073-1076 | with the digit values as written, a `\u` escape succeeds exactly when four hexadecimal digits follow, consumes exactly those four, and writes one to three UTF-8 bytes carrying the code |
| JsonString.ScanTurn | src/json.cpp:1042-1091 | one turn of the string loop either moves the cursor forward or stops; a successful stop lies just past a closing quote |
| JsonString.ScanString | src/json.cpp:1042-1091 | a successful scan ends just past a closing quote |
| JsonString.ParseString | src/json.cpp:1034-1092 | succeeds only at an opening quote and ends just past a closing quote |
| JsonString.EscapeLetter | src/json.cpp:1240-1264 | escapes exactly the eight special characters, and the escape letter unescapes back to the character |
| JsonString.EscapeChar | src/json.cpp:1240-1267 | a special character becomes a backslash and its letter; every other character is copied |
| JsonString.Escape | src/json.cpp:1238-1269 | the escaped text is between one and two times as long as the input |
| JsonString.SerializeString | src/json.cpp:1234-1273 | the escaped text between two quotes |
| JsonString.ParseSerializedString | src/json.cpp:1034-1092 | parsing the serialization of any string without unescaped control characters gives the string back and ends just past it |
| JsonString.ParseStringRejectsControl | src/json.cpp:1042-1045 | a raw control character (or the end of the text) wherever the loop stands after any number of turns from the opening quote fails the string, whatever it decoded before |
| JsonString.ParseStringRejectsUnknownEscape | src/json.cpp:1046-1079 | a backslash followed by any other letter than the nine escapes, wherever the loop reaches it, fails the string |
| JsonString.ParseStringRejectsBadCodePoint | src/json.cpp:1073-1076 | a `\u` escape that does not parse, wherever the loop reaches it, fails the string |
| JsonString.ScanSteps | src/json.cpp:1042-1084 | after any number of turns the loop has either stopped or stands at a cursor at least that many places further on |
| JsonString.ScanStepsThenScan | src/json.cpp:1042-1091 | the loop's result is the result of going on from wherever it stands after any number of turns, or the result it stopped with |
| JsonString.ParseSerializedStringAt | src/json.cpp:1034-1092 | the string round trip inside any surrounding text, ending at the given position |
| JsonParser.NumberRun | src/json.cpp:1105-1114 | the maximal run of number characters (digits, `+`, `-`, `.`, `e`, `E`) from the cursor |
| JsonParser.ParseNumber | src/json.cpp:1099-1117 | succeeds exactly when the run after the whitespace classifies as a number, returns the number the classifier makes of that run, and ends at the end of the run |
| JsonParser.ParseValue | src/json.cpp:1198-1227 | a parsed value consumes at least one character after the whitespace |
| JsonParser.ParseObject | src/json.cpp:1124-1160 | succeeds only at a `{` token and consumes at least that brace |
| JsonParser.ParseMembers | src/json.cpp:1132-1159 | the member loop succeeds only at a quote token and always moves the cursor forward |
| JsonParser.ParseMember | src/json.cpp:1133-1148 | a member is read only where a name parses, carries that name, and moves the cursor forward |
| JsonParser.ParseMemberValue | src/json.cpp:1139-1148 | the rest of a member succeeds only at a `:` token and keeps the name it was given |
| JsonParser.MembersAfter | src/json.cpp:1150-1159 | after a member the loop succeeds only at a `,` or `}` token |

| JsonParser.ParseArray | src/json.cpp:1167-1191 | succeeds only at a `[` token and consumes at least that bracket |
| JsonParser.ParseElements | src/json.cpp:1175-1190 | the element loop always moves the cursor forward |
| JsonParser.ElementsAfter | src/json.cpp:1178-1190 | after an element the loop succeeds only at a `,` or `]` token |

| JsonParser.ParseObjectText | src/json.cpp:1281-1284 | an object is parsed from the start of the text, and whatever follows it is ignored |
| JsonParser.ParseArrayText | src/json.cpp:1288-1291 | an array is parsed from the start of the text, and whatever follows it is ignored |
| JsonParser.MembersStep | src/json.cpp:1150-1159 | after a member, a comma continues with the member stored, a `}` closes the object, and anything else fails |
| JsonParser.ElementsStep | src/json.cpp:1177-1190 | after an element, a comma continues with the element appended, a `]` closes the array, and anything else fails |
| JsonParser.ObjectStep | src/json.cpp:1126-1131 | an object whose next token is `}` is empty; otherwise its members are parsed |
| JsonParser.ArrayStep | src/json.cpp:1169-1174 | an array whose next token is `]` is empty; otherwise its elements are parsed |
| JsonSerializer.EraseLast | src/json.cpp:588-589 | drops exactly the last character of a non-empty text and leaves the empty text alone |
| JsonSerializer.SerializeValue | src/json.cpp:145-147 | only a number serializes to nothing, and the first character of any other value's text tells its kind (`n`, `t`/`f`, `"`, `{`, `[`); objects end with `}` and arrays with `]` |
| JsonSerializer.MemberTexts | src/json.cpp:572-587 | the object loop writes nothing exactly for no members; otherwise it starts with the first member's text and ends with a comma |
| JsonSerializer.ElementTexts | src/json.cpp:802-811 | the array loop writes nothing exactly for no elements; otherwise it starts with the first element's text and ends with a comma |
| JsonSerializer.JoinMembers | src/json.cpp:566-596 | the members joined by commas: empty exactly for no members, and starting with the first member's text |
| JsonSerializer.JoinElements | src/json.cpp:796-820 | the elements joined by commas: empty for no elements, and starting with the first element's text |
| JsonSerializer.MemberTextsJoin | src/json.cpp:566-596 | the object loop's texts, with the trailing comma erased, are the members joined by commas |
| JsonSerializer.ElementTextsJoin | src/json.cpp:796-820 | the array loop's texts, with the trailing comma erased, are the elements joined by commas |
| JsonSerializer.SerializeShapes | src/json.cpp:145-147 | `null`, `true`/`false`, a quoted escaped string, nothing for a number, and brackets around joined members or elements |
| JsonRoundTrip.ParseSerializedValue | src/json.cpp:1198-1227 | parsing the serialization of a printable value, anywhere in a text, gives the value back and ends just past its text |
| JsonRoundTrip.ParseSerializedObject | src/json.cpp:1124-1160 | parsing a serialized object stores its members in order; repeated names keep the last value |
| JsonRoundTrip.ParseSerializedArray | src/json.cpp:1167-1191 | parsing a serialized array gives exactly its elements |
| JsonParseProperties.EmptyObjectText | src/json.cpp:1126-1131 | `{}` with any whitespace around or inside it parses as the empty object |
| JsonParseProperties.EmptyArrayText | src/json.cpp:1169-1174 | `[]` with any whitespace around or inside it parses as the empty array |
| JsonParseProperties.MembersNeedName | src/json.cpp:1134-1137 | a member that does not start with a quote fails the object |
| JsonParseProperties.MembersNeedColon | src/json.cpp:1139-1142 | a name not followed by a `:` token fails the member and the member loop |
| JsonParseProperties.ValueNeedsStart | src/json.cpp:1199-1225 | a token that starts no value (a closing bracket, a comma, the end) fails the value |
| JsonParseProperties.ElementsNeedValue | src/json.cpp:1177-1181 | an element that starts no value fails the array |
| JsonParseProperties.ObjectRejectsTrailingComma | src/json.cpp:1151 | a comma followed by `}` after a member fails the object |
| JsonParseProperties.ArrayRejectsTrailingComma | src/json.cpp:1182 | a comma followed by `]` after an element fails the array |
| JsonParseProperties.RepeatedNameKeepsLast | src/json.cpp:1150 | an object text with repeated names parses with unique names, each holding the last value written for it |
| JsonParseProperties.ParseObjectTextOfSerialized | src/json.cpp:1281-1284 | parsing the serialization of a printable object gives the object back |
| JsonParseProperties.ParseArrayTextOfSerialized | src/json.cpp:1288-1291 | parsing the serialization of a printable array gives the array back |
| JsonParseProperties.ParsedTextsWellFormed | src/json.cpp:1150 | every object a parse produces, at any depth, has unique names |
| Members.IndexOf | src/json.cpp:600 | the first position holding the name, or nothing exactly when the name is absent |
| Members.Lookup | src/json.cpp:600 | the value stored under the name, or nothing exactly when the name is absent |
| Members.Put | src/json.cpp:546-548 | overwrites the first member with a present name in place, keeping the length, or adds the name at the end |
| Members.PutKeepsNames | src/json.cpp:546-548 | putting a present name leaves the names and their order unchanged |
| Members.Remove | src/json.cpp:552-554 | keeps exactly the members with other names, and shrinks exactly when the name was present |
| Members.ToMap | src/json.cpp:600 | the keys are exactly the names present |
| Members.LookupIsMapLookup | src/json.cpp:600 | looking up in the list is looking up in its map |
| Members.PutLookup | src/json.cpp:546-548 | after a put the name reads the new value and every other name reads what it read before |
| Members.PutIsMapUpdate | src/json.cpp:546-548 | a put is a map update |
| Members.RemoveIsMapRemove | src/json.cpp:552-554 | a remove is a map key removal |
| Members.RemoveLookup | src/json.cpp:552-554 | after a remove the name reads nothing and every other name reads what it read before |
| Members.PutKeepsUnique | src/json.cpp:546-548 | a put keeps names unique |
| Members.RemoveKeepsUnique | src/json.cpp:552-554 | a remove keeps names unique |
| Members.NamesAreMapKeys | src/json.cpp:410-419 | with unique names the name list is the map's keys without repetition |
| Members.PutKeepsWellFormed | src/json.cpp:546-548 | a put keeps every nested object's names unique |
| Members.PutAllLookup | src/json.cpp:1150 | after a run of puts a name reads the last value put under it, or its old value if none was |
| Members.RemoveUndoesFreshPut | src/json.cpp:546-554 | removing a freshly put name restores the list |
| JsonObjects.Has | src/json.cpp:404-406 | true exactly when the name is a key |
| JsonObjects.GetNames | src/json.cpp:410-419 | one name per member, exactly the keys, without repetition when names are unique |
| JsonObjects.IsNull | src/json.cpp:423-425 | true exactly when the name is absent or holds null |
| JsonObjects.GetBoolean | src/json.cpp:429-435 | the boolean stored under the name, and nothing for an absent name or any other kind |
| JsonObjects.ToBoolean | src/json.cpp:439-445 | the stored value coerced to a boolean; nothing for an absent name |
| JsonObjects.GetString | src/json.cpp:449-456 | the string stored under the name, and nothing for an absent name or any other kind |
| JsonObjects.ToString | src/json.cpp:460-467 | the stored value coerced to text; nothing for an absent name or null |
| JsonObjects.GetInt32 | src/json.cpp:471-478 | the stored number narrowed to 32 bits, and nothing for an absent name or any other kind |
| JsonObjects.ToInt32 | src/json.cpp:482-489 | the stored value coerced to a 32-bit integer; nothing for an absent name |
| JsonObjects.GetObject | src/json.cpp:493-495 | the object stored under the name, or a null pointer |
| JsonObjects.GetArray | src/json.cpp:499-501 | the array stored under the name, or a null pointer |
| JsonObjects.PutValue | src/json.cpp:546-548 | the object's map updated at the name; unique names and well-formedness are kept |
| JsonObjects.PutNull | src/json.cpp:505-507 | the map updated with null at the name |
| JsonObjects.PutBoolean | src/json.cpp:511-513 | the map updated with the boolean at the name |
| JsonObjects.PutString | src/json.cpp:517-519 | the map updated with the string at the name |
| JsonObjects.PutInt32 | src/json.cpp:523-525 | the map updated with the 32-bit number at the name |
| JsonObjects.PutObject | src/json.cpp:529-532 | the map updated with the object at the name |
| JsonObjects.PutArray | src/json.cpp:536-539 | the map updated with the array at the name |
| JsonObjects.Remove | src/json.cpp:552-554 | reports whether the name was present and removes exactly that key |
| JsonObjects.Serialize | src/json.cpp:398-400 | braces around the members' texts joined by commas |
| JsonObjects.Parse | src/json.cpp:1281-1284 | a parsed object starts at a `{` token and has unique names at every depth |
| JsonObjects.PutThenGet | include/pettystring/json.h:61-170 | each getter reads back what the matching put stored |
| JsonObjects.PutLeavesOthers | include/pettystring/json.h:129-170 | a put leaves every other name's reading unchanged |
| JsonObjects.RemoveUndoesPut | include/pettystring/json.h:172-177 | removing a freshly put name reports success and restores the object |
| JsonObjects.ParseSerialize | include/pettystring/json.h:27-38 | parsing a printable object's serialization gives the object back |
| JsonArrays.GetSize | src/json.cpp:645-647 | the number of elements |
| JsonArrays.IsNull | src/json.cpp:651-654 | true exactly when the index is past the end or holds null |
| JsonArrays.GetBoolean | src/json.cpp:658-665 | the boolean at the index, and nothing past the end or for any other kind |
| JsonArrays.ToBoolean | src/json.cpp:669-675 | the element coerced to a boolean; nothing past the end |
| JsonArrays.GetString | src/json.cpp:679-686 | the string at the index, and nothing past the end or for any other kind |
| JsonArrays.ToString | src/json.cpp:690-696 | the element coerced to text; nothing past the end or for null |
| JsonArrays.GetInt32 | src/json.cpp:700-707 | the number at the index narrowed to 32 bits, and nothing past the end or for any other kind |
| JsonArrays.ToInt32 | src/json.cpp:711-717 | the element coerced to a 32-bit integer; nothing past the end |
| JsonArrays.GetObject | src/json.cpp:721-723 | the object at the index, or a null pointer |
| JsonArrays.GetArray | src/json.cpp:727-729 | the array at the index, or a null pointer |
| JsonArrays.AppendValue | src/json.cpp:771-773 | one more element, the new one last, the others in place; well-formedness is kept |
| JsonArrays.AppendNull | src/json.cpp:733-735 | null appended after the old elements |
| JsonArrays.AppendBoolean | src/json.cpp:739-741 | the boolean appended after the old elements |
| JsonArrays.AppendString | src/json.cpp:745-747 | the string appended after the old elements |
| JsonArrays.AppendInt32 | src/json.cpp:751-753 | the 32-bit number appended after the old elements |
| JsonArrays.AppendObject | src/json.cpp:757-759 | the object appended after the old elements |
| JsonArrays.AppendArray | src/json.cpp:763-765 | the array appended after the old elements |
| JsonArrays.Remove | src/json.cpp:777-784 | an index inside erases that element and shifts the later ones down, reporting success; any other index changes nothing |
| JsonArrays.Serialize | src/json.cpp:639-641 | brackets around the elements' texts joined by commas |
| JsonArrays.Parse | src/json.cpp:1288-1291 | a parsed array starts at a `[` token and has unique names in every nested object |
| JsonArrays.AppendThenGet | include/pettystring/json.h:207-317 | the size grows by one and each getter at the old size reads back what was appended |
| JsonArrays.RemoveUndoesAppend | include/pettystring/json.h:319-324 | removing the element just appended restores the array |
| JsonArrays.RemoveThenInsert | include/pettystring/json.h:319-324 | reinserting the removed element at its index restores the array |
| JsonArrays.ParseSerialize | include/pettystring/json.h:194-205 | parsing a printable array's serialization gives the array back |
| Base64.Digit | include/pettystring/base64.h:20-21 | the 64 table characters, none of them `=` |
| Base64.TableText | include/pettystring/base64.h:20-21 | the table literal holds exactly the digits, in order |
| Base64.DigitsDistinct | include/pettystring/base64.h:20-21 | distinct indexes give distinct characters |
| Base64.FindFrom | include/pettystring/base64.h:103-106 | the first table index from a start point holding the character, or -1 when none does |
| Base64.Find | include/pettystring/base64.h:103-106 | `npos` exactly for characters outside the table; otherwise the index holding the character |
| Base64.FindIsSearch | include/pettystring/base64.h:103-106 | the lookup agrees with a left-to-right search of the table |
| Base64.FindDigit | include/pettystring/base64.h:103-106 | looking up a digit gives its index back |
| Base64.FirstNotInTable | include/pettystring/base64.h:67 | the first position whose character is outside the table, or nothing exactly when all are inside |
| Base64.FirstNotPad | include/pettystring/base64.h:70 | the first non-`=` position from a start point, or nothing exactly when the rest is all `=` |
| Base64.LastNotPad | include/pettystring/base64.h:84 | the last non-`=` position, or nothing exactly when the text is all `=` |
| Base64.PadCount | include/pettystring/base64.h:84-85 | the length of the trailing run of `=` |
| Base64.EncodeGroup | include/pettystring/base64.h:33-50 | four characters for one to three bytes: two padded with `==` for one byte, one `=` for two, none for three |
| Base64.High6 | include/pettystring/base64.h:34 | the top six bits of the first byte, a table index below 64 |
| Base64.Mid6a | include/pettystring/base64.h:35-40 | the low two bits of the first byte and the high four of the second, a table index below 64 |
| Base64.Mid6b | include/pettystring/base64.h:41-46 | the low four bits of the second byte and the high two of the third, a table index below 64 |
| Base64.Low6 | include/pettystring/base64.h:47 | the low six bits of the third byte, a table index below 64 |
| Base64.Encode | include/pettystring/base64.h:29-54 | four characters per started group of three bytes |
| Base64.IsBase64 | include/pettystring/base64.h:61-72 | a null pointer is never base64 |
| Base64.IsBase64Shape | include/pettystring/base64.h:61-72 | accepted exactly when non-empty, a multiple of 4 long, and table digits followed by at most two `=` |
| Base64.GetBase64Size | include/pettystring/base64.h:79-87 | 0 for rejected text, else three bytes per group minus one per `=` |
| Base64.DecodeGroup | include/pettystring/base64.h:103-114 | one byte when the third character is padding, two when only the fourth is, else three |
| Base64.Byte1 | include/pettystring/base64.h:108 | a byte whose top six bits are the first digit's value and whose low two bits are the second digit's top two |
| Base64.Byte2 | include/pettystring/base64.h:110 | a byte whose top four bits are the second digit's low four and whose low four bits are the third digit's top four |
| Base64.Byte3 | include/pettystring/base64.h:112 | a byte whose top two bits are the third digit's low two and whose low six bits are the fourth digit's value |
| Base64.DecodeGroups | include/pettystring/base64.h:102-115 | every group of four characters yields one to three bytes |
| Base64.Decode | include/pettystring/base64.h:95-118 | succeeds exactly on base64 text, writes nothing otherwise, and writes exactly the announced size |
| Base64.DecodedLength | include/pettystring/base64.h:79-87 | the groups decode to exactly the size `GetBase64Size` announces |
| Base64.EncodeLength | include/pettystring/base64.h:29-54 | the encoding is four characters per started group of three bytes, each a digit or `=` |
| Base64.EncodeShape | include/pettystring/base64.h:36-44 | an encoding is digits then padding: two `=` when the length is 1 modulo 3, one when 2, none when 0 |
| Base64.EncodeIsBase64 | include/pettystring/base64.h:61-72 | the encoding of non-empty data is accepted as base64 |
| Base64.Recombine1 | include/pettystring/base64.h:108 | the first decoded byte recombines the first two 6-bit digits into the first byte |
| Base64.Recombine2 | include/pettystring/base64.h:110 | the second decoded byte recombines into the second byte |
| Base64.Recombine3 | include/pettystring/base64.h:112 | the third decoded byte recombines into the third byte |
| Base64.DecodeEncodeGroup | include/pettystring/base64.h:103-114 | decoding one encoded group gives its bytes back |
| Base64.DecodeGroupsEncode | include/pettystring/base64.h:102-115 | decoding every group of an encoding gives the data back |
| Base64.DecodeEncode | include/pettystring/base64.h:95-118 | decoding the encoding of non-empty data succeeds with the data |
| Base64.EncodedSize | include/pettystring/base64.h:79-87 | the announced size of an encoding is the data's length |
| Base64.EmptyIsNotBase64 | include/pettystring/base64.h:64-65 | empty data encodes to the empty text, which is rejected, as is a null pointer |
| IntendedEscapes.AsWrittenMisreadsLetter | src/json.cpp:976-980 | as written, the escape `\u004A` reads as 0x40 and decodes to `@` |
| IntendedEscapes.HexValue | src/json.cpp:969-986 | the intended digit values: defined exactly on hexadecimal digits, each below 16 |
| IntendedEscapes.HexChar | src/json.cpp:969-986 | every value below 16 has a digit whose intended value it is |
| IntendedEscapes.HexRoundTrip | src/json.cpp:969-986 | with intended values, the four digits of any 16-bit code unit read back as that code unit |
| IntendedEscapes.IntendedReadsLetter | src/json.cpp:976-980 | with intended values, the escape `\u004A` reads as 0x4A |
| IntendedEscapes.AsWrittenTruncatesPair | src/json.cpp:1006 | with the letter values as written `\uD83D` reads as 0x3833, so the 16-bit store is not reached; once the letter values are corrected, the pair `\uD83D\uDE00` (U+1F600) is stored as 0xF600 and written as three bytes, not four |
| IntendedEscapes.EncodeUtf8Full | src/json.cpp:1015-1024 | UTF-8 of every code point: the source's bytes below 0x10000, four well-formed bytes above, always carrying the code point |
| IntendedEscapes.ParseCodePointIntended | src/json.cpp:991-1027 | accepts and rejects what the code as written does, and writes the full code point of a surrogate pair in four bytes |
| IntendedEscapes.IntendedKeepsPair | src/json.cpp:1006 | with the corrections, the pair `\uD83D\uDE00` decodes to the four bytes of U+1F600 |
| IntendedNumbers.AsWrittenDropsNumber | src/json.cpp:334-346 | as written, the array `[5]` (any 32-bit number) serializes as `[]` and reads back as the empty array |
| IntendedNumbers.SerializeNumberIntended | src/json.cpp:334-346 | the intended text of an integer reads back as that integer; a double is formatted by `%g` |
| IntendedNumbers.DecimalTextIsNumberRun | src/json.cpp:1105-1114 | the intended integer text is one run of number characters with no leading whitespace |
| IntendedNumbers.IntendedIntegerRoundTrip | src/json.cpp:1099-1117 | the parser reads the intended text of an integer back as that integer, in the narrowest width, consuming all of it |

## Left out

- Floating point: `strtod`, the `HUGE_VAL` test, the conversion of a double to `int32_t`
  and `%g` formatting are the fields of a `FloatLib` parameter (or a function
  parameter), not modelled bit by bit.
- `TryStringToInteger` and `NullOptionPtr` live in `petty_string.h`, which is not part of
  this model. `TryStringToInteger` is modelled as `strtol`-style base-10 reading:
  leading C whitespace, an optional sign, digits to the end, and a range check.
- Common.NarrowToInt32: `static_cast<std::int32_t>` of an out-of-range `int64_t` is
  taken as two's-complement wrap-around. C++ before C++20 leaves that
  implementation-defined.
- Object member order: the source keeps members in an `unordered_map`, whose
  iteration order is unspecified. The model keeps insertion order. Every property
  about objects is stated through `Members.ToMap`, so none depends on that order.
  The serialized text of an object with two or more members therefore fixes one
  order among those the source may produce.
- Ownership, `unique_ptr` transfer, virtual dispatch and `static_cast` downcasts are
  not modelled. Values are immutable, and `Put*`/`Append*` return the new
  container.
- A null `unique_ptr` handed to `PutObject`, `PutArray`, `AppendObject` or
  `AppendArray` is not modelled. Those operations take a present child.
- Reading past the end: `NextChar` on the last character dereferences the end
  iterator, which is undefined behaviour. The model reads NUL there, the same value
  `GetChar` gives at the end.
- `DecodeBase64` writes through an output iterator. The model returns the written
  bytes, and `IsBase64`/`GetBase64Size` take an optional text for the `const char*`.
  Text after an embedded NUL cannot reach these functions and is not modelled.
- Base64 input iterators of signed `char`: the source masks every shift, so the bits
  written equal those of the unsigned byte the model takes.
- JsonValue.SerializeNumber: modelled as written (the empty text). Its formatting is
  commented out in the source. The intended version is
  `IntendedNumbers.SerializeNumberIntended`, listed under Findings.
- JsonString.HexDigitValue and JsonString.CombineSurrogates: the parser keeps the
  code as written, with letters worth 0 to 5 and the pair stored in 16 bits. The
  corrected definitions sit beside them in `IntendedEscapes` and are not wired into
  the parser.
- JsonObjects.GetInt32 and JsonArrays.GetInt32: the header describes these as
  reading an integer. The code narrows any number, a 64-bit integer or a double as
  well. The model follows the code.
- The round-trip lemmas (`JsonRoundTrip.ParseSerializedValue` and the two `Parse`/
  `Serialize` lemmas) require `Printable` values:
  - no numbers, since as written a number serializes to nothing;
  - no raw control characters other than the escaped ones, since the parser rejects
    them;
  - unique names in every object.
- JsonParser.ParseValue, JsonParser.ParseObject, JsonParser.ParseArray,
  JsonParser.ParseMembers and JsonParser.ParseElements: their contracts state the
  opening token and that the cursor moves forward, not the value read. The
  `JsonParser.ObjectStep` and `JsonParser.ArrayStep` lemmas state what
  `ParseObject` and `ParseArray` do after the opening token. What they parse is stated by
  `JsonRoundTrip.ParseSerializedValue`, the step lemmas of `JsonParser` and the
  `JsonParseProperties` lemmas.
- JsonString.ScanString and JsonString.ParseString: their contracts state only where
  a successful scan ends. What they read is stated by
  `JsonString.ParseSerializedString`, `JsonString.ScanStepsThenScan` and the three
  rejection lemmas.
- JsonString.Escape: its contract bounds the length only. Its content is stated by
  `JsonString.EscapeChar` and by the round trip `JsonString.ParseSerializedString`.
- JsonString.HexDigits: its contract gives only the 16-bit range. Where the digit
  loop succeeds and where it ends is `JsonString.HexDigitsAccepts`, kept apart so the
  loop's unfoldings stay cheap.
- Base64.Encode: its contract gives only the length. That the characters are digits
  and padding is `Base64.EncodeLength` and `Base64.EncodeShape`, and that decoding
  inverts it is `Base64.DecodeEncode`.
- Base64.IsBase64: its own contract states only the null case. The full acceptance
  condition is `Base64.IsBase64Shape`.
- Parser positions are unbounded naturals, and the recursion depth is unbounded.
  The source's stack depth is not modelled.

## Findings

| source | as written | input that shows it | evidently intended | confidence | as-written member | corrected member |
|---|---|---|---|---|---|---|
| src/json.cpp:976-980 | a hexadecimal letter `A`-`F`/`a`-`f` is worth `c - 'A'`, i.e. 0 to 5 | `"\u004A"` reads as U+0040 `@` instead of `J` | letters are worth 10 to 15 | high; not executed | IntendedEscapes.AsWrittenMisreadsLetter | IntendedEscapes.HexValue, IntendedEscapes.HexRoundTrip, IntendedEscapes.IntendedReadsLetter |
| src/json.cpp:1006 | the combined code point of a surrogate pair is stored in the 16-bit `code`, losing its top bit, and written as at most three UTF-8 bytes. The defect is latent: with the letter values of lines 976-980 no escape reads above 0x9999, so no surrogate is ever seen (`JsonString.AsWrittenCodeUnitsStayLow`) | once lines 976-980 are fixed, `"\uD83D\uDE00"` (U+1F600) becomes U+F600, three bytes; as written `\uD83D` reads as 0x3833 instead | the full code point, written as four UTF-8 bytes | high that the store truncates; it is reachable only after the fix of lines 976-980; not executed | IntendedEscapes.AsWrittenTruncatesPair | IntendedEscapes.ParseCodePointIntended, IntendedEscapes.EncodeUtf8Full, IntendedEscapes.IntendedKeepsPair |
| src/json.cpp:334-346 | a number serializes to the empty text (the formatting calls are commented out) | the array `[5]` serializes as `[]`, which parses back as the empty array | `%d` for integers and `%g` for doubles | medium (may be unfinished work); not executed | IntendedNumbers.AsWrittenDropsNumber | IntendedNumbers.SerializeNumberIntended, IntendedNumbers.IntendedIntegerRoundTrip |
