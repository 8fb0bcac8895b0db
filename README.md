# JsonObjectUpdated in Dafny

A model of the `Json` value library of JsonObjectUpdated (`Json.h`, `Json.cpp`).
The model covers four parts:

- **The value.** `Var` is a tagged union of seven kinds: Null, Bool, Int, Float, String, Array and Object. The payload of an Object is a `std::map`, so it is modelled as a strictly key-ascending sequence of entries. That sequence is also the order in which the map is iterated and printed.
- **The `Json` handle.** It owns its `Var` exclusively through a `unique_ptr`. Its mutators `Set`, `Add` and `Insert` update that payload in place. The handle also has constructors, deep copy and assignment.
- **The parser.** `Json::Parse` trims the text and classifies it. It uses `ParseAsInt`, `ParseAsArray`, `ParseAsObject` and the balanced-delimiter scanner `Var::ParseKV`.
- **The serializer and the iterator.** `Json::Stringify` builds the text, and `Json::Iterator` walks a container.

Modules, one per file:

| module | file | what |
|---|---|---|
| `JsonValue` | json_value.dfy | kinds, `Var`, map order, queries, coercions, map assignment, vector insert |
| `JsonEquality` | json_equality.dfy | `operator==` and both `Compare` overloads |
| `JsonScanner` | json_scanner.dfy | `Var::ParseKV` as a method, with the scan it performs as a function |
| `JsonParser` | json_parser.dfy | `FindFirstNotOf`, `Parse`, `ParseAsInt`, `ParseAsArray`, `ParseAsObject`, as methods proved equal to specification functions |
| `JsonSerializer` | json_serializer.dfy | `Stringify` as a method proved equal to `Render` |
| `JsonRoundTrip` | json_roundtrip.dfy | parsing the text of a value gives the value back |
| `JsonNode` | json_node.dfy | class `Json`: constructors, copy, assignment, `Set`, `Add`, `Insert`, `GetKeys`, `JObject`, `JArray` |
| `JsonIterator` | json_iterator.dfy | class `Iterator` and a range-for over it |

A parse has one of three outcomes (`JsonParser.Outcome`):

- `Done(value)`.
- `AssertFailed`: one of the source's `assert`s fails on the input text. Examples are a non-digit in `ParseAsInt`, a non-String key, and an unclosed span in `ParseKV`.
- `Undefined`: the input leads the C++ code into undefined behaviour. Examples are an all-whitespace text (the descending `size_t` loop), signed overflow while digits accumulate, a key segment that runs to the end of an object body (`encoded.back()` on an empty string), and a padded lone `"`.

This behaviour can arise inside a nested segment of any input, so it is a modelled outcome rather than a precondition on `Parse`. Leaf routines keep their own precondition: the descending `FindFirstNotOf` needs a non-whitespace character, and `ParseKV` needs `offset` inside the text.

Floating point is not modelled. A Float payload is an opaque 32-bit pattern. `atof` and `std::to_string(float)` are function parameters (`atof`, `ftoa`).

## Model

| member | source | states |
|---|---|---|
| JsonValue.SevenKinds | JsonObjectUpdated/Json.h:22 | every value has one of exactly seven kinds |
| JsonValue.OfType | JsonObjectUpdated/Json.cpp:22-40 | Json(Type) for Null, String, Array and Object gives that kind with size 0 (an empty string for String) |
| JsonValue.Var.Contains | JsonObjectUpdated/Json.cpp:166-171 | true exactly for an Object whose map has the key; false on every other kind |
| JsonValue.Var.Get | JsonObjectUpdated/Json.cpp:327-344 | operator[](key) on an Object holding the key yields the value the map stores under it |
| JsonValue.Var.GetType | JsonObjectUpdated/Json.cpp:140-143 | the reported kind is the value's own kind, each of the seven kinds exactly for its constructor |
| JsonValue.Var.Size | JsonObjectUpdated/Json.cpp:145-156 | an Array's element count, an Object's member count (for a sorted map, one per distinct key), and 0 for every other kind |
| JsonValue.Var.At | JsonObjectUpdated/Json.cpp:377-397 | operator[](i) on an Array yields exactly the element at index `i` |
| JsonValue.Var.AsBool | JsonObjectUpdated/Json.cpp:399-404 | operator bool is true exactly for the Bool `true` |
| JsonValue.Var.AsInt | JsonObjectUpdated/Json.cpp:406-411 | operator int is the payload of an Int, and 0 for any other kind |
| JsonValue.Var.AsFloat | JsonObjectUpdated/Json.cpp:413-418 | operator float is the payload of a Float, and +0.0 for any other kind |
| JsonValue.Var.AsString | JsonObjectUpdated/Json.cpp:420-425 | operator std::string is the payload of a String, and "" for any other kind |
| JsonValue.KeyLess | JsonObjectUpdated/Json.h:118 | std::string's `<` on map keys, lexicographic by character, with a proper prefix below the longer key |
| JsonValue.KeyLessIrreflexive | JsonObjectUpdated/Json.h:118 | std::string's `<` ordering the map keys is irreflexive |
| JsonValue.KeyLessTransitive | JsonObjectUpdated/Json.h:118 | that order is transitive |
| JsonValue.KeyLessTotal | JsonObjectUpdated/Json.h:118 | that order is total, so map keys are ordered and unique |
| JsonValue.KeysOf | JsonObjectUpdated/Json.cpp:486-487 | the keys of the map's entries, one per entry, in iteration order |
| JsonValue.Lookup | JsonObjectUpdated/Json.cpp:170 | `find` succeeds exactly for a key in the map |
| JsonValue.Put | JsonObjectUpdated/Json.cpp:161-162 | `map[key] = value` keeps the map sorted; it adds the key to the key set and stores the value under it; other keys keep their values; the size grows by one exactly when the key was new |
| JsonValue.PutAll | JsonObjectUpdated/Json.cpp:176-179 | a sequence of map assignments keeps the map sorted |
| JsonValue.PutAllLookup | JsonObjectUpdated/Json.cpp:176-179 | after a sequence of map assignments a key holds the value of its last assignment, or its old value if it was not assigned |
| JsonValue.PutAbove | JsonObjectUpdated/Json.cpp:516-518 | inserting a key above every key present appends the entry, as Copy does while walking a map in order |
| JsonValue.Inserted | JsonObjectUpdated/Json.cpp:452-453 | `vector::insert(begin()+index, v)` puts `v` at `index`, keeps the earlier elements and shifts the later ones up by one |
| JsonEquality.Equal | JsonObjectUpdated/Json.cpp:356-370 | operator== holds only for values of the same kind |
| JsonEquality.CompareArrays | JsonObjectUpdated/Json.cpp:84-95 | the vector overload of Compare holds only for vectors of the same length |
| JsonEquality.CompareObjects | JsonObjectUpdated/Json.cpp:97-119 | the map overload of Compare holds only for maps with the same key set |
| JsonEquality.EqualIsIdentity | JsonObjectUpdated/Json.cpp:84-119 | on values whose objects are maps, with Float payloads compared by bit pattern, operator== holds exactly when the two values are identical: arrays equal element by element in order, objects with the same key set and equal values per key |
| JsonEquality.EqualReflexive | JsonObjectUpdated/Json.cpp:356-370 | every value equals itself, with Float payloads compared by bit pattern |
| JsonEquality.KindsDiffer | JsonObjectUpdated/Json.cpp:358-359 | values of different kinds are unequal |
| JsonEquality.SortedSameKeys | JsonObjectUpdated/Json.cpp:99-111 | two maps with the same key set have the same keys at the same positions |
| JsonEquality.LookupAt | JsonObjectUpdated/Json.cpp:114 | in a map, `find` of an entry's key returns that entry's value |
| JsonEquality.MapDeterminedByLookups | JsonObjectUpdated/Json.cpp:161-162 | two maps that answer every `find` alike are the same map |
| JsonEquality.PutCommutes | JsonObjectUpdated/Json.cpp:161-162 | assignments to two different keys give the same map in either order |
| JsonScanner.Pops | JsonObjectUpdated/Json.cpp:604-608 | a character pops exactly when it is the closer on top of the stack |
| JsonScanner.Step | JsonObjectUpdated/Json.cpp:604-623 | a pop shortens the closer stack by one; any other character keeps its length or pushes one closer, and a pushed closer is `"`, `]` or `}` |
| JsonScanner.ScanLoop | JsonObjectUpdated/Json.cpp:601-626 | the character loop with its closer stack returns the consumed prefix and the stack of ScanFrom |
| JsonScanner.ScanFrom | JsonObjectUpdated/Json.cpp:601-626 | the scan consumes at most the text and at least one character of a non-empty text; when it stops, it has just consumed the delimiter and the stack is empty; otherwise it consumed everything |
| JsonScanner.ScanIsFirstStop | JsonObjectUpdated/Json.cpp:601-626 | the scan stops at the first index where the delimiter meets an empty stack without popping, and nowhere earlier; without a stop, it leaves the stack that feeding the whole text gives |
| JsonScanner.ScanConcat | JsonObjectUpdated/Json.cpp:601-626 | a scan that does not stop in `t` goes on into `u` from the stack it left |
| JsonScanner.ScanInert | JsonObjectUpdated/Json.cpp:610-623 | characters that neither open, close nor stop leave the stack unchanged |
| JsonScanner.StopsAtFirst | JsonObjectUpdated/Json.cpp:604-625 | a stop at the first character means the delimiter did not pop and leaves the stack empty |
| JsonScanner.StopsAtLater | JsonObjectUpdated/Json.cpp:604-625 | a stop later in the text is a stop in the rest, from the stack after the first character |
| JsonScanner.RunClosers | JsonObjectUpdated/Json.cpp:612-620 | only closers `"`, `]` and `}` are ever pushed |
| JsonScanner.RunSnoc | JsonObjectUpdated/Json.cpp:601-608 | feeding one more character applies one more step to the stack |
| JsonScanner.RunEndsAtDelimiter | JsonObjectUpdated/Json.cpp:624-625 | with `,` or `:`, a text that empties the stack and ends with the delimiter stops at that delimiter |
| JsonScanner.NextSegment | JsonObjectUpdated/Json.cpp:627-633 | the offset moves forward and stays within the text; the segment is no longer than what was consumed |
| JsonScanner.NextSegmentIsFirstStop | JsonObjectUpdated/Json.cpp:595-634 | the segment is the text up to the first delimiter met with an empty stack, without that delimiter, and the offset moves past the delimiter; with no such delimiter, the segment is the whole rest and the offset is the end; the assert fails exactly when no stop exists and a span is left open |
| JsonScanner.ScanUnbalanced | JsonObjectUpdated/Json.cpp:627 | a scan left with an open span found no stop |
| JsonScanner.ScanStopped | JsonObjectUpdated/Json.cpp:624-625 | a scan that stopped did so at the first possible stop |
| JsonScanner.ScanRanOut | JsonObjectUpdated/Json.cpp:629-631 | a scan that ran out balanced has no stop and does not end with the delimiter, so `pop_back` is not applied |
| JsonScanner.ParseKV | JsonObjectUpdated/Json.cpp:595-634 | the loop with its explicit closer stack returns the segment and new offset of NextSegment, or the failed assert |
| JsonParser.FirstNotIn | JsonObjectUpdated/Json.cpp:123-129 | the first index whose character is outside the set, with all earlier ones inside |
| JsonParser.LastNotIn | JsonObjectUpdated/Json.cpp:131-136 | the last index whose character is outside the set, with all later ones inside |
| JsonParser.FindFirstNotOf | JsonObjectUpdated/Json.cpp:121-138 | ascending: the first non-member index, or 0 when there is none; descending: the last non-member index, given that one exists |
| JsonParser.Trim | JsonObjectUpdated/Json.cpp:273-275 | the trimmed text is non-empty and neither starts nor ends with whitespace |
| JsonParser.TrimIdentity | JsonObjectUpdated/Json.cpp:273-275 | text without whitespace at its ends is its own trim |
| JsonParser.TrimPadded | JsonObjectUpdated/Json.cpp:273-275 | whitespace added at either end does not change the trimmed text |
| JsonParser.Inner | JsonObjectUpdated/Json.cpp:279 | the text strictly between the first and the last character |
| JsonParser.DigitValue | JsonObjectUpdated/Json.cpp:546 | `ch - 48` of a digit is at most 9 |
| JsonParser.Pow10 | JsonObjectUpdated/Json.cpp:545 | the weight of a digit position is positive |
| JsonParser.Accumulate | JsonObjectUpdated/Json.cpp:541-547 | the accumulating loop, when it finishes, yields a non-negative Int |
| JsonParser.IntResult | JsonObjectUpdated/Json.cpp:538-552 | ParseAsInt yields an Int when it finishes |
| JsonParser.DecimalValueHead | JsonObjectUpdated/Json.cpp:545-546 | the leading digit contributes its value times its position's weight |
| JsonParser.AccumulateValue | JsonObjectUpdated/Json.cpp:541-547 | the loop finishes exactly when every character is a digit and the number fits an `int`, and it yields that number |
| JsonParser.IntResultValue | JsonObjectUpdated/Json.cpp:538-552 | an Int results exactly for an optional `-` followed by digits whose value fits, and it is the signed value |
| JsonParser.ParseAsInt | JsonObjectUpdated/Json.cpp:538-552 | the loop with its overflow and digit checks computes IntResult |
| JsonParser.ParseResult | JsonObjectUpdated/Json.cpp:270-305 | every value a parse produces keeps every object sorted by key |
| JsonParser.Classify | JsonObjectUpdated/Json.cpp:276-303 | every value the switch on the first and last characters produces is well-formed |
| JsonParser.ArrayResult | JsonObjectUpdated/Json.cpp:580-593 | every array the segment loop produces is well-formed |
| JsonParser.ObjectResult | JsonObjectUpdated/Json.cpp:560-578 | every object the segment loop produces is sorted, with well-formed values |
| JsonParser.ValueThenRest | JsonObjectUpdated/Json.cpp:571-574 | the value half of a member keeps the result well-formed |
| JsonParser.Parse | JsonObjectUpdated/Json.cpp:270-305 | the method computes ParseResult |
| JsonParser.ParseTrimmed | JsonObjectUpdated/Json.cpp:276-303 | the switch on the first and last characters of the trimmed text computes Classify |
| JsonParser.ParseAsArray | JsonObjectUpdated/Json.cpp:580-593 | the loop computes ArrayResult on the body |
| JsonParser.ParseAsObject | JsonObjectUpdated/Json.cpp:560-578 | the loop computes ObjectResult on the body |
| JsonParser.ParseIgnoresPadding | JsonObjectUpdated/Json.cpp:273-275 | whitespace at the ends does not change the outcome, except around a lone `"` |
| JsonParser.PaddedQuote | JsonObjectUpdated/Json.cpp:284 | a lone `"` is Null, but padded it reaches the reversed range |
| JsonParser.ObjectStep | JsonObjectUpdated/Json.cpp:566-574 | a key segment that parses to a String and a value segment that parses to `v` store `v` under the key, and the loop continues after the value |
| JsonParser.ArrayStep | JsonObjectUpdated/Json.cpp:586-589 | a segment that parses to `v` appends `v` and the loop continues after it |
| JsonParser.ParseBraced | JsonObjectUpdated/Json.cpp:282-283 | `{body}` is parsed as an object body and `[body]` as an array body |
| JsonParser.ParseQuoted | JsonObjectUpdated/Json.cpp:284 | a quoted text is a String holding the characters between the quotes, with no escape processing |
| JsonParser.ParseLiterals | JsonObjectUpdated/Json.cpp:286-301 | `true` and `false` are Bools; `null` has no branch and fails ParseAsInt's digit assert |
| JsonParser.ParseNegativeInt | JsonObjectUpdated/Json.cpp:538-552 | `-042` parses to -42 |
| JsonParser.ParseEmptyContainers | JsonObjectUpdated/Json.cpp:560-593 | `[]` and `{}` parse to an empty array and an empty object |
| JsonParser.ParseSingleDigit | JsonObjectUpdated/Json.cpp:300-301 | one digit parses to the Int of its value |
| JsonParser.ParseEmptyElement | JsonObjectUpdated/Json.cpp:586-588 | an empty element leaves the whole array Null: `[1,,2]` gives Null |
| JsonParser.TwoMemberBody | JsonObjectUpdated/Json.cpp:560-578 | an object body of two members with one-character keys and one-digit values is the map built by assigning the first, then the second |
| JsonParser.ParseRepeatedKey | JsonObjectUpdated/Json.cpp:574 | a repeated key keeps its last value: `{"a":1,"a":2}` gives `{"a":2}` |
| JsonParser.ParseDigits | JsonObjectUpdated/Json.cpp:296-301 | digits that fit an `int` parse to the number they denote |
| JsonParser.InnerTextAsWritten | JsonObjectUpdated/Json.cpp:279 | the range is reversed exactly when the trimmed text is one character |
| JsonParser.SingleCharacterAsWritten | JsonObjectUpdated/Json.cpp:279 | as written, a one-character text reaches the reversed range |
| JsonParser.SingleCharacterCorrected | JsonObjectUpdated/Json.cpp:279-301 | taking the range only where it is used, `[1,2]` parses to [1, 2] |
| JsonParser.FindFirstOf | JsonObjectUpdated/Json.cpp:296 | `find_first_of` returns the first index of the character, or npos when it is absent |
| JsonParser.FloatBranchAsWritten | JsonObjectUpdated/Json.cpp:296 | the test as written sends every text containing `.` to the float branch, whatever the width of npos |
| JsonParser.FloatBranchOn64Bit | JsonObjectUpdated/Json.cpp:296 | with a 64-bit npos the test as written holds for every text, so `42` takes the float branch |
| JsonParser.FloatBranchOn32Bit | JsonObjectUpdated/Json.cpp:296 | with a 32-bit npos the test holds exactly when the text contains `.` |
| JsonParser.FloatBranchCorrected | JsonObjectUpdated/Json.cpp:296-301 | testing for `.`, `42` parses to the Int 42 |
| JsonSerializer.NatToString | JsonObjectUpdated/Json.cpp:215 | the decimal text of a natural number is digits, without a leading zero, that denote it |
| JsonSerializer.IntToString | JsonObjectUpdated/Json.cpp:215 | `std::to_string(int)` puts a `-` before the digits of a negative number |
| JsonSerializer.JoinSnoc | JsonObjectUpdated/Json.cpp:244-250 | one more part adds a `,` and that part |
| JsonSerializer.ElementTexts | JsonObjectUpdated/Json.cpp:244-246 | one text per element |
| JsonSerializer.MemberTexts | JsonObjectUpdated/Json.cpp:255-258 | one `"key":value` text per member |
| JsonSerializer.PushAll | JsonObjectUpdated/Json.cpp:215-218 | pushing the characters one by one appends the text |
| JsonSerializer.Render | JsonObjectUpdated/Json.cpp:209-268 | the text of an Array ends with `]` and that of an Object with `}` |
| JsonSerializer.Stringify | JsonObjectUpdated/Json.cpp:209-268 | the method builds exactly Render |
| JsonSerializer.StringifyArray | JsonObjectUpdated/Json.cpp:242-252 | the push and pop loop gives `[` + the element texts joined by `,` + `]` |
| JsonSerializer.StringifyObject | JsonObjectUpdated/Json.cpp:253-263 | the push and pop loop gives `{` + the `"key":value` texts in key order joined by `,` + `}` |
| JsonSerializer.RenderEdgeCases | JsonObjectUpdated/Json.cpp:243-265 | Null has no text; an empty array is `]` and an empty object is `}`, since `pop_back` removes the opening bracket |
| JsonRoundTrip.RepresentableWellFormed | JsonObjectUpdated/Json.cpp:209-268 | a representable value keeps every object sorted |
| JsonRoundTrip.RenderScan | JsonObjectUpdated/Json.cpp:601-626 | the scanner crosses the text of a representable value without stopping and with its stack as it found it |
| JsonRoundTrip.RenderEnds | JsonObjectUpdated/Json.cpp:630-631 | the text of a representable value is non-empty and does not end with `,` |
| JsonRoundTrip.ParseIntText | JsonObjectUpdated/Json.cpp:538-552 | the text of an Int other than the least `int` parses back to it |
| JsonRoundTrip.RoundTrip | JsonObjectUpdated/Json.cpp:209-305 | parsing the text Stringify gives for a representable value yields that value |
| JsonRoundTrip.ElementsRoundTrip | JsonObjectUpdated/Json.cpp:580-593 | the element texts joined by `,` parse back to the elements in order |
| JsonRoundTrip.MembersRoundTrip | JsonObjectUpdated/Json.cpp:560-578 | the member texts joined by `,` parse back to the same map |
| JsonRoundTrip.TextRoundTrip | JsonObjectUpdated/Json.cpp:209-305 | stringifying the parse of a representable value's text gives the same text |
| JsonRoundTrip.ParseMemberOrder | JsonObjectUpdated/Json.cpp:560-578 | two members with different keys parse to the same object whichever is written first |
| JsonRoundTrip.UnrepresentableTexts | JsonObjectUpdated/Json.cpp:243-265 | the texts of an empty array and an empty object fail the digit assert when parsed; the text of Null is all whitespace |
| JsonNode.Json.constructor | JsonObjectUpdated/Json.cpp:22-40 | Json(Type) gives that kind with an empty payload; the default is Null |
| JsonNode.Json.FromBool | JsonObjectUpdated/Json.cpp:42-47 | a Bool holding the argument |
| JsonNode.Json.FromInt | JsonObjectUpdated/Json.cpp:49-54 | an Int holding the argument |
| JsonNode.Json.FromFloat | JsonObjectUpdated/Json.cpp:56-61 | a Float holding the argument |
| JsonNode.Json.FromString | JsonObjectUpdated/Json.cpp:63-75 | a String holding the argument |
| JsonNode.Json.Wrap | JsonObjectUpdated/Json.cpp:42-75 | converting one argument of the variadic or initializer-list constructor gives a handle holding that value |
| JsonNode.Json.CopyOf | JsonObjectUpdated/Json.cpp:11-15 | the copy constructor gives a payload identical to the source's |
| JsonNode.Json.Elements | JsonObjectUpdated/Json.h:155-170 | the variadic constructor gives an Array of the arguments in order, its size the argument count |
| JsonNode.Json.OfPairs | JsonObjectUpdated/Json.cpp:77-80 | the initializer-list constructor gives the Object Json::JObject builds |
| JsonNode.Json.Assign | JsonObjectUpdated/Json.cpp:308-317 | copy assignment leaves a payload equal to the other's, self-assignment included |
| JsonNode.Json.Set | JsonObjectUpdated/Json.cpp:158-164 | on an Object the key is then contained; it maps to a copy of the value when the value is another handle, and to the partial copy Stored describes when a handle is set into itself; other keys are unchanged; the size grows by one exactly when the key was new |
| JsonNode.Json.Insert | JsonObjectUpdated/Json.cpp:449-455 | on an Array the value is at `index`, later elements are shifted, and the size grows by one |
| JsonNode.Json.InsertMoved | JsonObjectUpdated/Json.cpp:457-463 | the rvalue overload appends the moved handle's payload and ignores `index`; a handle moved into itself is excluded |
| JsonNode.Json.Add | JsonObjectUpdated/Json.cpp:465-470 | appends at the end and grows the size by one |
| JsonNode.Json.AddMoved | JsonObjectUpdated/Json.cpp:472-479 | appends, also when a handle is added to itself |
| JsonNode.Json.GetKeys | JsonObjectUpdated/Json.cpp:481-490 | the keys of an Object in map order, strictly ascending |
| JsonNode.Stored | JsonObjectUpdated/Json.cpp:161-162 | what `Set` stores: the value itself for another handle, SelfCopy for the receiver; either way well-formed |
| JsonNode.Below | JsonObjectUpdated/Json.cpp:516-518 | the members below a key: a sorted prefix of the map |
| JsonNode.BelowLookup | JsonObjectUpdated/Json.cpp:516-518 | the prefix answers `find` like the map for keys below the key, and finds nothing else |
| JsonNode.SelfCopy | JsonObjectUpdated/Json.cpp:492-523 | after `operator[]` has inserted the key and `operator=` has reset its node, Copy fills that node from the receiver's map in key order and reaches the key when only the lower members are copied: the node gets every key of the receiver plus the key; under the key it holds an object of exactly the members below the key, and under every other key the receiver's value |
| JsonNode.SelfSetExample | JsonObjectUpdated/Json.cpp:158-164 | with `j = {"b":1}`, `j.Set("a", j)` stores `{"a":{},"b":1}` under `a`, not the old `{"b":1}` |
| JsonNode.PutWellFormed | JsonObjectUpdated/Json.cpp:161-162 | storing a well-formed value keeps every stored value well-formed |
| JsonNode.CopyVar | JsonObjectUpdated/Json.cpp:492-523 | Var::Copy produces a value identical to its source, and operator==-equal to it with Float payloads compared by bit pattern |
| JsonNode.EllipArray | JsonObjectUpdated/Json.h:155-161 | the recursive Add appends the arguments in order |
| JsonNode.ObjectOf | JsonObjectUpdated/Json.cpp:173-181 | Json::JObject is an Object in which each key holds the value of its last pair |
| JsonNode.ArrayOf | JsonObjectUpdated/Json.cpp:183-191 | Json::JArray is an Array of the arguments in order |
| JsonIterator.Children | JsonObjectUpdated/Json.h:24-39 | an iterator visits the elements of an Array, or the values of an Object in key order, one per position |
| JsonIterator.Iterator.Begin | JsonObjectUpdated/Json.cpp:193-199 | begin() is the first position of the container |
| JsonIterator.Iterator.End | JsonObjectUpdated/Json.cpp:201-207 | end() is the position past the last entry |
| JsonIterator.Iterator.Next | JsonObjectUpdated/Json.cpp:645-657 | operator++ moves to the next position |
| JsonIterator.Iterator.NotEqual | JsonObjectUpdated/Json.cpp:664-671 | operator!= holds exactly when the positions differ |
| JsonIterator.Iterator.Value | JsonObjectUpdated/Json.cpp:687-693 | the element, or the member's value, at the position |
| JsonIterator.Iterator.Key | JsonObjectUpdated/Json.cpp:679-685 | on an Object, the key at the position, one of the map's keys |
| JsonIterator.Walk | JsonObjectUpdated/Json.cpp:193-207 | begin() to end() with Value() visits every child once, in order |
| JsonIterator.WalkKeys | JsonObjectUpdated/Json.cpp:679-685 | the same walk with Key() over an Object yields its keys in ascending order |

## Left out

- Float parsing and printing (`atof`, `std::to_string(float)`) are function parameters. The Float payload is an opaque bit pattern. Float equality compares bits, so NaN and ±0 are not modelled (see the lines below).
- `Save`, `Load`, `Print`, `PrintS` and `FindExt` are declared but do file and console I/O. JsonObjectUpdated.cpp is a demo `main` and is not part of this model.
- `Var::RemoveWS` is never called and is left out.
- Raw memory management is replaced by value semantics. This covers `new`/`delete`, the destructor of `Var`, `unique_ptr`, the move constructor and move assignment, and the null payload of a moved-from handle. Because each handle owns a separate tree, no sharing is modelled. The one alias the source's own operations can create, a handle passed to its own `Set`, is modelled by `SelfCopy`.
- References returned by `Set`, `Add`, `Insert` and `operator[]` are not modelled, so aliasing through them is not modelled either. Assignments made through such a reference are left out.
- Json(Type) for Bool, Int and Float leaves the payload uninitialised. `OfType` and the `Json` constructor exclude those kinds.
- Iterator: the `counter` field, `operator size_t` and `operator*` are left out. `Key()` on an Array returns a dangling reference and is excluded by its precondition. The iterator holds an index, so the model does not capture that changing the container while iterating invalidates std iterators.
- Undefined behaviour is a modelled outcome of a parse (`Undefined`), not a precondition of `Parse`. It can arise inside a nested segment of any input text.
- Strings are sequences of characters. Key order is std::string's `<`, which compares characters as unsigned values, as `KeyLess` does on code points; multi-byte encodings are not modelled.
- JsonScanner.NextSegmentIsFirstStop: stated only for the delimiters `,` and `:`. Those are the only ones the source passes.
- JsonRoundTrip.RoundTrip: holds only for representable values. Null, Float, INT32_MIN, empty containers, and strings or keys containing `"`, `[` or `{` do not round-trip. See UnrepresentableTexts.
- JsonParser.ParseResult: uses the corrected inner-range and float-branch behaviour described under Findings. The rest of the model builds on it, including the round trip.
- JsonParser.Classify: carries the same corrected inner range and `.` test, not the code as written.
- JsonParser.ParseTrimmed: carries the same corrected inner range and `.` test, not the code as written.
- JsonParser.Parse: carries the same corrected inner range and `.` test, not the code as written.
- JsonEquality.EqualReflexive: Float payloads are compared by bit pattern. Json.cpp:364 compares floats with IEEE `==`, so there a value holding a NaN does not equal itself.
- JsonEquality.EqualIsIdentity: Float payloads are compared by bit pattern. Under the IEEE `==` of Json.cpp:364, a NaN breaks the "identical implies equal" direction, and +0 and -0 break the "equal implies identical" direction.
- JsonEquality.Equal: compares Float payloads by bit pattern rather than with the IEEE `==` of Json.cpp:364.
- JsonNode.CopyVar: the copy is identical to its source, but under the IEEE `==` of Json.cpp:364 a copy holding a NaN is not `==` to it.
- JsonNode.Json.InsertMoved: a handle moved into itself is excluded. The source's move at Json.cpp:461 would make the receiver's payload an element of its own vector and leave the receiver null, a cycle a value cannot hold.

## Findings

| source | as written | input that shows it | evidently intended | confidence | as-written member | corrected member |
|---|---|---|---|---|---|---|
| JsonObjectUpdated/Json.cpp:279 | the range `fixed.begin() + 1` to `fixed.end() - 1` is built before the first character is examined, and it is reversed for a one-character trimmed text | `7`, or each element of `[1,2]` | take the inner text only in the `{`, `[` and `"` branches, so a single digit parses to its Int | not executed | JsonParser.SingleCharacterAsWritten | JsonParser.SingleCharacterCorrected |
| JsonObjectUpdated/Json.cpp:296 | `find_first_of('.')` is compared with `UINT32_MAX`, which is npos only where `size_t` has 32 bits | `42` on a 64-bit build takes the float branch | test whether the text contains `.` | not executed | JsonParser.FloatBranchOn64Bit | JsonParser.FloatBranchCorrected |
