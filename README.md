# json_util v0.4 in Dafny

This project models the core of json_util, a small C++17 library for JSON-like
values, and proves properties of that model. The core has five parts.

- **The value model** (`JSONValue`, the `JSON` map, `JSONObject`, `JSONArray`),
  in module `Jsonable`.
  - A value is one of seven alternatives: int, double, string, bool, null,
    object and array.
  - A `JSON` map is a `std::map`. It is modelled as the sequence of its entries
    in iteration order, and its invariant is that keys are strictly increasing
    (`SortedKeys`).
  - Lookup, `emplace` (`Emplace`) and assignment through `operator[]`
    (`Assign`) are proved against that invariant.
  - A sorted map is determined by its lookups (`SortedDetermined`), so the
    order in which keys are inserted does not matter (`InsertionOrderIrrelevant`).
- **The serializer** (`JSONParser::parse`, `parseObject`, `parseArray` and the
  `JSONTextVisitor`), in module `JsonParser`.
  - The functions `ObjectText`, `ArrayText` and `ValueText` state the
    tab-indented text, including the extra run of tabs after `[`.
  - The methods `ParseObject`, `ParseArray`, `Visit` and `Parse` append to a
    `StringStream` class. They are proved to append exactly that text and to
    give the tab counter back unchanged.
- **The text parser** (`JSONTextParser::parse`, `recursiveObjectParser`,
  `getString`, `isIn`), in module `JsonTextParser`.
  - The methods run over the `StringStream` cursor with `peek`/`get`/`unget`
    and its loops.
  - Each method is proved against a function over `(text, position)`:
    `ReadString`, `ReadValue`, `Entry`, `ObjectLoop` and `ParseText`.
  - The number conversions `std::stoi`, `std::stod` and `std::to_string` are
    modelled in module `NumberText`.
- **The comparator** (`JSONCompare`), in module `JsonCompare`.
  - It is a recursive `Equals` driven by the right operand. Its properties are
    stated by the lemmas about it rather than by its own contract.
  - Doubles use the epsilon rule `abs(abs(l) - abs(r)) <= 0.000001`.
  - Equality is proved symmetric, and reflexive for the model's doubles,
    which are reals (a NaN or infinite double is not equal to itself in the
    source). It is not transitive.
  - On values without doubles, `Equals` is exactly equality after all keys are
    erased (`EqualsIsEqualityUpToKeys`).
- **The file helper** (`JSONFile`), in module `JsonFile`.
  - `checkExtension` and the `.json` suffix normalisation.
  - The word-by-word loop with which `read` assembles a file's text, given the
    file contents.
  - `write`, with the file system left out.

Module `RoundTrip` ties these together. It defines an independent compact
printer (`CompactValue`) and proves the following chain:

1. The serializer's text with its white space removed is the compact text.
2. The text parser reads the compact text of a flat map of ints and quote-free
   strings back as the same map (`SerializeThenParse`).
3. The same holds for text read back through `read`'s loop (`WriteThenRead`).

`Streams.StringStream` stands in for `std::stringstream`: a buffer and a read
position. `Wrappers` holds `Option` and `Result`.

## Model

| member | source | states |
|---|---|---|
| Jsonable.StrLessIrreflexive | include/jsonable.h:30 | the map's key order never puts a key below itself |
| Jsonable.StrLessTransitive | include/jsonable.h:30 | the key order is transitive |
| Jsonable.StrLessTotal | include/jsonable.h:30 | any two distinct keys are ordered one way or the other |
| Jsonable.SortedKeysAreDistinct | include/jsonable.h:30 | a map iterated in strictly increasing key order holds each key at most once |
| Jsonable.Lookup | include/jsonable.h:30 | finding a key gives None exactly when no entry has it, and otherwise the value of its first entry |
| Jsonable.LookupDistinct | include/jsonable.h:30 | in a map with unique keys, looking up an entry's key gives that entry's value |
| Jsonable.Emplace | src/json/json_text_parser.cpp:107 | emplace keeps the keys sorted; it leaves the map unchanged when the key is present, adds exactly one entry when it is absent, and changes no other key |
| Jsonable.Assign | include/jsonable.h:30 | assignment through operator[] keeps the keys sorted, maps the key to the new value, changes no other key, and grows the map only when the key was absent |
| Jsonable.AssignOverwrites | include/jsonable.h:30 | assigning a key twice is the same as assigning the second value once, and the second assignment does not grow the map |
| Jsonable.SortedDetermined | include/jsonable.h:30 | two sorted maps with the same lookups are the same sequence: iteration order is fixed by the keys |
| Jsonable.FromPairs | include/jsonable.h:30 | building a map by assignments from a list of pairs gives a sorted map |
| Jsonable.FromPairsLookup | include/jsonable.h:30 | the built map finds each key's value from the list of pairs |
| Jsonable.LookupOfPermutation | include/jsonable.h:30 | a present key is found with the same value in any reordering of a unique-key list |
| Jsonable.InsertionOrderIrrelevant | include/jsonable.h:30 | inserting the same pairs in any order gives the same map, and so the same iteration order |
| NumberText.NatText | include/json_parser.h:213 | a natural number's decimal text is a non-empty run of digits |
| NumberText.DigitsValueOfNatText | include/json_parser.h:213 | the decimal text of n has value n |
| NumberText.IntText | include/json_parser.h:213 | to_string of an int is non-empty, starts with '-' exactly when the int is negative, and is otherwise digits |
| NumberText.ParseInt | src/json/json_text_parser.cpp:102 | stoi yields only values in the 32-bit int range |
| NumberText.IntTextRoundTrip | src/json/json_text_parser.cpp:102 | stoi reads back every 32-bit int from its to_string text |
| NumberText.ParseIntRejectsNonNumber | src/json/json_text_parser.cpp:102 | stoi fails on a token that opens with neither white space, a sign nor a digit |
| NumberText.IntTextOutOfRange | src/json/json_text_parser.cpp:102 | stoi fails (out_of_range) on the text of an int outside the 32-bit range |
| NumberText.ParseDoubleRejectsNonNumber | src/json/json_text_parser.cpp:98 | stod, in the decimal notation modelled, fails on a token that opens with neither white space, a sign, a digit nor '.' |
| NumberText.DoubleText | include/json_parser.h:213 | to_string of a double always holds a '.' and only '-', '.' and digits, so the parser would route it to stod |
| NumberText.ZeroPadKeepsDigits | include/json_parser.h:213 | left-padding with zeros keeps a digit string all digits |
| JsonCompare.Abs | src/json/json_compare.cpp:32 | std::abs gives a non-negative value equal to x or to -x |
| JsonCompare.MembersEqual | src/json/json_compare.cpp:54-62 | the object walk succeeds iff every pair of values from i on is Equals |
| JsonCompare.ItemsEqual | src/json/json_compare.cpp:83-91 | the array walk succeeds iff every pair of elements from i on is Equals |
| JsonCompare.EqualsReflexive | src/json/json_compare.cpp:21-120 | every value tree equals itself |
| JsonCompare.EqualsSymmetric | src/json/json_compare.cpp:21-120 | the comparison gives the same answer with the operands swapped |
| JsonCompare.IntNeverEqualsDouble | src/json/json_compare.cpp:24-29 | an int never equals a double, whichever side it is on |
| JsonCompare.DoubleEqualsItsNegation | src/json/json_compare.cpp:32 | Double(x) equals Double(-x) for every x |
| JsonCompare.KeysIgnored | src/json/json_compare.cpp:54-59 | {"a":1} equals {"b":1}: keys are never compared |
| JsonCompare.NullEqualsOnlyNull | src/json/json_compare.cpp:97-102 | null equals only null, on either side |
| JsonCompare.NotTransitive | src/json/json_compare.cpp:32 | the epsilon rule is not transitive: 0 ~ 6e-7 and 6e-7 ~ 1.2e-6, but 0 is not equal to 1.2e-6 |
| JsonCompare.EqualsIsEqualityUpToKeys | src/json/json_compare.cpp:38-92 | on values without doubles, Equals holds iff the two values are identical once every key is erased |
| JsonFile.RFindBelow | src/json_file.cpp:102 | the last occurrence below n, or none when there is no occurrence below n |
| JsonFile.RFind | src/json_file.cpp:102 | rfind gives the last occurrence of the pattern, or npos when it does not occur |
| JsonFile.CheckExtension | src/json_file.cpp:99-109 | checkExtension is true iff the filename ends with ".json" |
| JsonFile.ExtensionNotAtEnd | src/json_file.cpp:102-108 | "a.json.bak" is rejected: only the last occurrence counts, and it must sit at the end |
| JsonFile.ShortNameRejected | src/json_file.cpp:102-104 | a name shorter than the extension is rejected |
| JsonFile.NormalizeFilename | src/json_file.cpp:39-40 | the normalised name ends in ".json"; it is the name itself when the check passes, and the name plus ".json" otherwise |
| JsonFile.NormalizeIdempotent | src/json_file.cpp:77-78 | normalising twice is the same as normalising once |
| JsonFile.Write | src/json_file.cpp:75-94 | write targets the normalised name, writes the data unchanged, and reports true |
| JsonFile.StripWhitespaceMeaning | src/json_file.cpp:53-56 | the stripped text holds no white space, is empty iff the text is all white space, and keeps every other character |
| JsonFile.StripAppend | src/json_file.cpp:53-56 | removing white space distributes over concatenation |
| JsonFile.StripNoSpace | src/json_file.cpp:53-56 | text without white space is left unchanged |
| JsonFile.ReadWords | src/json_file.cpp:53-56 | the read loop as written returns the words run together, plus the last word once more when the file ends in white space |
| JsonFile.TrailingNewlineRepeatsLastWord | src/json_file.cpp:53-56 | a file holding "{}\n" is read as "{}{}" |
| JsonFile.ReadWordsCorrected | src/json_file.cpp:53-56 | the loop that stops when >> fails returns the contents with all white space removed |
| JsonFile.ReadResultWithoutTrailingSpace | src/json_file.cpp:53-56 | for a file that does not end in white space, the loop as written returns the contents with white space removed |
| JsonParser.Tabs | src/json/json_parser.cpp:66-67 | the indent is exactly n tab characters |
| JsonParser.EmptyMapText | src/json/json_parser.cpp:54-87 | an empty map at indent 0 is written as "{\n}" |
| JsonParser.NonEmptyArrayDoubleIndent | src/json/json_parser.cpp:100-111 | a non-empty array's first element follows "[\n" and two runs of its indent |
| JsonParser.EmptyArrayText | src/json/json_parser.cpp:92-127 | an empty array at indent n is "[\n", then n+1 tabs, n tabs and "]" |
| JsonParser.EntryWritten | src/json/json_parser.cpp:66-79 | one entry is written as indent, quoted key, " : ", the value, then ",\n" or, after the last, "\n" |
| JsonParser.EntriesStep | src/json/json_parser.cpp:64-80 | entries are written one after another in map iteration order, the last with its own separator |
| JsonParser.ObjectWritten | src/json/json_parser.cpp:56-86 | an object is "{\n", its entries one tab deeper, and "}" at the caller's indent |
| JsonParser.ItemWritten | src/json/json_parser.cpp:110-118 | one element is written as indent, the value, then ",\n" or, after the last, "\n" |
| JsonParser.ItemsStep | src/json/json_parser.cpp:108-119 | elements are written in index order, the last with its own separator |
| JsonParser.ArrayWritten | src/json/json_parser.cpp:95-125 | an array is "[\n", an extra indent, its elements one tab deeper, and "]" at the caller's indent |
| JsonParser.WriteTabs | src/json/json_parser.cpp:84-85 | the tab loop appends exactly n tabs and changes nothing else |
| JsonParser.PutChars | include/json_parser.h:217-218 | putting a string character by character appends exactly that string |
| JsonParser.Visit | include/json_parser.h:144-219 | the visitor appends exactly the value's text for every one of the seven alternatives |
| JsonParser.ParseObject | src/json/json_parser.cpp:54-87 | parseObject appends exactly the object's text and gives the tab counter back as it found it |
| JsonParser.ParseArray | src/json/json_parser.cpp:92-127 | parseArray appends exactly the array's text and gives the tab counter back as it found it |
| JsonParser.Parse | src/json/json_parser.cpp:38-49 | parse returns the root map's text as an object at indent 0 |
| JsonTextParser.Count | src/json/json_text_parser.cpp:151-155 | the count is positive exactly when the value occurs, so isIn is membership |
| JsonTextParser.FindFirst | src/json/json_text_parser.cpp:137-139 | the first position at or after from holding one of the characters, or none when there is no such position |
| JsonTextParser.ReadString | src/json/json_text_parser.cpp:122-145 | getString's result never ends before its start or past the text |
| JsonTextParser.QuotedAt | src/json/json_text_parser.cpp:127-133 | a quoted string consumes at least its two quotes |
| JsonTextParser.TokenAt | src/json/json_text_parser.cpp:134-141 | a token ends at the first ',' or '}' at or after its start, which is left in the text; no terminator comes before it |
| JsonTextParser.ReadStringMeaning | src/json/json_text_parser.cpp:122-145 | a quoted read returns the text up to the same quote, both quotes consumed, and fails when the quote never recurs; an unquoted read returns the text up to the first ',' or '}', which is left unread, and fails when there is none |
| JsonTextParser.ConvertToken | src/json/json_text_parser.cpp:97-103 | a token with '.' becomes a double and any other an int in range; a failed conversion is an InvalidNumber error |
| JsonTextParser.ConvertTokenRejectsNonNumber | src/json/json_text_parser.cpp:97-103 | a token that opens with neither white space, a sign, a digit nor '.' (and, with a '.', not with n or i) is an InvalidNumber error: true, null, {...} and [...] values fail |
| JsonTextParser.ConvertTokenOutOfRange | src/json/json_text_parser.cpp:102 | an int token outside the 32-bit range is an InvalidNumber error |
| JsonTextParser.ConvertTokenNumeric | src/json/json_text_parser.cpp:97-103 | stoi/stod conversion never produces a string, a nested value or a not-an-object error |
| JsonTextParser.ReadValue | src/json/json_text_parser.cpp:85-104 | a value is a string exactly when it starts with a quote, and is otherwise a number; only strings, doubles and in-range ints come out |
| JsonTextParser.Entry | src/json/json_text_parser.cpp:76-111 | one entry always moves forward and yields a flat value |
| JsonTextParser.EmplaceFlat | src/json/json_text_parser.cpp:107 | emplacing a flat value into a flat map keeps it flat |
| JsonTextParser.ObjectLoop | src/json/json_text_parser.cpp:75-115 | the entry loop yields a sorted map and stops only on a '}', just after it |
| JsonTextParser.ObjectLoopFlat | src/json/json_text_parser.cpp:75-112 | the entry loop produces only strings, doubles and in-range ints |
| JsonTextParser.ObjectLoopKeepsFirst | src/json/json_text_parser.cpp:107 | a key already in the map keeps its first value to the end of the loop |
| JsonTextParser.ObjectLoopStepFails | src/json/json_text_parser.cpp:93-103 | a value that fails to convert fails the whole parse with that error |
| JsonTextParser.ObjectLoopStep | src/json/json_text_parser.cpp:75-112 | one iteration reads the key, skips one character, reads the value, emplaces it and consumes a following ',' |
| JsonTextParser.EntryRead | src/json/json_text_parser.cpp:76-111 | an entry is a key, one skipped character, and a value followed by an optional ',' |
| JsonTextParser.ObjectLoopEntry | src/json/json_text_parser.cpp:75-112 | the loop continues after an entry with that entry emplaced |
| JsonTextParser.ParseText | src/json/json_text_parser.cpp:67-72 | parsing fails with NotAnObject exactly when the text does not start with '{', and otherwise yields a sorted map |
| JsonTextParser.ParseTextFlat | src/json/json_text_parser.cpp:63-117 | a parsed map holds no nested object or array, no bool and no null |
| JsonTextParser.ParseTextWellFormed | src/json/json_text_parser.cpp:63-117 | a parsed map, as an object value, is well formed: sorted keys and in-range ints |
| JsonTextParser.TrailingTextIgnored | src/json/json_text_parser.cpp:114-116 | text after the closing '}' of a successful parse is ignored |
| JsonTextParser.GetString | src/json/json_text_parser.cpp:122-145 | getString on the stream returns what ReadString says and leaves the cursor where ReadString ends |
| JsonTextParser.GetQuoted | src/json/json_text_parser.cpp:127-133 | the quoted-string loop returns what QuotedAt says and leaves the cursor after the closing quote |
| JsonTextParser.GetToken | src/json/json_text_parser.cpp:134-141 | the token loop returns what TokenAt says and ungets the terminator |
| JsonTextParser.GetValue | src/json/json_text_parser.cpp:85-104 | reading a value from the stream matches ReadValue, in result and cursor |
| JsonTextParser.RecursiveObjectParser | src/json/json_text_parser.cpp:63-117 | the stream parser returns the map ParseObjectAt describes and leaves the cursor after the closing '}' |
| JsonTextParser.Parse | src/json/json_text_parser.cpp:52-59 | parse returns ParseText of the whole text |
| RoundTrip.StripValueText | include/json_parser.h:144-219 | a value's pretty text without white space is its compact text |
| RoundTrip.StripObjectText | src/json/json_parser.cpp:54-87 | an object's pretty text without white space is its entries' compact text in braces |
| RoundTrip.StripArrayText | src/json/json_parser.cpp:92-127 | an array's pretty text without white space is its elements' compact text in brackets |
| RoundTrip.StripEntries | src/json/json_parser.cpp:64-80 | the first i entry lines without white space, followed by the compact entries from i on, give the whole compact entry list |
| RoundTrip.StripEntryText | src/json/json_parser.cpp:66-79 | an entry line without white space is "key":value plus its comma, if any |
| RoundTrip.StripItems | src/json/json_parser.cpp:108-119 | the first i element lines without white space, followed by the compact elements from i on, give the whole compact element list |
| RoundTrip.StripItemText | src/json/json_parser.cpp:110-118 | an element line without white space is its compact value plus its comma, if any |
| RoundTrip.JsonTextEndsInBrace | src/json/json_parser.cpp:86 | the serializer's text never ends in white space |
| RoundTrip.ReadQuoted | src/json/json_text_parser.cpp:127-133 | a double-quoted string without '"' is read back unchanged, both quotes consumed |
| RoundTrip.ConvertTokenReadsIntTexts | src/json/json_text_parser.cpp:102 | the token conversion reads every 32-bit int's to_string text back as that int |
| RoundTrip.ReadIntText | src/json/json_text_parser.cpp:93-103 | an int's text followed by ',' or '}' is read back as that int, the terminator left unread |
| RoundTrip.ReadPortableValue | src/json/json_text_parser.cpp:85-104 | a portable value's compact text is read back as that value |
| RoundTrip.ReadEntry | src/json/json_text_parser.cpp:76-104 | an entry's compact text gives back its key, then its value after the ':' |
| RoundTrip.EntryOfCompact | src/json/json_text_parser.cpp:76-111 | the parser's entry step reads a compact entry back as its key and value and consumes a following ',' |
| RoundTrip.EmplaceAbove | src/json/json_text_parser.cpp:107 | emplacing entries in ascending key order builds the map entry by entry |
| RoundTrip.ReadEntries | src/json/json_text_parser.cpp:75-112 | the entry loop over compact entries from i on completes the map and stops after the closing '}' |
| RoundTrip.ParseCompact | src/json/json_text_parser.cpp:63-117 | the compact text of a portable map parses back to that map |
| RoundTrip.SerializeThenParse | src/json/json_text_parser.cpp:52-59 | serializing a portable map, removing white space and parsing gives back the same map |
| RoundTrip.WriteThenRead | src/json_file.cpp:53-56 | serializing a portable map, reading the text back through read's loop and parsing gives back the same map |

## Left out

- File I/O. The streams of `read` and `write` (src/json_file.cpp:41-66, 80-90)
  are not modelled: `JsonFile.Write` returns the path and the contents instead
  of writing, and `JsonFile.ReadWords` takes the file contents as a parameter.
  `readJSON`/`writeJSON` are not part of this model. Their bodies are not
  available.
- Exceptions. `JSONException` becomes a `Failure` carrying a `ParseError`:
  - `NotAnObject` for a text that does not open with `{`;
  - `Truncated` for a text that ends too early;
  - `InvalidNumber` for a token that `stoi` rejects, including an int outside
    the 32-bit range, and for a token that is not decimal notation for `stod`.
- Non-termination. On text that ends inside a quoted string, a token or
  before the closing `}`, the source's loops compare EOF against a quote or a
  terminator and never stop (src/json/json_text_parser.cpp:75, 130, 137). The
  model stops with `Failure(Truncated)` instead.
- Floating point. Double payloads are `real`s.
  - The comparator's epsilon rule is stated on reals and ignores rounding in
    the subtraction.
  - `NumberText.DoubleText` models `to_string(double)` as "%f" with
    round-half-even on the exact value.
  - `NumberText.ParseDouble` reads only decimal text with an optional
    exponent, with no hexadecimal floats, infinities or NaN.
- NumberText.ParseDouble / JsonTextParser.ConvertToken: `stod`'s range
  errors are not modelled. A token such as `1.0e400` or `1.0e-400`, which
  `stod` rejects with `out_of_range`, converts to a real here. `stod`'s
  `nan`/`inf` spellings (a token such as `nan.`) are rejected here but
  accepted by the source; `ConvertTokenRejectsNonNumber` claims nothing
  about those tokens.
- JsonCompare.EqualsReflexive: holds for the model's doubles, which are
  finite reals. In the source a NaN or infinite double (reachable through a
  token such as `nan.` or `inf.`) is not equal to itself, because
  `abs(abs(l) - abs(r))` is NaN. DoubleEqualsItsNegation likewise holds for
  finite doubles only.
  - No property of double text is claimed beyond its shape.
- The number conversion as a parameter. The entry loop (`ObjectLoop`,
  `ReadValue`, `Entry`) takes the token conversion as a function parameter.
  `ParseObjectAt` instantiates it with `ConvertToken`, and the lemmas state
  what they need of it (`Numeric`, `ReadsIntTexts`).
- The self-recursive `operator==` of `JSONObject` and `JSONArray`
  (include/jsonable.h:119-126, 149-156). It calls itself and never returns, so
  it is not modelled; equality goes through `JsonCompare.Equals`.
- The monostate `operator==`/`operator!=` (include/jsonable.h:163-172)
  return constants, and `Null` has a single value in the model. The
  comparator's null rule is `JsonCompare.NullEqualsOnlyNull`.
- The `JSONObject`/`JSONArray` wrapping constructors (include/jsonable.h:111-116,
  140-146) copy their contents unchanged. In the model they are the
  constructors `Obj` and `Arr` themselves, so there is nothing to prove about
  them.
- `BOOLEAN_STRINGS` is declared (`JsonTextParser.BooleanStrings`) but never
  consulted, as in the source. A value such as `true`, `null`, `{...}` or
  `[...]` is read as a token and fails numeric conversion
  (`JsonTextParser.ConvertTokenRejectsNonNumber`).
- Where a description of the library and the code disagree, the model follows
  the code:
  - the code skips no white space;
  - it has no `true`/`false`/`null` literals on input;
  - it does not recurse into `{` or `[` when parsing;
  - so a text such as `{"a" : 1, "d" : true}` does not parse as a five-kind
    object.
- RoundTrip.SerializeThenParse: stated only for flat maps of 32-bit ints and
  strings whose keys and strings hold no white space and no `"`. Other values
  do not survive the parser:
  - doubles lose digits in `to_string`;
  - bools, null and nested values are not read back;
  - white space inside strings is removed by `read`.
- Test and demo clients (random object generation, the `Car` example, `main`),
  the abstract factories, and the superseded v0.1-v0.3 headers and sources
  are not part of this model.

## Findings

| source | as written | input that shows it | evidently intended | confidence | as-written member | corrected member |
|---|---|---|---|---|---|---|
| src/json_file.cpp:53-56 | the loop tests for end of file before each read, so when only white space is left the last read fails, leaves the previous word in place, and that word is appended a second time | a file holding `{}\n` is read as `{}{}` | read every word once: the contents with white space removed | not executed | JsonFile.ReadWords (with JsonFile.TrailingNewlineRepeatsLastWord) | JsonFile.ReadWordsCorrected |
