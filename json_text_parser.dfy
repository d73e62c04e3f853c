/**
 * The text parser (JSONTextParser): reads text of the form {key:value,...}
 * from a stringstream into a flat JSON map.
 *
 * It never skips white space and never descends into nested objects or
 * arrays: after the key exactly one character is dropped as the ':'
 * separator; a value opening with a quote is read as a string, anything else
 * is read up to the next ',' or '}' and converted with stod (when it holds a
 * '.') or stoi. Entries go in with emplace, so a repeated key keeps its first
 * value, and everything after the '}' closing the object is ignored.
 *
 * Where the source reads on past the end of the text (its loops compare EOF
 * against a quote or a terminator and never stop), the model stops with
 * Failure(Truncated) instead.
 */
module JsonTextParser {
  import opened Wrappers
  import opened Jsonable
  import opened NumberText
  import opened Streams

  /** Characters that open and close a quoted string. */
  const StringMarkers: seq<char> := ['\'', '"']

  /** Characters that end an unquoted token (and are left unread). */
  const StringTerminaters: seq<char> := [',', '}']

  /** The boolean spellings; declared by the source, never consulted by the parser. */
  const BooleanStrings: seq<string> := ["false", "true", "False", "True"]

  /** Characters that dispatch a value to a reader of its own: both quotes, both read by getString. */
  const RecursiveCharacters: set<char> := {'\'', '"'}

  datatype ParseError =
    | NotAnObject                  // JSONException "Error parsing object in json text"
    | Truncated                    // the text ends where the source would go on reading forever
    | InvalidNumber(token: string) // std::stoi / std::stod rejected the token

  /** std::count: how often value occurs in container. */
  function Count(value: char, container: seq<char>): (r: nat)
    ensures r > 0 <==> value in container
  {
    if |container| == 0 then 0
    else (if container[0] == value then 1 else 0) + Count(value, container[1..])
  }

  /** isIn: the value occurs in the container. */
  function IsIn(value: char, container: seq<char>): bool {
    Count(value, container) > 0
  }

  /** The first index at or after from whose character is one of cs. */
  function FindFirst(text: string, from: nat, cs: seq<char>): (r: Option<nat>)
    requires from <= |text|
    ensures r.Some? ==> from <= r.value < |text| && text[r.value] in cs
                        && forall k :: from <= k < r.value ==> text[k] !in cs
    ensures r.None? ==> forall k :: from <= k < |text| ==> text[k] !in cs
    decreases |text| - from
  {
    if from == |text| then None
    else if text[from] in cs then Some(from)
    else FindFirst(text, from + 1, cs)
  }

  lemma FindFirstAt(text: string, from: nat, cs: seq<char>, q: nat)
    requires from <= q < |text| && text[q] in cs
    requires forall k :: from <= k < q ==> text[k] !in cs
    ensures FindFirst(text, from, cs) == Some(q)
  {
    var r := FindFirst(text, from, cs);
    assert r.Some?;
    assert !(r.value < q) && !(q < r.value);
  }

  /**
   * getString at pos: when text[pos] is a string marker, the characters up to
   * the next occurrence of that same marker, both quotes consumed; otherwise
   * the characters up to the first ',' or '}', which is left unconsumed.
   * None where the closing character never comes.
   */
  function ReadString(text: string, pos: nat): (r: Option<(string, nat)>)
    requires pos <= |text|
    ensures r.Some? ==> pos <= r.value.1 <= |text|
  {
    if pos < |text| && IsIn(text[pos], StringMarkers) then QuotedAt(text, pos) else TokenAt(text, pos)
  }

  /** The quoted branch of getString: up to the next copy of the opening quote, consumed. */
  function QuotedAt(text: string, pos: nat): (r: Option<(string, nat)>)
    requires pos < |text|
    ensures r.Some? ==> pos + 2 <= r.value.1 <= |text|
  {
    match FindFirst(text, pos + 1, [text[pos]])
    case None => None
    case Some(q) => Some((text[pos + 1..q], q + 1))
  }

  /** The token branch of getString: up to the first ',' or '}', left unread. */
  function TokenAt(text: string, pos: nat): (r: Option<(string, nat)>)
    requires pos <= |text|
    ensures r.Some? ==> pos <= r.value.1 < |text| && text[r.value.1] in StringTerminaters
    ensures r.Some? ==> forall k :: pos <= k < r.value.1 ==> text[k] !in StringTerminaters
  {
    match FindFirst(text, pos, StringTerminaters)
    case None => None
    case Some(q) => Some((text[pos..q], q))
  }

  /**
   * What getString reads: a quoted string is everything up to the next
   * occurrence of the opening quote, which must come; a token is everything
   * up to the first ',' or '}', which must come and is left unread.
   */
  lemma ReadStringMeaning(text: string, pos: nat)
    requires pos <= |text|
    ensures pos < |text| && text[pos] in StringMarkers ==>
      match ReadString(text, pos)
      case None => forall k :: pos < k < |text| ==> text[k] != text[pos]
      case Some((str, p)) =>
        pos + 2 <= p && text[p - 1] == text[pos] && str == text[pos + 1..p - 1] && text[pos] !in str
    ensures !(pos < |text| && text[pos] in StringMarkers) ==>
      match ReadString(text, pos)
      case None => forall k :: pos <= k < |text| ==> text[k] !in StringTerminaters
      case Some((str, p)) =>
        p < |text| && text[p] in StringTerminaters && str == text[pos..p]
        && ',' !in str && '}' !in str
  {
  }

  /** The values the text parser can produce: a string, a double or an in-range int. */
  predicate FlatValue(v: Value) {
    v.Str? || v.Dbl? || (v.Int? && IsInt32(v.i))
  }

  predicate FlatMembers(ms: seq<Member>) {
    forall k :: 0 <= k < |ms| ==> FlatValue(ms[k].value)
  }

  /** Lines 97-103: a token holding a '.' is read by stod, any other by stoi. */
  function ConvertToken(token: string): (r: Result<Value, ParseError>)
    ensures r.Success? ==> FlatValue(r.value) && !r.value.Str? && (r.value.Dbl? <==> '.' in token)
    ensures r.Failure? ==> r.error == InvalidNumber(token)
  {
    if '.' in token then
      match ParseDouble(token)
      case Some(d) => Success(Dbl(d))
      case None => Failure(InvalidNumber(token))
    else
      match ParseInt(token)
      case Some(i) => Success(Int(i))
      case None => Failure(InvalidNumber(token))
  }

  /**
   * A conversion for unquoted tokens that behaves like ConvertToken where
   * the entry loop relies on it: it yields a double or an in-range int, and
   * its errors are number errors. The loop below takes the conversion as a
   * parameter so that its structure is reasoned about apart from stoi and
   * stod; ParseObjectAt instantiates it with ConvertToken.
   */
  ghost predicate Numeric(convert: string -> Result<Value, ParseError>) {
    forall token :: (convert(token).Success? ==> FlatValue(convert(token).value) && !convert(token).value.Str?)
                    && (convert(token).Failure? ==> convert(token).error != NotAnObject)
  }

  lemma ConvertTokenNumeric()
    ensures Numeric(ConvertToken)
  {
  }

  /**
   * A token that cannot open a number is an error: values such as true,
   * null, {...} or [...] are read as tokens and rejected here. (A token with
   * a '.' that opens with n or i could be stod's "nan" or "inf", so those
   * are not claimed.)
   */
  lemma ConvertTokenRejectsNonNumber(token: string)
    requires |token| == 0 || (!IsSpace(token[0]) && token[0] != '-' && token[0] != '+' && !IsDigit(token[0]) && token[0] != '.')
    requires '.' in token ==> token[0] !in "nNiI"
    ensures ConvertToken(token) == Failure(InvalidNumber(token))
  {
    ParseIntRejectsNonNumber(token);
    ParseDoubleRejectsNonNumber(token);
  }

  /** An int token outside the 32-bit range is an error, as stoi's out_of_range. */
  lemma ConvertTokenOutOfRange(i: int)
    requires !IsInt32(i)
    ensures ConvertToken(IntText(i)) == Failure(InvalidNumber(IntText(i)))
  {
    IntTextOutOfRange(i);
  }

  /**
   * The value at pos: a quoted string when text[pos] is a quote, otherwise a
   * token converted to a number.
   */
  function ReadValue(text: string, pos: nat, convert: string -> Result<Value, ParseError>): (r: Result<(Value, nat), ParseError>)
    requires pos <= |text| && Numeric(convert)
    ensures r.Success? ==> pos <= r.value.1 <= |text| && FlatValue(r.value.0)
    ensures r.Success? ==> (r.value.0.Str? <==> pos < |text| && text[pos] in RecursiveCharacters)
    ensures r.Failure? ==> r.error != NotAnObject
  {
    if pos < |text| && text[pos] in RecursiveCharacters then
      match ReadString(text, pos)
      case None => Failure(Truncated)
      case Some((str, p)) => Success((Str(str), p))
    else
      match ReadString(text, pos)
      case None => Failure(Truncated)
      case Some((token, p)) =>
        match convert(token)
        case Failure(e) => Failure(e)
        case Success(v) => Success((v, p))
  }

  /**
   * One iteration of the entry loop at pos: the key, one character skipped
   * as the separator, the value, and a ',' when one follows.
   */
  function Entry(text: string, pos: nat, convert: string -> Result<Value, ParseError>): (r: Result<(string, Value, nat), ParseError>)
    requires pos < |text| && Numeric(convert)
    ensures r.Success? ==> pos < r.value.2 <= |text| && FlatValue(r.value.1)
    ensures r.Failure? ==> r.error != NotAnObject
  {
    var key := ReadString(text, pos);
    if key.None? then Failure(Truncated)
    else
      var p1 := key.value.1;
      var p2 := if p1 < |text| then p1 + 1 else p1;
      var value := ReadValue(text, p2, convert);
      if value.Failure? then Failure(value.error)
      else
        var p3 := value.value.1;
        var p4 := if p3 < |text| && text[p3] == ',' then p3 + 1 else p3;
        Success((key.value.0, value.value.0, p4))
  }

  /** Emplacing a flat value into a map of flat values gives a map of flat values. */
  lemma EmplaceFlat(acc: Json, key: string, v: Value)
    requires SortedKeys(acc)
    ensures FlatMembers(acc) && FlatValue(v) ==> FlatMembers(Emplace(acc, key, v))
  {
    if !(FlatMembers(acc) && FlatValue(v)) {
      return;
    }
    var acc' := Emplace(acc, key, v);
    SortedKeysAreDistinct(acc');
    forall k | 0 <= k < |acc'| ensures FlatValue(acc'[k].value) {
      var kk := acc'[k].key;
      LookupDistinct(acc', k);
      if kk != key || Lookup(acc, key).Some? {
        var l := Lookup(acc, kk);
        var i :| 0 <= i < |acc| && acc[i] == Member(kk, l.value);
      }
    }
  }

  /**
   * The entry loop of recursiveObjectParser from pos, with the entries read so
   * far in acc: one step per iteration of the source's while loop.
   */
  function ObjectLoop(text: string, pos: nat, acc: Json, convert: string -> Result<Value, ParseError>): (r: Result<(Json, nat), ParseError>)
    requires pos <= |text| && SortedKeys(acc) && Numeric(convert)
    ensures r.Success? ==> SortedKeys(r.value.0) && pos < r.value.1 <= |text|
    ensures r.Success? ==> AfterBrace(text, r.value.1)
    ensures r.Failure? ==> r.error != NotAnObject
    decreases |text| - pos
  {
    if pos == |text| then Failure(Truncated)
    else if text[pos] == '}' then Success((acc, pos + 1))
    else
      match Entry(text, pos, convert)
      case Failure(e) => Failure(e)
      case Success((key, v, p)) => ObjectLoop(text, p, Emplace(acc, key, v), convert)
  }

  /** Position q is just after a '}'. */
  predicate AfterBrace(text: string, q: nat) {
    0 < q <= |text| && text[q - 1] == '}'
  }

  /** Every value the entry loop adds is a string, a double or an in-range int. */
  lemma {:induction false} ObjectLoopFlat(text: string, pos: nat, acc: Json, convert: string -> Result<Value, ParseError>)
    requires pos <= |text| && SortedKeys(acc) && FlatMembers(acc) && Numeric(convert)
    ensures var r := ObjectLoop(text, pos, acc, convert); r.Success? ==> FlatMembers(r.value.0)
    decreases |text| - pos
  {
    if pos < |text| && text[pos] != '}' {
      match Entry(text, pos, convert)
      case Failure(_) =>
      case Success((key, v, p)) =>
        EmplaceFlat(acc, key, v);
        ObjectLoopFlat(text, p, Emplace(acc, key, v), convert);
    }
  }

  /**
   * A key already in the map keeps its value through the rest of the loop:
   * entries go in with emplace, so the first occurrence of a key wins.
   */
  lemma {:induction false} ObjectLoopKeepsFirst(text: string, pos: nat, acc: Json, convert: string -> Result<Value, ParseError>, k: string)
    requires pos <= |text| && SortedKeys(acc) && Numeric(convert) && Lookup(acc, k).Some?
    ensures var r := ObjectLoop(text, pos, acc, convert); r.Success? ==> Lookup(r.value.0, k) == Lookup(acc, k)
    decreases |text| - pos
  {
    if pos < |text| && text[pos] != '}' {
      match Entry(text, pos, convert)
      case Failure(_) =>
      case Success((key, v, p)) =>
        ObjectLoopKeepsFirst(text, p, Emplace(acc, key, v), convert, k);
    }
  }

  /** An iteration of the entry loop whose value cannot be read ends the loop with that error. */
  lemma ObjectLoopStepFails(text: string, pos: nat, acc: Json, convert: string -> Result<Value, ParseError>,
                            key: string, p1: nat, p2: nat)
    requires pos < |text| && text[pos] != '}' && SortedKeys(acc) && Numeric(convert)
    requires ReadString(text, pos) == Some((key, p1))
    requires p2 == if p1 < |text| then p1 + 1 else p1
    requires ReadValue(text, p2, convert).Failure?
    ensures ObjectLoop(text, pos, acc, convert) == Failure(ReadValue(text, p2, convert).error)
  {
    assert Entry(text, pos, convert) == Failure(ReadValue(text, p2, convert).error);
  }

  /**
   * An iteration of the entry loop that reads the key at pos up to p1, skips
   * one character, reads the value v from p2 up to p3 and an optional ','
   * continues at p4 with the entry emplaced.
   */
  lemma ObjectLoopStep(text: string, pos: nat, acc: Json, convert: string -> Result<Value, ParseError>,
                       key: string, p1: nat, p2: nat, v: Value, p3: nat, p4: nat)
    requires pos < |text| && text[pos] != '}' && SortedKeys(acc) && Numeric(convert)
    requires ReadString(text, pos) == Some((key, p1))
    requires p2 == if p1 < |text| then p1 + 1 else p1
    requires ReadValue(text, p2, convert) == Success((v, p3))
    requires p4 == if p3 < |text| && text[p3] == ',' then p3 + 1 else p3
    ensures pos < p4 <= |text|
    ensures ObjectLoop(text, pos, acc, convert) == ObjectLoop(text, p4, Emplace(acc, key, v), convert)
  {
    assert Entry(text, pos, convert) == Success((key, v, p4));
  }

  /** The entry at pos when its key ends at p1 and its value, one character later, ends at p3. */
  lemma EntryRead(text: string, pos: nat, convert: string -> Result<Value, ParseError>,
                  key: string, p1: nat, v: Value, p3: nat, p4: nat)
    requires pos < |text| && Numeric(convert)
    requires ReadString(text, pos) == Some((key, p1)) && p1 < |text|
    requires ReadValue(text, p1 + 1, convert) == Success((v, p3))
    requires p4 == if p3 < |text| && text[p3] == ',' then p3 + 1 else p3
    ensures Entry(text, pos, convert) == Success((key, v, p4))
  {
  }

  /** An iteration of the entry loop whose entry is known: it continues after that entry with the entry emplaced. */
  lemma ObjectLoopEntry(text: string, pos: nat, acc: Json, convert: string -> Result<Value, ParseError>,
                        key: string, v: Value, p4: nat)
    requires pos < |text| && text[pos] != '}' && SortedKeys(acc) && Numeric(convert)
    requires Entry(text, pos, convert) == Success((key, v, p4))
    ensures pos < p4 <= |text|
    ensures ObjectLoop(text, pos, acc, convert) == ObjectLoop(text, p4, Emplace(acc, key, v), convert)
  {
  }

  /** recursiveObjectParser at pos: a '{' and then the entry loop. */
  function ParseObjectAt(text: string, pos: nat): (r: Result<(Json, nat), ParseError>)
    requires pos <= |text|
  {
    if pos < |text| && text[pos] == '{' then
      ConvertTokenNumeric();
      ObjectLoop(text, pos + 1, [], ConvertToken)
    else Failure(NotAnObject)
  }

  /**
   * parse: the JSON map the text describes. The text must open with '{';
   * the result is a sorted map of strings, doubles and ints.
   */
  function ParseText(jsonText: string): (r: Result<Json, ParseError>)
    ensures r == Failure(NotAnObject) <==> |jsonText| == 0 || jsonText[0] != '{'
    ensures r.Success? ==> SortedKeys(r.value)
  {
    match ParseObjectAt(jsonText, 0)
    case Success((j, _)) => Success(j)
    case Failure(e) => Failure(e)
  }

  /** The parsed map holds only strings, doubles and in-range ints: nothing nested, no bool, no null. */
  lemma ParseTextFlat(jsonText: string)
    requires ParseText(jsonText).Success?
    ensures FlatMembers(ParseText(jsonText).value)
  {
    ConvertTokenNumeric();
    ObjectLoopFlat(jsonText, 1, [], ConvertToken);
  }

  /** A parsed map, taken as an object value, is well formed: sorted keys, in-range ints. */
  lemma ParseTextWellFormed(jsonText: string)
    requires ParseText(jsonText).Success?
    ensures WellFormed(Obj(ParseText(jsonText).value))
  {
    ParseTextFlat(jsonText);
    var ms := ParseText(jsonText).value;
    forall k | 0 <= k < |ms| ensures WellFormed(ms[k].value) {
      assert FlatValue(ms[k].value);
    }
  }

  // ----- Text after the object -----

  lemma FindFirstPrefix(text: string, rest: string, from: nat, cs: seq<char>)
    requires from <= |text| && FindFirst(text, from, cs).Some?
    ensures FindFirst(text + rest, from, cs) == FindFirst(text, from, cs)
  {
    var q := FindFirst(text, from, cs).value;
    FindFirstAt(text + rest, from, cs, q);
  }

  lemma ReadStringPrefix(text: string, rest: string, pos: nat)
    requires pos <= |text| && ReadString(text, pos).Some?
    ensures pos < |text| && ReadString(text + rest, pos) == ReadString(text, pos)
  {
    if pos < |text| && IsIn(text[pos], StringMarkers) {
      FindFirstPrefix(text, rest, pos + 1, [text[pos]]);
      var q := FindFirst(text, pos + 1, [text[pos]]).value;
      assert (text + rest)[pos + 1..q] == text[pos + 1..q];
    } else if pos < |text| {
      FindFirstPrefix(text, rest, pos, StringTerminaters);
      var q := FindFirst(text, pos, StringTerminaters).value;
      assert (text + rest)[pos..q] == text[pos..q];
    }
  }

  lemma ReadValuePrefix(text: string, rest: string, pos: nat, convert: string -> Result<Value, ParseError>)
    requires pos <= |text| && Numeric(convert) && ReadValue(text, pos, convert).Success?
    ensures ReadValue(text + rest, pos, convert) == ReadValue(text, pos, convert)
  {
    ReadStringPrefix(text, rest, pos);
  }

  lemma EntryPrefix(text: string, rest: string, pos: nat, convert: string -> Result<Value, ParseError>)
    requires pos < |text| && Numeric(convert)
    requires Entry(text, pos, convert).Success? && Entry(text, pos, convert).value.2 < |text|
    ensures Entry(text + rest, pos, convert) == Entry(text, pos, convert)
  {
    ReadStringPrefix(text, rest, pos);
    var (key, p1) := ReadString(text, pos).value;
    assert p1 < |text|;
    ReadValuePrefix(text, rest, p1 + 1, convert);
    var (v, p3) := ReadValue(text, p1 + 1, convert).value;
    var p4 := if p3 < |text| && text[p3] == ',' then p3 + 1 else p3;
    EntryRead(text, pos, convert, key, p1, v, p3, p4);
    assert p3 < |text|;
    assert (text + rest)[p3] == text[p3];
    EntryRead(text + rest, pos, convert, key, p1, v, p3, p4);
  }

  lemma {:induction false} ObjectLoopPrefix(text: string, rest: string, pos: nat, acc: Json,
                                            convert: string -> Result<Value, ParseError>)
    requires pos <= |text| && SortedKeys(acc) && Numeric(convert)
    requires ObjectLoop(text, pos, acc, convert).Success?
    ensures ObjectLoop(text + rest, pos, acc, convert) == ObjectLoop(text, pos, acc, convert)
    decreases |text| - pos
  {
    if text[pos] != '}' {
      var e := Entry(text, pos, convert).value;
      assert ObjectLoop(text, e.2, Emplace(acc, e.0, e.1), convert).Success?;
      EntryPrefix(text, rest, pos, convert);
      ObjectLoopPrefix(text, rest, e.2, Emplace(acc, e.0, e.1), convert);
    }
  }

  /** Everything after the '}' that closes the object is never read. */
  lemma TrailingTextIgnored(text: string, rest: string)
    requires ParseText(text).Success?
    ensures ParseText(text + rest) == ParseText(text)
  {
    ConvertTokenNumeric();
    ObjectLoopPrefix(text, rest, 1, [], ConvertToken);
  }

  // ----- The imperative reader over the stream -----

  /** getString: reads a quoted string or a token from the stream. */
  method GetString(s: StringStream) returns (r: Option<string>)
    requires s.Valid()
    modifies s
    ensures s.Valid() && s.buf == old(s.buf)
    ensures r.None? <==> ReadString(s.buf, old(s.pos)).None?
    ensures r.Some? ==> ReadString(s.buf, old(s.pos)) == Some((r.value, s.pos))
  {
    var c := s.Peek();
    if c.Some? && IsIn(c.value, StringMarkers) {
      r := GetQuoted(s);
    } else {
      r := GetToken(s);
    }
  }

  /** The quoted branch of getString: the opening quote is the flag that ends the string. */
  method GetQuoted(s: StringStream) returns (r: Option<string>)
    requires s.Valid() && s.pos < |s.buf|
    modifies s
    ensures s.Valid() && s.buf == old(s.buf)
    ensures r.None? <==> QuotedAt(s.buf, old(s.pos)).None?
    ensures r.Some? ==> QuotedAt(s.buf, old(s.pos)) == Some((r.value, s.pos))
  {
    ghost var p0 := s.pos;
    var input := "";
    var flag := s.Get();
    var tmp := s.Get();
    while tmp != flag
      invariant s.Valid() && s.buf == old(s.buf) && flag == Some(s.buf[p0])
      invariant p0 + 1 <= s.pos
      invariant tmp.Some? ==> p0 + 2 <= s.pos && tmp == Some(s.buf[s.pos - 1])
                              && input == s.buf[p0 + 1..s.pos - 1]
      invariant tmp.None? ==> s.pos == |s.buf| && input == s.buf[p0 + 1..s.pos]
      invariant forall k :: p0 + 1 <= k < p0 + 1 + |input| ==> s.buf[k] != s.buf[p0]
      decreases |s.buf| - s.pos + (if tmp.Some? then 1 else 0)
    {
      if tmp.None? {
        // End of text: the source keeps reading EOF here and never stops.
        return None;
      }
      input := input + [tmp.value];
      tmp := s.Get();
    }
    FindFirstAt(s.buf, p0 + 1, [s.buf[p0]], s.pos - 1);
    return Some(input);
  }

  /** The token branch of getString: the terminator is put back with unget. */
  method GetToken(s: StringStream) returns (r: Option<string>)
    requires s.Valid()
    modifies s
    ensures s.Valid() && s.buf == old(s.buf)
    ensures r.None? <==> TokenAt(s.buf, old(s.pos)).None?
    ensures r.Some? ==> TokenAt(s.buf, old(s.pos)) == Some((r.value, s.pos))
  {
    ghost var p0 := s.pos;
    var input := "";
    var tmp := s.Get();
    while tmp.None? || !IsIn(tmp.value, StringTerminaters)
      invariant s.Valid() && s.buf == old(s.buf)
      invariant p0 + |input| <= |s.buf| && input == s.buf[p0..p0 + |input|]
      invariant s.pos == p0 + |input| + (if tmp.Some? then 1 else 0)
      invariant tmp.Some? ==> tmp.value == s.buf[p0 + |input|]
      invariant tmp.None? ==> p0 + |input| == |s.buf|
      invariant forall k :: p0 <= k < p0 + |input| ==> s.buf[k] !in StringTerminaters
      decreases |s.buf| - |input|
    {
      if tmp.None? {
        // End of text: the source keeps reading EOF here and never stops.
        TokenMissing(s.buf, p0, input);
        return None;
      }
      input := input + [tmp.value];
      tmp := s.Get();
    }
    s.Unget();
    TokenFound(s.buf, p0, s.pos);
    return Some(input);
  }

  /** No terminator from pos to the end: there is no token. */
  lemma TokenMissing(text: string, pos: nat, input: string)
    requires pos <= |text| && input == text[pos..]
    requires forall k :: pos <= k < pos + |input| ==> text[k] !in StringTerminaters
    ensures TokenAt(text, pos).None?
  {
    assert pos + |input| == |text|;
  }

  /** The first terminator at or after pos is at q: the token is what lies between. */
  lemma TokenFound(text: string, pos: nat, q: nat)
    requires pos <= q < |text| && text[q] in StringTerminaters
    requires forall k :: pos <= k < q ==> text[k] !in StringTerminaters
    ensures TokenAt(text, pos) == Some((text[pos..q], q))
  {
    FindFirstAt(text, pos, StringTerminaters, q);
  }

  /**
   * The value part of an entry (lines 84-103): a quote dispatches to
   * getString through RECURSIVE_CHARACTERS, anything else is read as a token
   * and converted to a number.
   */
  method GetValue(s: StringStream) returns (r: Result<Value, ParseError>)
    requires s.Valid()
    modifies s
    ensures s.Valid() && s.buf == old(s.buf)
    ensures Numeric(ConvertToken)
    ensures var rv := ReadValue(s.buf, old(s.pos), ConvertToken);
      (rv.Failure? ==> r == Failure(rv.error)) && (rv.Success? ==> r == Success(rv.value.0) && s.pos == rv.value.1)
  {
    ConvertTokenNumeric();
    var starter := s.Peek();
    if starter.Some? && starter.value in RecursiveCharacters {
      var str := GetString(s);
      if str.None? {
        return Failure(Truncated);
      }
      return Success(Str(str.value));
    } else {
      var token := GetString(s);
      if token.None? {
        return Failure(Truncated);
      }
      var converted := ConvertToken(token.value);
      if converted.Failure? {
        return Failure(converted.error);
      }
      return Success(converted.value);
    }
  }

  /** recursiveObjectParser: reads one object's entries from the stream into a map. */
  method RecursiveObjectParser(s: StringStream) returns (r: Result<Json, ParseError>)
    requires s.Valid()
    modifies s
    ensures s.Valid() && s.buf == old(s.buf)
    ensures match ParseObjectAt(s.buf, old(s.pos))
      case Success((j, p)) => r == Success(j) && s.pos == p
      case Failure(e) => r == Failure(e)
  {
    var j: Json := [];
    var c := s.Peek();
    if c == Some('{') {
      var _ := s.Get();
    } else {
      return Failure(NotAnObject);
    }
    ghost var text := s.buf;
    ConvertTokenNumeric();
    ghost var outcome := ObjectLoop(text, s.pos, j, ConvertToken);
    assert ParseObjectAt(text, old(s.pos)) == outcome;
    while s.Peek() != Some('}')
      invariant s.Valid() && s.buf == text && SortedKeys(j)
      invariant ObjectLoop(text, s.pos, j, ConvertToken) == outcome
      decreases |s.buf| - s.pos
    {
      if s.Peek().None? {
        // End of text: the source's loop condition stays true and getString never returns.
        return Failure(Truncated);
      }
      ghost var start := s.pos;
      var key := GetString(s);
      if key.None? {
        return Failure(Truncated);
      }
      ghost var p1 := s.pos;
      var _ := s.Get();  // the ':' separator, whatever it is
      ghost var p2 := s.pos;
      var value := GetValue(s);
      if value.Failure? {
        ObjectLoopStepFails(text, start, j, ConvertToken, key.value, p1, p2);
        return Failure(value.error);
      }
      ghost var p3 := s.pos;
      ghost var j0 := j;
      j := Emplace(j, key.value, value.value);
      if s.Peek() == Some(',') {
        var _ := s.Get();
      }
      ObjectLoopStep(text, start, j0, ConvertToken, key.value, p1, p2, value.value, p3, s.pos);
    }
    var _ := s.Get();
    return Success(j);
  }

  /** parse: the JSON map described by jsonText. */
  method Parse(jsonText: string) returns (r: Result<Json, ParseError>)
    ensures r == ParseText(jsonText)
  {
    var s := new StringStream(jsonText);
    r := RecursiveObjectParser(s);
  }
}
