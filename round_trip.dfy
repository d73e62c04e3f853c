/**
 * How the three pieces fit together: the serializer's output, read back the
 * way JSONFile::read reads a file (white space dropped), is compact JSON
 * text, and for a flat map of ints and strings the text parser turns that
 * text back into the same map.
 */
module RoundTrip {
  import opened Wrappers
  import opened Jsonable
  import opened NumberText
  import opened JsonFile
  import JsonParser
  import JsonTextParser

  // ----- Compact text: an independent printer with no white space -----

  /** Compact JSON text for v, as the serializer would print it without indentation. */
  function CompactValue(v: Value): string
    decreases v, 2
  {
    match v
    case Int(i) => IntText(i)
    case Dbl(d) => DoubleText(d)
    case Str(s) => "\"" + s + "\""
    case Bool(b) => if b then "true" else "false"
    case Null => "null"
    case Obj(ms) => "{" + CompactMembersFrom(ms, 0) + "}"
    case Arr(items) => "[" + CompactItemsFrom(items, 0) + "]"
  }

  /** One entry: "key": value. */
  function CompactMember(m: Member): string
    decreases m.value, 3
  {
    "\"" + m.key + "\"" + ":" + CompactValue(m.value)
  }

  /** The entries from index i on, separated by commas. */
  function CompactMembersFrom(ms: seq<Member>, i: nat): string
    requires i <= |ms|
    decreases Obj(ms), 1, |ms| - i
  {
    if i == |ms| then ""
    else CompactMember(ms[i]) + (if i + 1 == |ms| then "" else ",") + CompactMembersFrom(ms, i + 1)
  }

  /** The elements from index i on, separated by commas. */
  function CompactItemsFrom(items: seq<Value>, i: nat): string
    requires i <= |items|
    decreases Arr(items), 1, |items| - i
  {
    if i == |items| then ""
    else CompactValue(items[i]) + (if i + 1 == |items| then "" else ",") + CompactItemsFrom(items, i + 1)
  }

  predicate NoSpace(s: string) {
    forall k :: 0 <= k < |s| ==> !IsSpace(s[k])
  }

  /** No key and no string anywhere in v holds white space. */
  predicate SpaceFree(v: Value)
    decreases v
  {
    match v
    case Str(s) => NoSpace(s)
    case Obj(ms) => forall k :: 0 <= k < |ms| ==> NoSpace(ms[k].key) && SpaceFree(ms[k].value)
    case Arr(items) => forall k :: 0 <= k < |items| ==> SpaceFree(items[k])
    case _ => true
  }

  // ----- The serializer's output without its white space -----

  lemma {:induction false} StripTabs(n: nat)
    ensures StripWhitespace(JsonParser.Tabs(n)) == ""
  {
    if n != 0 {
      StripTabs(n - 1);
    }
  }

  lemma StripNewlineAfter(s: string)
    requires NoSpace(s)
    ensures StripWhitespace(s + "\n") == s
  {
    StripNoSpace(s);
  }

  lemma StripColon()
    ensures StripWhitespace(" : ") == ":"
  {
    assert " : "[..2] == " :" && " :"[..1] == " ";
  }

  lemma StripParts(a: string, b: string, c: string)
    ensures StripWhitespace(a + b + c) == StripWhitespace(a) + StripWhitespace(b) + StripWhitespace(c)
  {
    StripAppend(a + b, c);
    StripAppend(a, b);
  }

  /**
   * With white space removed, the serializer's text of v is its compact
   * text, whatever the indent: tabs and newlines are all the layout adds.
   */
  lemma {:induction false} StripValueText(v: Value, n: nat)
    requires SpaceFree(v)
    ensures StripWhitespace(JsonParser.ValueText(v, n)) == CompactValue(v)
    decreases v, 3
  {
    match v
    case Int(i) =>
      StripNoSpace(IntText(i));
    case Dbl(d) =>
      StripNoSpace(DoubleText(d));
    case Str(s) =>
      StripNoSpace("\"" + s + "\"");
    case Bool(b) =>
      StripNoSpace(if b then "true" else "false");
    case Null =>
      StripNoSpace("null");
    case Obj(ms) =>
      StripObjectText(ms, n);
    case Arr(items) =>
      StripArrayText(items, n);
  }

  lemma StripOpening(c: char)
    requires !IsSpace(c)
    ensures StripWhitespace([c, '\n']) == [c]
  {
    assert [c, '\n'] == [c] + "\n";
    StripNewlineAfter([c]);
  }

  lemma StripFour(a: string, b: string, c: string, d: string)
    ensures StripWhitespace(a + b + c + d) == StripWhitespace(a) + StripWhitespace(b) + StripWhitespace(c) + StripWhitespace(d)
  {
    StripAppend(a + b + c, d);
    StripParts(a, b, c);
  }

  /** An object's layout around stripped entries e: "{\n" e tabs "}" strips to "{" e "}". */
  lemma StripBraces(e: string, ce: string, tabs: string)
    requires StripWhitespace(e) == ce && StripWhitespace(tabs) == ""
    ensures StripWhitespace("{\n" + e + tabs + "}") == "{" + ce + "}"
  {
    StripOpening('{');
    StripNoSpace("}");
    StripFour("{\n", e, tabs, "}");
  }

  /** An array's layout: "[\n" tabs' e tabs "]" strips to "[" e "]". */
  lemma StripBrackets(e: string, ce: string, tabs1: string, tabs: string)
    requires StripWhitespace(e) == ce && StripWhitespace(tabs1) == "" && StripWhitespace(tabs) == ""
    ensures StripWhitespace("[\n" + tabs1 + e + tabs + "]") == "[" + ce + "]"
  {
    StripOpening('[');
    StripNoSpace("]");
    StripFour("[\n" + tabs1, e, tabs, "]");
    StripAppend("[\n", tabs1);
  }

  lemma {:induction false} StripObjectText(ms: seq<Member>, n: nat)
    requires SpaceFree(Obj(ms))
    ensures StripWhitespace(JsonParser.ObjectText(ms, n)) == "{" + CompactMembersFrom(ms, 0) + "}"
    decreases Obj(ms), 2
  {
    var e := JsonParser.EntriesText(ms, |ms|, n + 1);
    StripEntries(ms, |ms|, n + 1);
    assert StripWhitespace(e) == CompactMembersFrom(ms, 0);
    StripTabs(n);
    StripBraces(e, CompactMembersFrom(ms, 0), JsonParser.Tabs(n));
  }

  lemma {:induction false} StripArrayText(items: seq<Value>, n: nat)
    requires SpaceFree(Arr(items))
    ensures StripWhitespace(JsonParser.ArrayText(items, n)) == "[" + CompactItemsFrom(items, 0) + "]"
    decreases Arr(items), 2
  {
    var e := JsonParser.ItemsText(items, |items|, n + 1);
    StripItems(items, |items|, n + 1);
    assert StripWhitespace(e) == CompactItemsFrom(items, 0);
    StripTabs(n);
    StripTabs(n + 1);
    StripBrackets(e, CompactItemsFrom(items, 0), JsonParser.Tabs(n + 1), JsonParser.Tabs(n));
  }

  /** The separator after an entry or element loses its newline. */
  lemma StripSeparator(last: bool)
    ensures StripWhitespace(if last then "\n" else ",\n") == (if last then "" else ",")
  {
    if !last {
      StripNewlineAfter(",");
      StripNoSpace(",");
    }
  }

  /** Regrouping: x + d is the total and d splits as p + c. */
  lemma Regroup(x: string, p: string, c: string, d: string, total: string)
    requires x + d == total && d == p + c
    ensures x + p + c == total
  {
    assert x + p + c == x + (p + c);
  }

  /** The first i entries, stripped, are the part of the compact entries before index i. */
  lemma {:induction false} StripEntries(ms: seq<Member>, i: nat, n: nat)
    requires i <= |ms| && SpaceFree(Obj(ms))
    ensures StripWhitespace(JsonParser.EntriesText(ms, i, n)) + CompactMembersFrom(ms, i) == CompactMembersFrom(ms, 0)
    decreases Obj(ms), 1, i
  {
    if i != 0 {
      var m := ms[i - 1];
      var last := i == |ms|;
      assert m in ms;
      var a := JsonParser.EntriesText(ms, i - 1, n);
      var b := JsonParser.EntryText(m, n, last);
      var p := CompactMember(m) + (if last then "" else ",");
      assert JsonParser.EntriesText(ms, i, n) == a + b;
      assert CompactMembersFrom(ms, i - 1) == p + CompactMembersFrom(ms, i);
      StripEntries(ms, i - 1, n);
      StripEntryText(m, n, last);
      StripAppend(a, b);
      Regroup(StripWhitespace(a), p, CompactMembersFrom(ms, i), CompactMembersFrom(ms, i - 1), CompactMembersFrom(ms, 0));
    }
  }

  /** An entry's line strips to its compact form: the tabs and newline go, " : " becomes ":". */
  lemma StripEntryLine(tabs: string, key: string, vt: string, cv: string, sep: string, csep: string)
    requires StripWhitespace(tabs) == "" && NoSpace(key) && StripWhitespace(vt) == cv && StripWhitespace(sep) == csep
    ensures StripWhitespace(tabs + "\"" + key + "\"" + " : " + vt + sep) == "\"" + key + "\"" + ":" + cv + csep
  {
    var s2 := tabs + "\"" + key + "\"" + " : ";
    StripKeyColon(tabs, key);
    StripAppend(s2, vt);
    StripAppend(s2 + vt, sep);
  }

  /** The indented key and " : " strip to the quoted key and ":". */
  lemma StripKeyColon(tabs: string, key: string)
    requires StripWhitespace(tabs) == "" && NoSpace(key)
    ensures StripWhitespace(tabs + "\"" + key + "\"" + " : ") == "\"" + key + "\"" + ":"
  {
    var q := "\"" + key + "\"";
    var s1 := tabs + "\"" + key + "\"";
    assert s1 == tabs + q;
    StripNoSpace(q);
    StripAppend(tabs, q);
    StripColon();
    StripAppend(s1, " : ");
  }

  lemma {:induction false} StripEntryText(m: Member, n: nat, last: bool)
    requires NoSpace(m.key) && SpaceFree(m.value)
    ensures StripWhitespace(JsonParser.EntryText(m, n, last)) == CompactMember(m) + (if last then "" else ",")
    decreases m.value, 4
  {
    StripTabs(n);
    StripValueText(m.value, n);
    StripSeparator(last);
    StripEntryLine(JsonParser.Tabs(n), m.key, JsonParser.ValueText(m.value, n), CompactValue(m.value),
                   if last then "\n" else ",\n", if last then "" else ",");
  }

  /** The first i elements, stripped, are the part of the compact elements before index i. */
  lemma {:induction false} StripItems(items: seq<Value>, i: nat, n: nat)
    requires i <= |items| && SpaceFree(Arr(items))
    ensures StripWhitespace(JsonParser.ItemsText(items, i, n)) + CompactItemsFrom(items, i) == CompactItemsFrom(items, 0)
    decreases Arr(items), 1, i
  {
    if i != 0 {
      var v := items[i - 1];
      var last := i == |items|;
      assert v in items;
      var a := JsonParser.ItemsText(items, i - 1, n);
      var b := JsonParser.ItemText(v, n, last);
      var p := CompactValue(v) + (if last then "" else ",");
      assert JsonParser.ItemsText(items, i, n) == a + b;
      assert CompactItemsFrom(items, i - 1) == p + CompactItemsFrom(items, i);
      StripItems(items, i - 1, n);
      StripItemText(v, n, last);
      StripAppend(a, b);
      Regroup(StripWhitespace(a), p, CompactItemsFrom(items, i), CompactItemsFrom(items, i - 1), CompactItemsFrom(items, 0));
    }
  }

  lemma {:induction false} StripItemText(v: Value, n: nat, last: bool)
    requires SpaceFree(v)
    ensures StripWhitespace(JsonParser.ItemText(v, n, last)) == CompactValue(v) + (if last then "" else ",")
    decreases v, 4
  {
    var vt := JsonParser.ValueText(v, n);
    var sep := if last then "\n" else ",\n";
    assert JsonParser.ItemText(v, n, last) == JsonParser.Tabs(n) + vt + sep;
    StripParts(JsonParser.Tabs(n), vt, sep);
    StripTabs(n);
    StripValueText(v, n);
    StripSeparator(last);
  }

  /** The serializer's output never ends in white space: its last character is the closing brace. */
  lemma JsonTextEndsInBrace(j: Json)
    ensures !EndsInSpace(JsonParser.JsonText(j))
  {
  }

  // ----- Reading compact text back -----

  /** Free of white space and of the double quote that would end it early. */
  predicate Quotable(s: string) {
    NoSpace(s) && '"' !in s
  }

  /** An entry the text parser reads back: a quotable key and an in-range int or a quotable string. */
  predicate PortableMember(m: Member) {
    Quotable(m.key) && ((m.value.Int? && IsInt32(m.value.i)) || (m.value.Str? && Quotable(m.value.s)))
  }

  /** A flat map the text parser reads back. */
  predicate Portable(ms: Json) {
    SortedKeys(ms) && forall k :: 0 <= k < |ms| ==> PortableMember(ms[k])
  }

  /** text holds t at position pos. */
  predicate HoldsAt(text: string, pos: nat, t: string) {
    pos + |t| <= |text| && text[pos..pos + |t|] == t
  }

  lemma HoldsAtSplit(text: string, pos: nat, a: string, b: string)
    requires HoldsAt(text, pos, a + b)
    ensures HoldsAt(text, pos, a) && HoldsAt(text, pos + |a|, b)
  {
    assert text[pos..pos + |a|] == text[pos..pos + |a + b|][..|a|];
    assert text[pos + |a|..pos + |a| + |b|] == text[pos..pos + |a + b|][|a|..];
  }

  lemma HoldsAtIndex(text: string, pos: nat, t: string, k: nat)
    requires HoldsAt(text, pos, t) && k < |t|
    ensures text[pos + k] == t[k]
  {
    assert text[pos..pos + |t|][k] == text[pos + k];
  }

  /** A conversion that reads the text of every in-range int back as that int, as stoi does. */
  ghost predicate ReadsIntTexts(convert: string -> Result<Value, JsonTextParser.ParseError>) {
    forall i :: IsInt32(i) ==> convert(IntText(i)) == Success(Int(i))
  }

  lemma ConvertTokenReadsIntTexts()
    ensures ReadsIntTexts(JsonTextParser.ConvertToken)
  {
    forall i | IsInt32(i) ensures JsonTextParser.ConvertToken(IntText(i)) == Success(Int(i)) {
      IntTextRoundTrip(i);
      assert '.' !in IntText(i);
    }
  }

  /** A quoted run of text with no copy of its quote inside is read back by getString. */
  lemma ReadQuoted(text: string, pos: nat, s: string)
    requires HoldsAt(text, pos, "\"" + s + "\"") && '"' !in s
    ensures pos < |text| && text[pos] == '"'
    ensures JsonTextParser.ReadString(text, pos) == Some((s, pos + |s| + 2))
  {
    var q := pos + 1 + |s|;
    HoldsAtSplit(text, pos, "\"" + s, "\"");
    HoldsAtSplit(text, pos, "\"", s);
    HoldsAtIndex(text, pos, "\"", 0);
    HoldsAtIndex(text, q, "\"", 0);
    forall k | pos + 1 <= k < q ensures text[k] !in [text[pos]] {
      HoldsAtIndex(text, pos + 1, s, k - pos - 1);
    }
    JsonTextParser.FindFirstAt(text, pos + 1, [text[pos]], q);
    assert JsonTextParser.IsIn(text[pos], JsonTextParser.StringMarkers);
  }

  /** An int's text followed by ',' or '}' is read back as that int. */
  lemma ReadIntText(text: string, pos: nat, i: int, convert: string -> Result<Value, JsonTextParser.ParseError>)
    requires JsonTextParser.Numeric(convert) && ReadsIntTexts(convert) && IsInt32(i)
    requires HoldsAt(text, pos, IntText(i)) && pos + |IntText(i)| < |text|
    requires text[pos + |IntText(i)|] in JsonTextParser.StringTerminaters
    ensures JsonTextParser.ReadValue(text, pos, convert) == Success((Int(i), pos + |IntText(i)|))
  {
    var t := IntText(i);
    var q := pos + |t|;
    HoldsAtIndex(text, pos, t, 0);
    assert text[pos] !in JsonTextParser.RecursiveCharacters;
    assert !JsonTextParser.IsIn(text[pos], JsonTextParser.StringMarkers);
    forall k | pos <= k < q ensures text[k] !in JsonTextParser.StringTerminaters {
      HoldsAtIndex(text, pos, t, k - pos);
    }
    JsonTextParser.FindFirstAt(text, pos, JsonTextParser.StringTerminaters, q);
    assert JsonTextParser.ReadString(text, pos) == Some((t, q));
  }

  /** The compact text of an entry's value, followed by ',' or '}', is read back as that value. */
  lemma ReadPortableValue(text: string, pos: nat, m: Member, convert: string -> Result<Value, JsonTextParser.ParseError>)
    requires JsonTextParser.Numeric(convert) && ReadsIntTexts(convert) && PortableMember(m)
    requires HoldsAt(text, pos, CompactValue(m.value)) && pos + |CompactValue(m.value)| < |text|
    requires text[pos + |CompactValue(m.value)|] in JsonTextParser.StringTerminaters
    ensures JsonTextParser.ReadValue(text, pos, convert) == Success((m.value, pos + |CompactValue(m.value)|))
  {
    if m.value.Int? {
      ReadIntText(text, pos, m.value.i, convert);
    } else {
      ReadQuoted(text, pos, m.value.s);
      assert text[pos] in JsonTextParser.RecursiveCharacters;
    }
  }

  /** The compact text of a portable entry, followed by ',' or '}', is read back as that entry. */
  lemma ReadEntry(text: string, pos: nat, m: Member, convert: string -> Result<Value, JsonTextParser.ParseError>)
    requires JsonTextParser.Numeric(convert) && ReadsIntTexts(convert) && PortableMember(m)
    requires HoldsAt(text, pos, CompactMember(m)) && pos + |CompactMember(m)| < |text|
    requires text[pos + |CompactMember(m)|] in JsonTextParser.StringTerminaters
    ensures pos < |text| && text[pos] == '"'
    ensures JsonTextParser.ReadString(text, pos) == Some((m.key, pos + |m.key| + 2))
    ensures JsonTextParser.ReadValue(text, pos + |m.key| + 3, convert) == Success((m.value, pos + |CompactMember(m)|))
  {
    EntryKeyText(text, pos, m);
    EntryValueText(text, pos, m, convert);
  }

  /** The key of an entry's compact text is read back as the key. */
  lemma EntryKeyText(text: string, pos: nat, m: Member)
    requires PortableMember(m) && HoldsAt(text, pos, CompactMember(m))
    ensures pos < |text| && text[pos] == '"'
    ensures JsonTextParser.ReadString(text, pos) == Some((m.key, pos + |m.key| + 2))
  {
    var quoted := "\"" + m.key + "\"";
    HoldsAtSplit(text, pos, quoted + ":", CompactValue(m.value));
    HoldsAtSplit(text, pos, quoted, ":");
    ReadQuoted(text, pos, m.key);
  }

  /** The value of an entry's compact text, after the key and the ':', is read back as the value. */
  lemma EntryValueText(text: string, pos: nat, m: Member, convert: string -> Result<Value, JsonTextParser.ParseError>)
    requires JsonTextParser.Numeric(convert) && ReadsIntTexts(convert) && PortableMember(m)
    requires HoldsAt(text, pos, CompactMember(m)) && pos + |CompactMember(m)| < |text|
    requires text[pos + |CompactMember(m)|] in JsonTextParser.StringTerminaters
    ensures JsonTextParser.ReadValue(text, pos + |m.key| + 3, convert) == Success((m.value, pos + |CompactMember(m)|))
  {
    HoldsAtSplit(text, pos, "\"" + m.key + "\"" + ":", CompactValue(m.value));
    ReadPortableValue(text, pos + |m.key| + 3, m, convert);
  }

  /** Emplacing a key above every key of a sorted map appends its entry. */
  lemma EmplaceAbove(ms: Json, i: nat)
    requires SortedKeys(ms) && i < |ms|
    ensures Emplace(ms[..i], ms[i].key, ms[i].value) == ms[..i + 1]
  {
    var a := Emplace(ms[..i], ms[i].key, ms[i].value);
    var b := ms[..i + 1];
    assert SortedKeys(ms[..i]);
    assert Lookup(ms[..i], ms[i].key).None? by {
      forall k | 0 <= k < i ensures ms[..i][k].key != ms[i].key {
        StrLessIrreflexive(ms[i].key);
      }
    }
    SortedKeysAreDistinct(b);
    forall k ensures Lookup(a, k) == Lookup(b, k) {
      if k == ms[i].key {
        LookupDistinct(b, i);
      } else {
        LookupAppendOther(ms[..i], ms[i], k);
        assert b == ms[..i] + [ms[i]];
      }
    }
    SortedDetermined(a, b);
  }

  /** Where the entry loop goes on after a value that ends at p3: past a ',' that follows, if any. */
  function AfterSeparator(text: string, p3: nat): nat {
    if p3 < |text| && text[p3] == ',' then p3 + 1 else p3
  }

  /** One iteration of the entry loop reads a portable entry from its compact text. */
  lemma EntryOfCompact(text: string, pos: nat, m: Member, convert: string -> Result<Value, JsonTextParser.ParseError>)
    requires JsonTextParser.Numeric(convert) && ReadsIntTexts(convert) && PortableMember(m)
    requires HoldsAt(text, pos, CompactMember(m)) && pos + |CompactMember(m)| < |text|
    requires text[pos + |CompactMember(m)|] in JsonTextParser.StringTerminaters
    ensures pos < |text| && text[pos] != '}'
    ensures JsonTextParser.Entry(text, pos, convert) == Success((m.key, m.value, AfterSeparator(text, pos + |CompactMember(m)|)))
  {
    ReadEntry(text, pos, m, convert);
    var p3 := pos + |CompactMember(m)|;
    JsonTextParser.EntryRead(text, pos, convert, m.key, pos + |m.key| + 2, m.value, p3, AfterSeparator(text, p3));
  }

  /** A piece of text, a separator, more text and '}' held at pos, taken apart. */
  lemma SplitPiece(text: string, pos: nat, c: string, sep: string, more: string)
    requires (sep == "" && more == "") || sep == ","
    requires HoldsAt(text, pos, c + sep + more + "}")
    ensures HoldsAt(text, pos, c) && pos + |c| < |text|
    ensures text[pos + |c|] in JsonTextParser.StringTerminaters
    ensures AfterSeparator(text, pos + |c|) == pos + |c| + |sep|
    ensures HoldsAt(text, pos + |c| + |sep|, more + "}")
  {
    var after := sep + (more + "}");
    assert c + sep + more + "}" == c + after;
    HoldsAtSplit(text, pos, c, after);
    PieceSeparator(text, pos + |c|, sep, more);
  }

  /** A separator, more text and '}' held at p: the character at p ends a token, and the separator is skipped. */
  lemma PieceSeparator(text: string, p: nat, sep: string, more: string)
    requires (sep == "" && more == "") || sep == ","
    requires HoldsAt(text, p, sep + (more + "}"))
    ensures p < |text| && text[p] in JsonTextParser.StringTerminaters
    ensures AfterSeparator(text, p) == p + |sep|
    ensures HoldsAt(text, p + |sep|, more + "}")
  {
    var after := sep + (more + "}");
    HoldsAtSplit(text, p, sep, more + "}");
    HoldsAtIndex(text, p, after, 0);
    if sep == "" {
      assert after == "}";
    } else {
      assert after[0] == ',';
    }
  }

  /** The compact text of the entries from i on splits into entry i, its separator, and the rest. */
  lemma MembersSplit(text: string, pos: nat, ms: Json, i: nat)
    requires i < |ms| && HoldsAt(text, pos, CompactMembersFrom(ms, i) + "}")
    ensures HoldsAt(text, pos, CompactMember(ms[i])) && pos + |CompactMember(ms[i])| < |text|
    ensures text[pos + |CompactMember(ms[i])|] in JsonTextParser.StringTerminaters
    ensures var next := AfterSeparator(text, pos + |CompactMember(ms[i])|);
            HoldsAt(text, next, CompactMembersFrom(ms, i + 1) + "}")
            && next + |CompactMembersFrom(ms, i + 1)| == pos + |CompactMembersFrom(ms, i)|
  {
    var c := CompactMember(ms[i]);
    var sep := if i + 1 == |ms| then "" else ",";
    var more := CompactMembersFrom(ms, i + 1);
    assert CompactMembersFrom(ms, i) == c + sep + more;
    SplitPiece(text, pos, c, sep, more);
  }

  /** Entry i's text, and where the compact text of the entries after it starts. */
  lemma NextPiece(text: string, pos: nat, ms: Json, i: nat) returns (next: nat)
    requires i < |ms| && HoldsAt(text, pos, CompactMembersFrom(ms, i) + "}")
    ensures HoldsAt(text, pos, CompactMember(ms[i])) && pos + |CompactMember(ms[i])| < |text|
    ensures text[pos + |CompactMember(ms[i])|] in JsonTextParser.StringTerminaters
    ensures next == AfterSeparator(text, pos + |CompactMember(ms[i])|)
    ensures HoldsAt(text, next, CompactMembersFrom(ms, i + 1) + "}")
    ensures next + |CompactMembersFrom(ms, i + 1)| == pos + |CompactMembersFrom(ms, i)|
  {
    next := AfterSeparator(text, pos + |CompactMember(ms[i])|);
    MembersSplit(text, pos, ms, i);
  }

  /** The keys of a portable map are sorted, and so are those of each of its prefixes. */
  lemma PortablePrefixSorted(ms: Json, i: nat)
    requires Portable(ms) && i <= |ms|
    ensures SortedKeys(ms[..i])
  {
  }

  /** With no entries left, the entry loop meets the '}' and stops just past it. */
  lemma LoopEnd(text: string, pos: nat, ms: Json, convert: string -> Result<Value, JsonTextParser.ParseError>)
    requires JsonTextParser.Numeric(convert) && SortedKeys(ms)
    requires HoldsAt(text, pos, CompactMembersFrom(ms, |ms|) + "}")
    ensures JsonTextParser.ObjectLoop(text, pos, ms[..|ms|], convert) == Success((ms, pos + |CompactMembersFrom(ms, |ms|)| + 1))
  {
    HoldsAtIndex(text, pos, CompactMembersFrom(ms, |ms|) + "}", 0);
    assert ms[..|ms|] == ms;
  }

  /** One iteration of the entry loop over entry i: the loop goes on after it with the first i + 1 entries. */
  lemma LoopStep(text: string, pos: nat, ms: Json, i: nat,
                 convert: string -> Result<Value, JsonTextParser.ParseError>, next: nat, end: nat)
    requires JsonTextParser.Numeric(convert) && ReadsIntTexts(convert)
    requires Portable(ms) && i < |ms|
    requires HoldsAt(text, pos, CompactMember(ms[i])) && pos + |CompactMember(ms[i])| < |text|
    requires text[pos + |CompactMember(ms[i])|] in JsonTextParser.StringTerminaters
    requires next == AfterSeparator(text, pos + |CompactMember(ms[i])|) && next <= |text|
    requires SortedKeys(ms[..i + 1]) && JsonTextParser.ObjectLoop(text, next, ms[..i + 1], convert) == Success((ms, end))
    ensures SortedKeys(ms[..i])
    ensures JsonTextParser.ObjectLoop(text, pos, ms[..i], convert) == Success((ms, end))
  {
    assert PortableMember(ms[i]);
    EntryOfCompact(text, pos, ms[i], convert);
    LoopAfterEntry(text, pos, ms, i, convert, next, end);
  }

  /** Entry i read at pos, then the loop over the first i + 1 entries from next: the loop over the first i from pos. */
  lemma LoopAfterEntry(text: string, pos: nat, ms: Json, i: nat,
                       convert: string -> Result<Value, JsonTextParser.ParseError>, next: nat, end: nat)
    requires JsonTextParser.Numeric(convert) && Portable(ms) && i < |ms|
    requires pos < |text| && text[pos] != '}'
    requires JsonTextParser.Entry(text, pos, convert) == Success((ms[i].key, ms[i].value, next))
    requires SortedKeys(ms[..i + 1]) && JsonTextParser.ObjectLoop(text, next, ms[..i + 1], convert) == Success((ms, end))
    ensures SortedKeys(ms[..i])
    ensures JsonTextParser.ObjectLoop(text, pos, ms[..i], convert) == Success((ms, end))
  {
    PortablePrefixSorted(ms, i);
    JsonTextParser.ObjectLoopEntry(text, pos, ms[..i], convert, ms[i].key, ms[i].value, next);
    EmplaceAbove(ms, i);
  }

  /**
   * The entry loop over the compact text of the entries from index i on,
   * closed by '}', adds exactly those entries to the first i and stops just
   * past the '}'.
   */
  lemma {:induction false} ReadEntries(text: string, pos: nat, ms: Json, i: nat,
                                       convert: string -> Result<Value, JsonTextParser.ParseError>, end: nat)
    requires JsonTextParser.Numeric(convert) && ReadsIntTexts(convert)
    requires Portable(ms) && i <= |ms|
    requires HoldsAt(text, pos, CompactMembersFrom(ms, i) + "}")
    requires end == pos + |CompactMembersFrom(ms, i)| + 1
    ensures SortedKeys(ms[..i])
    ensures JsonTextParser.ObjectLoop(text, pos, ms[..i], convert) == Success((ms, end))
    decreases |ms| - i
  {
    PortablePrefixSorted(ms, i);
    if i == |ms| {
      LoopEnd(text, pos, ms, convert);
    } else {
      var next := NextPiece(text, pos, ms, i);
      ReadEntries(text, next, ms, i + 1, convert, end);
      LoopStep(text, pos, ms, i, convert, next, end);
    }
  }

  /** The text parser reads the compact text of a portable map back as that map. */
  lemma ParseCompact(ms: Json)
    requires Portable(ms)
    ensures JsonTextParser.ParseText(CompactValue(Obj(ms))) == Success(ms)
  {
    var text := CompactValue(Obj(ms));
    var body := CompactMembersFrom(ms, 0) + "}";
    assert text == "{" + body;
    assert HoldsAt(text, 0, "{" + body);
    HoldsAtSplit(text, 0, "{", body);
    JsonTextParser.ConvertTokenNumeric();
    ConvertTokenReadsIntTexts();
    ReadEntries(text, 1, ms, 0, JsonTextParser.ConvertToken, |text|);
    assert ms[..0] == [];
  }

  /**
   * Serialize a flat map of in-range ints and of strings (keys and strings
   * free of white space and double quotes), drop the white space as read
   * does, and the text parser gives the same map back.
   */
  lemma SerializeThenParse(ms: Json)
    requires Portable(ms)
    ensures JsonTextParser.ParseText(StripWhitespace(JsonParser.JsonText(ms))) == Success(ms)
  {
    assert SpaceFree(Obj(ms)) by {
      forall k | 0 <= k < |ms| ensures NoSpace(ms[k].key) && SpaceFree(ms[k].value) {
        assert PortableMember(ms[k]);
      }
    }
    StripValueText(Obj(ms), JsonParser.InitialNumTabs);
    ParseCompact(ms);
  }

  /**
   * The write/read check: the text written for a portable map, read back by
   * read's loop as written (its repeated last word does not arise, since the
   * text ends in '}'), parses to the same map.
   */
  lemma WriteThenRead(ms: Json)
    requires Portable(ms)
    ensures JsonTextParser.ParseText(ReadResult(JsonParser.JsonText(ms))) == Success(ms)
  {
    JsonTextEndsInBrace(ms);
    ReadResultWithoutTrailingSpace(JsonParser.JsonText(ms));
    SerializeThenParse(ms);
  }
}
