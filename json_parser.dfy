/**
 * The serializer (JSONParser and its JSONTextVisitor): writes a JSON map as
 * tab-indented text into a stringstream.
 *
 * An object is written as "{\n", one line per entry at one more tab than the
 * braces ("key" : value, with ",\n" after every entry but the last), and the
 * closing "}" at the caller's indent. An array is written the same way
 * between "[" and "]", except that one extra run of tabs follows "[\n".
 * Strings are quoted without escaping, bools and null are written as words
 * and numbers through std::to_string. The text functions below say what is
 * written; the methods that write it are proved to append exactly that.
 */
module JsonParser {
  import opened Jsonable
  import opened NumberText
  import opened Streams

  /** The indent of the root object. */
  const InitialNumTabs: nat := 0

  /** n tab characters. */
  function Tabs(n: nat): (r: string)
    ensures |r| == n && forall k :: 0 <= k < n ==> r[k] == '\t'
  {
    if n == 0 then "" else Tabs(n - 1) + "\t"
  }

  /** The text the visitor writes for v when the enclosing indent is numTabs. */
  function ValueText(v: Value, numTabs: nat): string
    decreases v, 3, 0
  {
    match v
    case Int(i) => IntText(i)
    case Dbl(d) => DoubleText(d)
    case Str(s) => "\"" + s + "\""
    case Bool(b) => if b then "true" else "false"
    case Null => "null"
    case Obj(ms) => ObjectText(ms, numTabs)
    case Arr(items) => ArrayText(items, numTabs)
  }

  /** parseObject at indent numTabs. */
  function ObjectText(ms: seq<Member>, numTabs: nat): string
    decreases Obj(ms), 2, 0
  {
    "{\n" + EntriesText(ms, |ms|, numTabs + 1) + Tabs(numTabs) + "}"
  }

  /** The lines of the first i entries of an object whose contents sit at numTabs. */
  function EntriesText(ms: seq<Member>, i: nat, numTabs: nat): string
    requires i <= |ms|
    decreases Obj(ms), 1, i
  {
    if i == 0 then ""
    else EntriesText(ms, i - 1, numTabs) + EntryText(ms[i - 1], numTabs, i == |ms|)
  }

  /** One entry's line: indent, quoted key, " : ", the value and the separator. */
  function EntryText(m: Member, numTabs: nat, last: bool): string
    decreases m.value, 4, 0
  {
    Tabs(numTabs) + "\"" + m.key + "\"" + " : " + ValueText(m.value, numTabs) + (if last then "\n" else ",\n")
  }

  /** parseArray at indent numTabs, with the extra run of tabs after "[\n". */
  function ArrayText(items: seq<Value>, numTabs: nat): string
    decreases Arr(items), 2, 0
  {
    "[\n" + Tabs(numTabs + 1) + ItemsText(items, |items|, numTabs + 1) + Tabs(numTabs) + "]"
  }

  /** The lines of the first i elements of an array whose contents sit at numTabs. */
  function ItemsText(items: seq<Value>, i: nat, numTabs: nat): string
    requires i <= |items|
    decreases Arr(items), 1, i
  {
    if i == 0 then ""
    else ItemsText(items, i - 1, numTabs) + ItemText(items[i - 1], numTabs, i == |items|)
  }

  /** One element's line: indent, the value and the separator. */
  function ItemText(v: Value, numTabs: nat, last: bool): string
    decreases v, 4, 0
  {
    Tabs(numTabs) + ValueText(v, numTabs) + (if last then "\n" else ",\n")
  }

  /** parse: the text of a whole JSON map, the root treated as an object at indent 0. */
  function JsonText(j: Json): string {
    ObjectText(j, InitialNumTabs)
  }

  // ----- Properties of the text -----

  /** An empty map is written as an opening brace, a newline and a closing brace. */
  lemma EmptyMapText()
    ensures JsonText([]) == "{\n}"
  {
  }

  /** Every element line of an array begins with the elements' indent, so the first does too. */
  lemma {:induction false} ItemsTextStartsIndented(items: seq<Value>, i: nat, numTabs: nat)
    requires 1 <= i <= |items|
    ensures Tabs(numTabs) <= ItemsText(items, i, numTabs)
  {
    if i == 1 {
      assert ItemsText(items, 1, numTabs) == ItemText(items[0], numTabs, 1 == |items|);
    } else {
      ItemsTextStartsIndented(items, i - 1, numTabs);
    }
  }

  /**
   * The extra run of tabs after "[\n" is followed by the first element's own
   * indent, so a non-empty array's first element sits at twice the indent of
   * the elements after it.
   */
  lemma NonEmptyArrayDoubleIndent(items: seq<Value>, numTabs: nat)
    requires |items| > 0
    ensures "[\n" + Tabs(numTabs + 1) + Tabs(numTabs + 1) <= ArrayText(items, numTabs)
  {
    ItemsTextStartsIndented(items, |items|, numTabs + 1);
    var rest := ItemsText(items, |items|, numTabs + 1);
    var tail := rest[|Tabs(numTabs + 1)|..];
    assert rest == Tabs(numTabs + 1) + tail;
    assert ArrayText(items, numTabs) == "[\n" + Tabs(numTabs + 1) + Tabs(numTabs + 1) + (tail + Tabs(numTabs) + "]");
  }

  /** An empty array still gets the extra run of tabs: its brackets are split over two lines. */
  lemma EmptyArrayText(numTabs: nat)
    ensures ArrayText([], numTabs) == "[\n" + Tabs(numTabs + 1) + Tabs(numTabs) + "]"
  {
  }

  // ----- Steps of the writers' loops -----

  lemma EntryWritten(before: string, m: Member, numTabs: nat, last: bool, sep: string)
    requires sep == if last then "\n" else ",\n"
    ensures before + Tabs(numTabs) + ("\"" + m.key + "\"" + " : ") + ValueText(m.value, numTabs) + sep
         == before + EntryText(m, numTabs, last)
  {
  }

  lemma EntriesStep(start: string, ms: seq<Member>, i: nat, numTabs: nat)
    requires i < |ms|
    ensures start + EntriesText(ms, i, numTabs) + EntryText(ms[i], numTabs, i + 1 == |ms|)
         == start + EntriesText(ms, i + 1, numTabs)
  {
  }

  lemma ObjectWritten(before: string, ms: seq<Member>, numTabs: nat)
    ensures before + "{\n" + EntriesText(ms, |ms|, numTabs + 1) + Tabs(numTabs) + "}" == before + ObjectText(ms, numTabs)
  {
  }

  lemma ItemWritten(before: string, v: Value, numTabs: nat, last: bool, sep: string)
    requires sep == if last then "\n" else ",\n"
    ensures before + Tabs(numTabs) + ValueText(v, numTabs) + sep == before + ItemText(v, numTabs, last)
  {
  }

  lemma ItemsStep(start: string, items: seq<Value>, i: nat, numTabs: nat)
    requires i < |items|
    ensures start + ItemsText(items, i, numTabs) + ItemText(items[i], numTabs, i + 1 == |items|)
         == start + ItemsText(items, i + 1, numTabs)
  {
  }

  lemma ArrayWritten(before: string, items: seq<Value>, numTabs: nat)
    ensures before + "[\n" + Tabs(numTabs + 1) + ItemsText(items, |items|, numTabs + 1) + Tabs(numTabs) + "]"
         == before + ArrayText(items, numTabs)
  {
  }

  // ----- The writers -----

  /** The tab loops of parseObject and parseArray. */
  method WriteTabs(s: StringStream, numTabs: nat)
    requires s.Valid()
    modifies s
    ensures s.Valid() && s.buf == old(s.buf) + Tabs(numTabs) && s.pos == old(s.pos)
  {
    for i := 0 to numTabs
      invariant s.Valid() && s.buf == old(s.buf) + Tabs(i) && s.pos == old(s.pos)
    {
      s.Write("\t");
    }
  }

  /** The generic overload's loop: the characters of itemStr, one put at a time. */
  method PutChars(s: StringStream, itemStr: string)
    requires s.Valid()
    modifies s
    ensures s.Valid() && s.buf == old(s.buf) + itemStr && s.pos == old(s.pos)
  {
    for i := 0 to |itemStr|
      invariant s.Valid() && s.buf == old(s.buf) + itemStr[..i] && s.pos == old(s.pos)
    {
      s.Put(itemStr[i]);
      assert itemStr[..i + 1] == itemStr[..i] + [itemStr[i]];
    }
  }

  /**
   * std::visit with a JSONTextVisitor holding its own copy of the indent:
   * whatever parseObject or parseArray do to that copy stays in the visitor.
   */
  method Visit(v: Value, s: StringStream, numTabs: nat)
    requires s.Valid()
    modifies s
    ensures s.Valid() && s.buf == old(s.buf) + ValueText(v, numTabs) && s.pos == old(s.pos)
    decreases v, 2
  {
    match v
    case Str(item) =>
      s.Write("\"" + item + "\"");
    case Bool(item) =>
      var itemStr := if item then "true" else "false";
      s.Write(itemStr);
    case Obj(item) =>
      var visitorTabs := ParseObject(item, s, numTabs);
    case Arr(item) =>
      var visitorTabs := ParseArray(item, s, numTabs);
    case Null =>
      s.Write("null");
    case Int(item) =>
      PutChars(s, IntText(item));
    case Dbl(item) =>
      PutChars(s, DoubleText(item));
  }

  /**
   * parseObject: writes j at indent numTabs. The counter passed by reference
   * is raised for the entries and lowered again, so it comes back unchanged.
   */
  method ParseObject(j: Json, s: StringStream, numTabs: nat) returns (numTabsAfter: nat)
    requires s.Valid()
    modifies s
    ensures s.Valid() && s.buf == old(s.buf) + ObjectText(j, numTabs) && s.pos == old(s.pos)
    ensures numTabsAfter == numTabs
    decreases Obj(j), 1
  {
    s.Write("{\n");
    ghost var start := s.buf;
    var tabs := numTabs + 1;
    var i := 0;
    while i < |j|
      invariant i <= |j|
      invariant s.Valid() && s.buf == start + EntriesText(j, i, tabs) && s.pos == old(s.pos)
    {
      ghost var before := s.buf;
      WriteTabs(s, tabs);
      s.Write("\"" + j[i].key + "\"" + " : ");
      assert j[i] in j;
      Visit(j[i].value, s, tabs);
      var sep := if i + 1 != |j| then ",\n" else "\n";
      s.Write(sep);
      EntryWritten(before, j[i], tabs, i + 1 == |j|, sep);
      EntriesStep(start, j, i, tabs);
      i := i + 1;
    }
    tabs := tabs - 1;
    WriteTabs(s, tabs);
    s.Write("}");
    ObjectWritten(old(s.buf), j, numTabs);
    numTabsAfter := tabs;
  }

  /** parseArray: writes items at indent numTabs and leaves the counter as it found it. */
  method ParseArray(items: seq<Value>, s: StringStream, numTabs: nat) returns (numTabsAfter: nat)
    requires s.Valid()
    modifies s
    ensures s.Valid() && s.buf == old(s.buf) + ArrayText(items, numTabs) && s.pos == old(s.pos)
    ensures numTabsAfter == numTabs
    decreases Arr(items), 1
  {
    s.Write("[\n");
    var tabs := numTabs + 1;
    WriteTabs(s, tabs);
    ghost var start := s.buf;
    var i := 0;
    while i < |items|
      invariant i <= |items|
      invariant s.Valid() && s.buf == start + ItemsText(items, i, tabs) && s.pos == old(s.pos)
    {
      ghost var before := s.buf;
      WriteTabs(s, tabs);
      assert items[i] in items;
      Visit(items[i], s, tabs);
      var sep := if i + 1 != |items| then ",\n" else "\n";
      s.Write(sep);
      ItemWritten(before, items[i], tabs, i + 1 == |items|, sep);
      ItemsStep(start, items, i, tabs);
      i := i + 1;
    }
    tabs := tabs - 1;
    WriteTabs(s, tabs);
    s.Write("]");
    ArrayWritten(old(s.buf), items, numTabs);
    numTabsAfter := tabs;
  }

  /** parse: the text of j, built in a fresh stream starting at INITIAL_NUM_TABS. */
  method Parse(j: Json) returns (jsonText: string)
    ensures jsonText == JsonText(j)
  {
    var s := new StringStream("");
    var numTabs := InitialNumTabs;
    numTabs := ParseObject(j, s, numTabs);
    jsonText := s.buf;
  }
}
