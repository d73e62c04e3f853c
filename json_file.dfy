/**
 * JSONFile's string handling: the ".json" suffix check, the normalisation of
 * a file name at the top of read and write, and the word loop with which
 * read turns the contents of a file into one string.
 *
 * The file system itself is not modelled: a file's contents are a string
 * parameter, and what write puts in a file is the text it is given.
 */
module JsonFile {
  import opened Wrappers
  import opened NumberText

  /** JSONFile::FILE_EXTENSION. */
  const FileExtension: string := ".json"

  predicate EndsWith(s: string, suffix: string) {
    |suffix| <= |s| && s[|s| - |suffix|..] == suffix
  }

  /** pat occurs in text starting at index i. */
  predicate OccursAt(text: string, pat: string, i: nat) {
    i + |pat| <= |text| && text[i..i + |pat|] == pat
  }

  /** The last occurrence of pat starting below n. */
  function RFindBelow(text: string, pat: string, n: nat): (r: Option<nat>)
    ensures r.Some? ==> r.value < n && OccursAt(text, pat, r.value)
                        && forall i :: r.value < i < n ==> !OccursAt(text, pat, i)
    ensures r.None? ==> forall i :: 0 <= i < n ==> !OccursAt(text, pat, i)
  {
    if n == 0 then None
    else if OccursAt(text, pat, n - 1) then Some(n - 1)
    else RFindBelow(text, pat, n - 1)
  }

  /** std::string::rfind(pat): the start of the last occurrence, None for npos. */
  function RFind(text: string, pat: string): (r: Option<nat>)
    ensures r.Some? ==> OccursAt(text, pat, r.value) && forall i :: r.value < i ==> !OccursAt(text, pat, i)
    ensures r.None? ==> forall i :: !OccursAt(text, pat, i)
  {
    RFindBelow(text, pat, |text| + 1)
  }

  /**
   * checkExtension: npos gives false; otherwise the last occurrence must start
   * at length - 5. The size_t subtraction cannot wrap there, since an
   * occurrence needs at least 5 characters.
   */
  function CheckExtension(filename: string): (r: bool)
    ensures r <==> EndsWith(filename, FileExtension)
  {
    assert EndsWith(filename, FileExtension) ==> OccursAt(filename, FileExtension, |filename| - |FileExtension|);
    match RFind(filename, FileExtension)
    case None => false
    case Some(lastFind) =>
      assert OccursAt(filename, FileExtension, lastFind);
      |filename| - |FileExtension| == lastFind
  }

  /** ".json" somewhere before the end is not enough: the last occurrence must end the name. */
  lemma ExtensionNotAtEnd()
    ensures !CheckExtension("a.json.bak")
  {
  }

  /** A name shorter than the extension is never accepted. */
  lemma ShortNameRejected(filename: string)
    requires |filename| < |FileExtension|
    ensures !CheckExtension(filename)
  {
  }

  /** The name read and write actually open: ".json" appended when the check fails. */
  function NormalizeFilename(filename: string): (r: string)
    ensures EndsWith(r, FileExtension)
    ensures CheckExtension(filename) ==> r == filename
    ensures !CheckExtension(filename) ==> r == filename + FileExtension
  {
    if !CheckExtension(filename) then filename + FileExtension else filename
  }

  /** Normalising twice is normalising once. */
  lemma NormalizeIdempotent(filename: string)
    ensures NormalizeFilename(NormalizeFilename(filename)) == NormalizeFilename(filename)
  {
  }

  /**
   * write: the file it writes to, what goes into it, and its result, which is
   * true on every normal return (failures are exceptions).
   */
  method Write(filename: string, jsonData: string) returns (path: string, contents: string, written: bool)
    ensures path == NormalizeFilename(filename) && EndsWith(path, FileExtension)
    ensures contents == jsonData && written
  {
    path := filename;
    if !CheckExtension(path) {
      path := path + FileExtension;
    }
    contents := jsonData;
    written := true;
  }

  // ----- The word loop of read -----

  /** The characters of t that are not white space, in order. */
  function StripWhitespace(t: string): string {
    if |t| == 0 then ""
    else StripWhitespace(t[..|t| - 1]) + (if IsSpace(t[|t| - 1]) then "" else [t[|t| - 1]])
  }

  /** Stripping leaves no white space, and keeps every other character of t in order. */
  lemma {:induction false} StripWhitespaceMeaning(t: string)
    ensures forall k :: 0 <= k < |StripWhitespace(t)| ==> !IsSpace(StripWhitespace(t)[k])
    ensures StripWhitespace(t) == [] <==> forall k :: 0 <= k < |t| ==> IsSpace(t[k])
    ensures forall c :: c in t && !IsSpace(c) ==> c in StripWhitespace(t)
    decreases |t|
  {
    if |t| != 0 {
      var init := t[..|t| - 1];
      StripWhitespaceMeaning(init);
      assert t == init + [t[|t| - 1]];
    }
  }

  /** White space removal distributes over concatenation. */
  lemma {:induction false} StripAppend(a: string, b: string)
    ensures StripWhitespace(a + b) == StripWhitespace(a) + StripWhitespace(b)
    decreases |b|
  {
    if |b| == 0 {
      assert a + b == a;
    } else {
      var b' := b[..|b| - 1];
      assert (a + b)[..|a + b| - 1] == a + b';
      assert (a + b)[|a + b| - 1] == b[|b| - 1];
      StripAppend(a, b');
    }
  }

  /** Text without white space is left as it is. */
  lemma {:induction false} StripNoSpace(t: string)
    requires forall k :: 0 <= k < |t| ==> !IsSpace(t[k])
    ensures StripWhitespace(t) == t
    decreases |t|
  {
    if |t| != 0 {
      StripNoSpace(t[..|t| - 1]);
    }
  }

  /** The run of non-space characters that ends t. */
  function TrailingWord(t: string): string {
    if |t| == 0 || IsSpace(t[|t| - 1]) then "" else TrailingWord(t[..|t| - 1]) + [t[|t| - 1]]
  }

  /** The last word of t: its last maximal run of non-space characters, "" if none. */
  function LastWord(t: string): string {
    if |t| == 0 then ""
    else if IsSpace(t[|t| - 1]) then LastWord(t[..|t| - 1])
    else TrailingWord(t)
  }

  predicate EndsInSpace(t: string) {
    |t| > 0 && IsSpace(t[|t| - 1])
  }

  /**
   * What read returns for a file holding contents: its words run together,
   * and, when the file ends in white space, its last word once more (the
   * final >> finds no word, leaves line as it was, and line is appended
   * again before eof is seen).
   */
  function ReadResult(contents: string): string {
    StripWhitespace(contents) + (if EndsInSpace(contents) then LastWord(contents) else "")
  }

  lemma WordPrefix(c: string, p: nat, q: nat)
    requires p < q <= |c| && (p == 0 || IsSpace(c[p - 1]))
    requires forall k :: p <= k < q ==> !IsSpace(c[k])
    ensures LastWord(c[..q]) == c[p..q]
    ensures StripWhitespace(c[..q]) == StripWhitespace(c[..p]) + c[p..q]
  {
    TrailingWordRun(c, p, q);
    assert c[..q] == c[..p] + c[p..q];
    StripAppend(c[..p], c[p..q]);
    StripNoSpace(c[p..q]);
  }

  lemma {:induction false} TrailingWordRun(c: string, p: nat, q: nat)
    requires p <= q <= |c| && (p == 0 || IsSpace(c[p - 1]))
    requires forall k :: p <= k < q ==> !IsSpace(c[k])
    ensures TrailingWord(c[..q]) == c[p..q]
    decreases q - p
  {
    if q == p {
      if p > 0 {
        assert c[..q][|c[..q]| - 1] == c[p - 1];
      }
    } else {
      TrailingWordRun(c, p, q - 1);
      assert c[..q][..q - 1] == c[..q - 1];
      assert c[p..q] == c[p..q - 1] + [c[q - 1]];
    }
  }

  lemma SpaceStep(c: string, p: nat)
    requires p < |c| && IsSpace(c[p])
    ensures StripWhitespace(c[..p + 1]) == StripWhitespace(c[..p])
    ensures LastWord(c[..p + 1]) == LastWord(c[..p])
  {
    assert c[..p + 1][..p] == c[..p];
  }

  /**
   * The loop of read as written: while (!eof) { file >> line; s << line; },
   * over a file whose contents are given. Each >> skips white space and
   * then reads one word; when only white space is left it fails, sets eof
   * and leaves line unchanged, and line is still appended.
   */
  method ReadWords(contents: string) returns (output: string)
    ensures output == ReadResult(contents)
  {
    var p := 0;
    var line := "";
    var eof := false;
    output := "";
    while !eof
      invariant p <= |contents|
      invariant !eof ==> output == StripWhitespace(contents[..p]) && line == LastWord(contents[..p])
      invariant !eof ==> p == 0 || (p < |contents| && IsSpace(contents[p]))
      invariant eof ==> output == ReadResult(contents)
      decreases |contents| - p, if eof then 0 else 1
    {
      ghost var start := p;
      while p < |contents| && IsSpace(contents[p])
        invariant start <= p <= |contents|
        invariant output == StripWhitespace(contents[..p]) && line == LastWord(contents[..p])
        invariant p == 0 || IsSpace(contents[p - 1]) || (p == start && p < |contents| && IsSpace(contents[p]))
      {
        SpaceStep(contents, p);
        p := p + 1;
      }
      if p == |contents| {
        // The sentry finds no word: eof is set and line keeps its value.
        eof := true;
        assert contents[..p] == contents;
        if start < p {
          assert EndsInSpace(contents);
        }
        output := output + line;
      } else {
        var q := p;
        while q < |contents| && !IsSpace(contents[q])
          invariant p <= q <= |contents|
          invariant forall k :: p <= k < q ==> !IsSpace(contents[k])
        {
          q := q + 1;
        }
        WordPrefix(contents, p, q);
        line := contents[p..q];
        p := q;
        eof := p == |contents|;
        output := output + line;
        if eof {
          assert contents[..p] == contents;
        }
      }
    }
  }

  /** A file that ends in a newline is read with its last word twice: "{}\n" reads as "{}{}". */
  lemma TrailingNewlineRepeatsLastWord()
    ensures ReadResult("{}\n") == "{}{}"
  {
    var c := "{}\n";
    assert c[..2] == "{}" && c[..2][..1] == "{" && c[..2][..1][..0] == "";
    assert TrailingWord("{") == "{";
    assert TrailingWord("{}") == "{}";
    assert StripWhitespace("{") == "{";
    assert StripWhitespace("{}") == "{}";
  }

  /**
   * The loop as intended: while (file >> line) s << line;, stopping as soon
   * as >> finds no word. The file comes back with its white space removed.
   */
  method ReadWordsCorrected(contents: string) returns (output: string)
    ensures output == StripWhitespace(contents)
  {
    var p := 0;
    output := "";
    while p < |contents|
      invariant p <= |contents|
      invariant output == StripWhitespace(contents[..p])
      invariant p == 0 || p == |contents| || IsSpace(contents[p - 1]) || IsSpace(contents[p])
    {
      while p < |contents| && IsSpace(contents[p])
        invariant p <= |contents|
        invariant output == StripWhitespace(contents[..p])
        invariant p == 0 || p == |contents| || IsSpace(contents[p - 1]) || IsSpace(contents[p])
      {
        SpaceStep(contents, p);
        p := p + 1;
      }
      if p < |contents| {
        var q := p;
        while q < |contents| && !IsSpace(contents[q])
          invariant p <= q <= |contents|
          invariant forall k :: p <= k < q ==> !IsSpace(contents[k])
        {
          q := q + 1;
        }
        WordPrefix(contents, p, q);
        output := output + contents[p..q];
        p := q;
      }
    }
    assert contents[..p] == contents;
  }

  /** The two readers differ only for files that end in white space after a word. */
  lemma ReadResultWithoutTrailingSpace(contents: string)
    requires !EndsInSpace(contents)
    ensures ReadResult(contents) == StripWhitespace(contents)
  {
  }
}
