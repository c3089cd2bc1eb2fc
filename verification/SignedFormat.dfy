/**
 The list format spelled out: which characters end a line, what a line is, which names are
 refused, which texts a check accepts, and which fault is reported.
 */
module SignedFormat {
  import opened Sequences
  import opened SignedList
  import opened SignedMerge
  import opened SignedProperties

  // ----- splitting -----

  /** Line feed to carriage return, the file, group and record separators, NEL, and the two Unicode line ends. */
  predicate EndsALine(c: char) {
    var n := c as int;
    10 <= n <= 13 || 28 <= n <= 30 || n == 133 || n == 8232 || n == 8233
  }

  predicate Unbroken(x: string) {
    forall k :: 0 <= k < |x| ==> !EndsALine(x[k])
  }

  lemma SeparatorsAre(c: char)
    ensures IsSeparator(c) <==> EndsALine(c)
  {
  }

  /** A text without such a character is one line, or none if it is empty. */
  lemma SplitPlain(x: string)
    requires Unbroken(x)
    ensures SplitLines(x) == if x == "" then [] else [x]
  {
    forall k | 0 <= k < |x| ensures !IsSeparator(x[k]) {
      SeparatorsAre(x[k]);
    }
    FirstSeparatorIs(x, |x|);
    if x == "" { SplitEmpty(); } else { SplitStep(x); }
  }

  lemma FirstSeparatorAfter(x: string, c: char, r: string)
    requires Unbroken(x) && EndsALine(c)
    ensures FirstSeparator(x + [c] + r) == |x|
  {
    var t := x + [c] + r;
    SeparatorsAre(c);
    assert t[|x|] == c;
    forall k | 0 <= k < |x| ensures !IsSeparator(t[k]) {
      assert t[k] == x[k];
      SeparatorsAre(x[k]);
    }
    FirstSeparatorIs(t, |x|);
  }

  /** Each of them ends a line, alone, but for a carriage return before a line feed. */
  lemma SplitAtOne(x: string, c: char, r: string)
    requires Unbroken(x) && EndsALine(c) && !(c == '\r' && r != "" && r[0] == '\n')
    ensures SplitLines(x + [c] + r) == [x] + SplitLines(r)
  {
    var t := x + [c] + r;
    FirstSeparatorAfter(x, c, r);
    SplitStep(t);
    assert t[..|x|] == x && t[|x| + 1..] == r && t[|x|] == c;
    assert |x| + 1 < |t| ==> t[|x| + 1] == r[0];
  }

  /** Those two together end one line. */
  lemma SplitAtPair(x: string, r: string)
    requires Unbroken(x)
    ensures SplitLines(x + ['\r', '\n'] + r) == [x] + SplitLines(r)
  {
    var t := x + ['\r', '\n'] + r;
    assert t == x + ['\r'] + (['\n'] + r);
    FirstSeparatorAfter(x, '\r', ['\n'] + r);
    SplitStep(t);
    assert t[..|x|] == x && t[|x| + 2..] == r && t[|x|] == '\r' && t[|x| + 1] == '\n';
  }

  /** Between two letters each of the ten characters makes two lines, so does the pair, and any other makes one. */
  lemma SplitBetweenLetters(c: char)
    ensures SplitLines(['a', c, 'b']) == if EndsALine(c) then ["a", "b"] else [['a', c, 'b']]
    ensures SplitLines("a\r\nb") == ["a", "b"]
  {
    SplitPlain("b");
    if EndsALine(c) {
      assert ['a', c, 'b'] == "a" + [c] + "b";
      SplitAtOne("a", c, "b");
    } else {
      SplitPlain(['a', c, 'b']);
    }
    assert "a\r\nb" == "a" + ['\r', '\n'] + "b";
    SplitAtPair("a", "b");
  }

  /** The lines of several texts, in the order of the texts. */
  lemma LinesOfTexts(texts: seq<string>, t: string)
    ensures AllLines([]) == [] && AllLines(texts + [t]) == AllLines(texts) + SplitLines(t)
  {
    assert (texts + [t])[..|texts|] == texts;
  }

  // ----- lines and names -----

  /** 64 characters among the digits and the letters a to f. */
  lemma DigestsAre(s: string)
    ensures IsDigest(s) <==> |s| == 64 && forall i :: 0 <= i < 64 ==> s[i] in "0123456789abcdef"
  {
    forall c: char ensures IsHex(c) <==> c in "0123456789abcdef" {
      HexAre(c);
    }
  }

  lemma HexAre(c: char)
    ensures IsHex(c) <==> c in "0123456789abcdef"
  {
    var s := "0123456789abcdef";
    if '0' <= c <= '9' {
      assert s[c as int - '0' as int] == c;
    } else if 'a' <= c <= 'f' {
      assert s[10 + c as int - 'a' as int] == c;
    }
  }

  /** `l` is the line of `e`: its digest, two spaces, and its name, which is not empty and has no line feed. */
  predicate IsLineOf(l: string, e: Entry) {
    l == e.digest + "  " + e.name && e.name != "" && '\n' !in e.name
  }

  /** A line reads as an entry exactly when it is the line of that entry. */
  lemma ParsesExactly(l: string, e: Entry)
    ensures ParseLine(l) == Some(e) <==> IsLineOf(l, e)
  {
    if ParseLine(l) == Some(e) {
      assert l == l[..64] + "  " + l[66..];
    }
    if IsLineOf(l, e) {
      assert IsDigest(e.digest);
      assert l[..64] == e.digest && l[64] == ' ' && l[65] == ' ' && l[66..] == e.name;
    }
  }

  lemma ParsesIfAny(l: string)
    ensures ParseLine(l).Some? <==> exists e :: IsLineOf(l, e)
  {
    if ParseLine(l).Some? {
      ParsesExactly(l, ParseLine(l).value);
    }
    forall e: Entry | IsLineOf(l, e) ensures ParseLine(l).Some? {
      ParsesExactly(l, e);
    }
  }

  /** A name is printable when it is not empty and no character of it ends a line. */
  lemma PrintableIs(n: string)
    ensures Printable(n) <==> n != "" && Unbroken(n)
  {
    forall k | 0 <= k < |n| ensures IsSeparator(n[k]) <==> EndsALine(n[k]) {
      SeparatorsAre(n[k]);
    }
  }

  // ----- printing -----

  predicate HasBreak(n: string) {
    '\n' in n || '\r' in n
  }

  /** A dictionary is refused exactly when a name has a line feed or a carriage return. */
  lemma RefusedExactly(es: seq<Entry>)
    ensures (exists i :: 0 <= i < |es| && HasBreak(es[i].name)) <==>
            ListText(es) == Fail(LineBreak)
    ensures ListText(es).Ok? || ListText(es) == Fail(LineBreak)
  {
  }

  function Concatenated(parts: seq<string>): string {
    if parts == [] then "" else parts[0] + Concatenated(parts[1..])
  }

  function PrintedLines(es: seq<Entry>): (lines: seq<string>)
    ensures |lines| == |es|
    ensures forall i :: 0 <= i < |es| ==> lines[i] == es[i].digest + "  " + es[i].name + "\n"
  {
    seq(|es|, i requires 0 <= i < |es| => es[i].digest + "  " + es[i].name + "\n")
  }

  lemma {:induction false} RenderIs(es: seq<Entry>)
    ensures Render(es) == Concatenated(PrintedLines(es))
  {
    if es != [] {
      RenderIs(es[1..]);
      assert PrintedLines(es)[1..] == PrintedLines(es[1..]);
    }
  }

  /** At the first difference `a` has the smaller character, or ends. */
  ghost predicate Before(a: string, b: string) {
    exists k :: LessAt(a, b, k)
  }

  ghost predicate Ascending(es: seq<Entry>) {
    forall i, j :: 0 <= i < j < |es| ==> Before(es[i].name, es[j].name)
  }

  /** `text` is the line of every entry of `es`, each with a line feed, in the order of `fs`. */
  ghost predicate PrintedIn(es: seq<Entry>, fs: seq<Entry>, text: string) {
    |fs| == |es| && Elements(fs) == Elements(es) && Ascending(fs) && text == Concatenated(PrintedLines(fs))
  }

  /** What is printed is every entry once, a line each, in ascending order of name. */
  lemma PrintsLines(es: seq<Entry>)
    requires DistinctNames(es) && ListText(es).Ok?
    ensures exists fs :: PrintedIn(es, fs, ListText(es).value)
  {
    var fs := Sort(es);
    SortKeeps(es);
    SortSorts(es);
    RenderIs(fs);
    forall i, j | 0 <= i < j < |fs| ensures Before(fs[i].name, fs[j].name) {
      LessIsLexicographic(fs[i].name, fs[j].name);
    }
    assert PrintedIn(es, fs, ListText(es).value);
  }

  // ----- merging -----

  /** The lines are those of `es`, one by one, and no two entries share a name. */
  predicate ReadsAs(lines: seq<string>, es: seq<Entry>) {
    |es| == |lines| && DistinctNames(es) && forall i :: 0 <= i < |lines| ==> IsLineOf(lines[i], es[i])
  }

  ghost predicate Readable(lines: seq<string>) {
    exists es :: ReadsAs(lines, es)
  }

  lemma ReadsAsParsed(lines: seq<string>, es: seq<Entry>)
    ensures ReadsAs(lines, es) <==> Mergeable(lines) && Parsed(lines) == es
  {
    hide ParseLine, IsLineOf;
    if ReadsAs(lines, es) {
      forall i | 0 <= i < |lines| ensures ParseLine(lines[i]) == Some(es[i]) {
        ParsesExactly(lines[i], es[i]);
      }
    }
    if Mergeable(lines) && Parsed(lines) == es {
      forall i | 0 <= i < |lines| ensures IsLineOf(lines[i], es[i]) {
        ParsesExactly(lines[i], es[i]);
      }
    }
  }

  lemma MergeableIsReadable(lines: seq<string>)
    ensures Mergeable(lines) <==> Readable(lines)
  {
    if Mergeable(lines) {
      ReadsAsParsed(lines, Parsed(lines));
    }
    if Readable(lines) {
      var es :| ReadsAs(lines, es);
      ReadsAsParsed(lines, es);
    }
  }

  /** A merge succeeds exactly when all lines read as entries with different names, and gives their list. */
  lemma MergesExactly(texts: seq<string>, es: seq<Entry>)
    ensures Merge(texts).Ok? <==> Readable(AllLines(texts))
    ensures ReadsAs(AllLines(texts), es) ==> Merge(texts) == ListText(es)
  {
    var lines := AllLines(texts);
    MergeableIsReadable(lines);
    ReadsAsParsed(lines, es);
    if Mergeable(lines) {
      forall i | 0 <= i < |lines| ensures Printable(Parsed(lines)[i].name) {
        ReadNamesArePrintable(texts, i);
      }
      PrintableListable(Parsed(lines));
    }
  }

  /** A line that is the line of no entry makes the merge fail, wherever it is. */
  lemma StrayLineFails(texts: seq<string>, k: int)
    requires 0 <= k < |AllLines(texts)| && !exists e :: IsLineOf(AllLines(texts)[k], e)
    ensures Merge(texts).Fail?
  {
    ParsesIfAny(AllLines(texts)[k]);
  }

  /** The first line up to which the texts do not read is reported: as no line, or as a name repeated. */
  lemma FirstFaultReported(texts: seq<string>, k: int)
    requires 0 <= k < |AllLines(texts)|
    requires Readable(AllLines(texts)[..k]) && !Readable(AllLines(texts)[..k + 1])
    ensures Merge(texts) == Fail(if exists e :: IsLineOf(AllLines(texts)[k], e) then TwoWithOneName else BadLine)
  {
    var lines := AllLines(texts);
    MergeableIsReadable(lines[..k]);
    MergeableIsReadable(lines[..k + 1]);
    ParsesIfAny(lines[k]);
    hide Readable, AllParse, Parsed, ParseLine;
    StopsAt(lines, k);
  }

  lemma StopsAt(lines: seq<string>, k: int)
    requires FaultAt(lines, k)
    ensures !Mergeable(lines) && FirstFault(lines) == k
  {
    if Mergeable(lines) {
      MergeablePrefix(lines[..k + 1], lines);
    } else {
      OneFault(lines, FirstFault(lines), k);
    }
  }

  /**
   Merging the lists of file sets, with the condition in full: it gives the list of all the
   files exactly when no name is empty or has a character that ends a line.
   */
  lemma MergeOfFileSetsInFull(sets: seq<seq<File>>, texts: seq<string>)
    requires |sets| == |texts| && forall k :: 0 <= k < |sets| ==> ListFiles(sets[k]) == Ok(texts[k])
    requires ListFiles(Together(sets)).Ok?
    ensures Merge(texts) == ListFiles(Together(sets)) <==>
            forall i :: 0 <= i < |Together(sets)| ==>
              var n := BaseName(Together(sets)[i].path); n != "" && Unbroken(n)
  {
    MergeOfFileSets(sets, texts);
    var es := Entries(Together(sets));
    hide Entries, BaseName, Merge, ListFiles, Together, Printable, Unbroken;
    forall i | 0 <= i < |es| ensures Printable(es[i].name) <==> es[i].name != "" && Unbroken(es[i].name) {
      PrintableIs(es[i].name);
    }
  }

  // ----- listing and checking files -----

  /** Listing fails for two files with one base name, else for a base name with a line break, else not. */
  lemma ListsExactly(files: seq<File>)
    ensures var twice := exists i, j :: 0 <= i < j < |files| && BaseName(files[i].path) == BaseName(files[j].path);
            var broken := exists i :: 0 <= i < |files| && HasBreak(BaseName(files[i].path));
            && (FileHashes(files) == if twice then Fail(TwoWithOneName) else Ok(Entries(files)))
            && (ListFiles(files).Ok? <==> !twice && !broken)
            && (twice ==> ListFiles(files) == Fail(TwoWithOneName))
            && (!twice && broken ==> ListFiles(files) == Fail(LineBreak))
  {
    var es := Entries(files);
    RefusedExactly(es);
    hide Entries, BaseName, ListText;
    assert forall i :: 0 <= i < |files| ==> es[i].name == BaseName(files[i].path);
  }

  /**
   For any data, printed or tampered with: a check succeeds exactly when the data is what is
   printed for some dictionary, and the files have distinct names and are that dictionary.
   */
  lemma AgreesOnlyWithAList(data: string, files: seq<File>)
    ensures Agrees(data, files) <==>
            && DistinctNames(Entries(files))
            && exists d :: DistinctNames(d) && ListText(d) == Ok(data) && ToMap(d) == ToMap(Entries(files))
  {
    var es := Entries(files);
    if DistinctNames(es) {
      forall d | DistinctNames(d) && ListText(d) == Ok(data) && ToMap(d) == ToMap(es) ensures Agrees(data, files) {
        AgreesExactly(d, data, files);
      }
    }
  }

  /** The same files agree with one text at most. */
  lemma AgreesWithOne(data: string, data': string, files: seq<File>)
    requires Agrees(data, files) && Agrees(data', files)
    ensures data == data'
  {
  }
}
