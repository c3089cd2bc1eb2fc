/** Merging printed lists is the same as listing all the files at once: when, and exactly when. */
module SignedProperties {
  import opened Sequences
  import opened SignedList
  import opened SignedMerge

  // ----- counting names -----

  lemma NamesOfElements(es: seq<Entry>, fs: seq<Entry>)
    requires Elements(es) == Elements(fs)
    ensures Names(es) == Names(fs)
  {
    forall i | 0 <= i < |es| ensures es[i].name in Names(fs) {
      assert es[i] in Elements(fs);
      var j :| 0 <= j < |fs| && fs[j] == es[i];
    }
    forall j | 0 <= j < |fs| ensures fs[j].name in Names(es) {
      assert fs[j] in Elements(es);
      var i :| 0 <= i < |es| && es[i] == fs[j];
    }
  }

  lemma {:induction false} DistinctIsCount(es: seq<Entry>)
    ensures |Names(es)| <= |es|
    ensures DistinctNames(es) <==> |Names(es)| == |es|
  {
    if es != [] {
      var rest, last := es[..|es| - 1], es[|es| - 1];
      DistinctIsCount(rest);
      assert es == rest + [last];
      assert Names(es) == Names(rest) + {last.name};
      if DistinctNames(rest) {
        DistinctSnoc(rest, last);
      } else if DistinctNames(es) {
        DistinctPrefix(rest, es);
      }
    }
  }

  /** Sequences of the same entries and the same length repeat names alike. */
  lemma DistinctByElements(es: seq<Entry>, fs: seq<Entry>)
    requires Elements(es) == Elements(fs) && |es| == |fs|
    ensures DistinctNames(es) <==> DistinctNames(fs)
  {
    NamesOfElements(es, fs);
    DistinctIsCount(es);
    DistinctIsCount(fs);
  }

  // ----- the lines of a printed list -----

  function PieceLines(es: seq<Entry>): seq<string> {
    if es == [] then [] else PieceLines(es[..|es| - 1]) + SplitLines(Line(es[|es| - 1]))
  }

  lemma {:induction false} RenderAppend(es: seq<Entry>, fs: seq<Entry>)
    ensures Render(es + fs) == Render(es) + Render(fs)
  {
    if es == [] {
      assert es + fs == fs;
    } else {
      assert (es + fs)[1..] == es[1..] + fs;
      RenderAppend(es[1..], fs);
      Associative(Line(es[0]), Render(es[1..]), Render(fs));
    }
  }

  lemma RenderEndsLine(es: seq<Entry>, e: Entry)
    ensures Render(es + [e]) == Render(es) + Line(e) && EndsLine(Line(e))
  {
    RenderAppend(es, [e]);
    assert Render([e]) == Line(e) + Render([]);
  }

  lemma {:induction false} RenderSplits(es: seq<Entry>)
    ensures SplitLines(Render(es)) == PieceLines(es)
    ensures es != [] ==> EndsLine(Render(es))
  {
    if es != [] {
      var rest, last := es[..|es| - 1], es[|es| - 1];
      assert es == rest + [last];
      RenderSplits(rest);
      RenderEndsLine(rest, last);
      hide SplitLines, Line, Render;
      if rest != [] {
        SplitAfterBreak(Render(rest), Line(last));
      } else {
        RenderEmpty();
        NothingBefore(Line(last));
        NothingBefore(SplitLines(Line(last)));
      }
    }
  }

  lemma RenderEmpty()
    ensures Render([]) == "" && PieceLines([]) == []
  {
  }

  lemma {:induction false} PieceLinesAppend(es: seq<Entry>, fs: seq<Entry>)
    ensures PieceLines(es + fs) == PieceLines(es) + PieceLines(fs)
  {
    if fs == [] {
      assert es + fs == es;
    } else {
      var n := |fs| - 1;
      assert (es + fs)[..|es + fs| - 1] == es + fs[..n];
      PieceLinesAppend(es, fs[..n]);
      Associative(PieceLines(es), PieceLines(fs[..n]), SplitLines(Line(fs[n])));
    }
  }

  // ----- names that survive -----

  /** Not empty, and free of everything that would end a line. */
  predicate Printable(n: string) {
    n != "" && forall k :: 0 <= k < |n| ==> !IsSeparator(n[k])
  }

  predicate AllPrintable(es: seq<Entry>) {
    forall i :: 0 <= i < |es| ==> Printable(es[i].name)
  }

  /** The first line of an entry: up to the first separator in its name. */
  function HeadLine(e: Entry): string {
    e.digest + "  " + e.name[..FirstSeparator(e.name)]
  }

  lemma HexIsNoSeparator(e: Entry, k: int)
    requires 0 <= k < 64
    ensures !IsSeparator(e.digest[k])
  {
    assert IsDigest(e.digest);
  }

  lemma LineAt(e: Entry, k: int)
    requires 0 <= k < 67 + |e.name|
    ensures |Line(e)| == 67 + |e.name|
    ensures Line(e)[k] == if k < 64 then e.digest[k] else if k < 66 then ' '
                          else if k < 66 + |e.name| then e.name[k - 66] else '\n'
  {
  }

  lemma FirstSeparatorOfLine(e: Entry)
    ensures FirstSeparator(Line(e)) == 66 + FirstSeparator(e.name)
    ensures Line(e)[..66 + FirstSeparator(e.name)] == HeadLine(e)
  {
    var i := 66 + FirstSeparator(e.name);
    LineAt(e, i);
    forall k | 0 <= k < i ensures !IsSeparator(Line(e)[k]) {
      LineAt(e, k);
      if k < 64 {
        HexIsNoSeparator(e, k);
      }
    }
    FirstSeparatorIs(Line(e), i);
  }

  /** An entry prints as its head line, and as nothing else exactly when its name has no separator. */
  lemma LinesOfEntry(e: Entry)
    ensures var ls := SplitLines(Line(e));
            ls != [] && ls[0] == HeadLine(e)
    ensures FirstSeparator(e.name) == |e.name| ==> SplitLines(Line(e)) == [HeadLine(e)]
  {
    FirstSeparatorOfLine(e);
    SplitStep(Line(e));
    if FirstSeparator(e.name) == |e.name| {
      LineAt(e, 66 + |e.name|);
      assert Line(e)[67 + |e.name|..] == "";
      SplitEmpty();
    }
  }

  /** What a head line reads back as, if it reads back at all. */
  lemma ParseHeadLine(e: Entry)
    ensures var m := ParseLine(HeadLine(e));
            && (m.Some? <==> FirstSeparator(e.name) > 0)
            && (m.Some? ==> m.value == Entry(e.name[..FirstSeparator(e.name)], e.digest))
  {
    var frag := e.name[..FirstSeparator(e.name)];
    var l := HeadLine(e);
    assert l[..64] == e.digest && l[64] == ' ' && l[65] == ' ' && l[66..] == frag;
    assert IsSeparator('\n');
  }

  lemma PrintableIsWhole(n: string)
    ensures Printable(n) <==> FirstSeparator(n) == |n| > 0
  {
    if Printable(n) {
      FirstSeparatorIs(n, |n|);
    }
  }

  /** Entries with printable names read back as themselves. */
  lemma {:induction false} PrintableReadsBack(es: seq<Entry>)
    requires AllPrintable(es)
    ensures AllParse(PieceLines(es)) && Parsed(PieceLines(es)) == es
  {
    if es != [] {
      var rest, last := es[..|es| - 1], es[|es| - 1];
      PrintableReadsBack(rest);
      PrintableIsWhole(last.name);
      LinesOfEntry(last);
      ParseHeadLine(last);
      assert last.name[..|last.name|] == last.name;
      ParsedSnoc(PieceLines(rest), HeadLine(last));
      assert es == rest + [last];
    }
  }

  lemma {:induction false} HeadLineAmong(es: seq<Entry>, i: int)
    requires 0 <= i < |es|
    ensures HeadLine(es[i]) in PieceLines(es)
  {
    var n := |es| - 1;
    if i < n {
      HeadLineAmong(es[..n], i);
    } else {
      LinesOfEntry(es[n]);
      assert HeadLine(es[n]) in SplitLines(Line(es[n]));
    }
  }

  lemma TwoLinesClash(lines: seq<string>, j: int, k: int)
    requires AllParse(lines) && 0 <= j < k < |lines|
    requires ParseLine(lines[j]).value.name == ParseLine(lines[k]).value.name
    ensures !Mergeable(lines)
  {
    hide ParseLine;
    assert Parsed(lines)[j].name == Parsed(lines)[k].name;
  }

  /** Entries that share a name can never be merged, printable or not. */
  lemma {:induction false} SharedNameNeverMerges(es: seq<Entry>)
    requires !DistinctNames(es)
    ensures !Mergeable(PieceLines(es))
  {
    var rest, last := es[..|es| - 1], es[|es| - 1];
    assert es == rest + [last];
    var ls, more := PieceLines(rest), SplitLines(Line(last));
    assert PieceLines(es) == ls + more;
    if !DistinctNames(rest) {
      SharedNameNeverMerges(rest);
      if Mergeable(ls + more) {
        MergeablePrefix(ls, ls + more);
      }
    } else if AllParse(ls + more) {
      DistinctSnoc(rest, last);
      var i :| 0 <= i < |rest| && rest[i].name == last.name;
      HeadLineAmong(rest, i);
      LinesOfEntry(last);
      ParseHeadLine(rest[i]);
      ParseHeadLine(last);
      var j :| 0 <= j < |ls| && ls[j] == HeadLine(rest[i]);
      assert (ls + more)[j] == HeadLine(rest[i]) && (ls + more)[|ls|] == HeadLine(last);
      TwoLinesClash(ls + more, j, |ls|);
    }
  }

  // ----- merging lists -----

  function Flat(ds: seq<seq<Entry>>): seq<Entry> {
    if ds == [] then [] else Flat(ds[..|ds| - 1]) + ds[|ds| - 1]
  }

  /** The same entries, each dictionary in the order it is printed. */
  function Joined(ds: seq<seq<Entry>>): seq<Entry> {
    if ds == [] then [] else Joined(ds[..|ds| - 1]) + Sort(ds[|ds| - 1])
  }

  lemma {:induction false} JoinedKeeps(ds: seq<seq<Entry>>)
    ensures |Joined(ds)| == |Flat(ds)| && Elements(Joined(ds)) == Elements(Flat(ds))
  {
    if ds != [] {
      var n := |ds| - 1;
      JoinedKeeps(ds[..n]);
      SortKeeps(ds[n]);
      ElementsAppend(Joined(ds[..n]), Sort(ds[n]));
      ElementsAppend(Flat(ds[..n]), ds[n]);
    }
  }

  /** Each text is what `ListText` prints for the dictionary at the same place. */
  ghost predicate Printed(ds: seq<seq<Entry>>, texts: seq<string>) {
    |ds| == |texts| && forall k :: 0 <= k < |ds| ==> DistinctNames(ds[k]) && ListText(ds[k]) == Ok(texts[k])
  }

  lemma {:induction false} LinesOfPrinted(ds: seq<seq<Entry>>, texts: seq<string>)
    requires Printed(ds, texts)
    ensures AllLines(texts) == PieceLines(Joined(ds))
    ensures Listable(Flat(ds))
  {
    if ds != [] {
      var n := |ds| - 1;
      LinesOfPrinted(ds[..n], texts[..n]);
      assert ListText(ds[n]) == Ok(texts[n]);
      RenderSplits(Sort(ds[n]));
      PieceLinesAppend(Joined(ds[..n]), Sort(ds[n]));
    }
  }

  /** Names that come back out of a merge are printable. */
  lemma ReadNamesArePrintable(texts: seq<string>, i: int)
    requires AllParse(AllLines(texts)) && 0 <= i < |AllLines(texts)|
    ensures Printable(Parsed(AllLines(texts))[i].name)
  {
    var l := AllLines(texts)[i];
    LineOfSomeText(texts, l);
    var k :| 0 <= k < |texts| && l in SplitLines(texts[k]);
    LinesHaveNoSeparator(texts[k], l);
    var name := ParseLine(l).value.name;
    assert name == l[66..];
    assert forall j :: 0 <= j < |name| ==> name[j] == l[66 + j];
  }

  lemma {:induction false} LineOfSomeText(texts: seq<string>, l: string)
    requires l in AllLines(texts)
    ensures exists k :: 0 <= k < |texts| && l in SplitLines(texts[k])
  {
    var n := |texts| - 1;
    if l in AllLines(texts[..n]) {
      LineOfSomeText(texts[..n], l);
      var k :| 0 <= k < |texts[..n]| && l in SplitLines(texts[..n][k]);
      assert l in SplitLines(texts[k]);
    } else {
      assert l in SplitLines(texts[n]);
    }
  }

  lemma PrintableByElements(es: seq<Entry>, fs: seq<Entry>)
    requires Elements(es) == Elements(fs) && AllPrintable(es)
    ensures AllPrintable(fs)
  {
    forall j | 0 <= j < |fs| ensures Printable(fs[j].name) {
      assert fs[j] in Elements(es);
      var i :| 0 <= i < |es| && es[i] == fs[j];
    }
  }

  /**
   Merging printed lists, byte for byte. If the dictionaries share a name the merge fails, as
   listing them together would. If they do not, the merge is the list of all of them together
   if and only if every name is printable.
   */
  lemma MergeOfPrinted(ds: seq<seq<Entry>>, texts: seq<string>)
    requires Printed(ds, texts)
    ensures !DistinctNames(Flat(ds)) ==> Merge(texts).Fail?
    ensures DistinctNames(Flat(ds)) ==>
              ListText(Flat(ds)).Ok? && (Merge(texts) == ListText(Flat(ds)) <==> AllPrintable(Flat(ds)))
  {
    LinesOfPrinted(ds, texts);
    JoinedKeeps(ds);
    var joined, flat := Joined(ds), Flat(ds);
    DistinctByElements(joined, flat);
    if !DistinctNames(flat) {
      SharedNameNeverMerges(joined);
    } else {
      if AllPrintable(flat) {
        PrintableByElements(flat, joined);
        PrintableReadsBack(joined);
        OrderDoesNotShow(joined, flat);
      }
      if Merge(texts) == ListText(flat) {
        MergedNamesArePrintable(texts, flat);
      }
    }
  }

  lemma MergedNamesArePrintable(texts: seq<string>, flat: seq<Entry>)
    requires DistinctNames(flat) && ListText(flat).Ok? && Merge(texts) == ListText(flat)
    ensures AllPrintable(flat)
  {
    var read := Parsed(AllLines(texts));
    TextIsCanonical(flat, read);
    SameMapSameEntries(flat, read);
    forall i | 0 <= i < |read| ensures Printable(read[i].name) {
      ReadNamesArePrintable(texts, i);
    }
    PrintableByElements(read, flat);
  }

  /** Merging one printed list gives that list back exactly when its names are printable. */
  lemma MergeOfOne(d: seq<Entry>, text: string)
    requires DistinctNames(d) && ListText(d) == Ok(text)
    ensures Merge([text]) == Ok(text) <==> AllPrintable(d)
  {
    MergeOfPrinted([d], [text]);
    assert Flat([d]) == Flat([]) + d == d;
  }

  // ----- what goes wrong with unprintable names -----

  /** A separator that `ListText` lets through, and that is not the first half of a pair. */
  predicate IsQuietSeparator(c: char) {
    IsSeparator(c) && c != '\n' && c != '\r'
  }

  /** A name that breaks after `x` and goes on with `z`. */
  function Broken(x: string, c: char, z: string): string {
    x + [c] + z
  }

  lemma BrokenSplits(x: string, c: char, z: string, a: Digest)
    requires IsQuietSeparator(c) && Printable(x)
    ensures var e := Entry(Broken(x, c, z), a);
            FirstSeparator(e.name) == |x| && SplitLines(Line(e)) == [HeadLine(e)] + SplitLines(z + "\n")
  {
    var e := Entry(Broken(x, c, z), a);
    assert e.name[|x|] == c && e.name[|x| + 1..] == z;
    assert forall k :: 0 <= k < |x| ==> e.name[k] == x[k];
    FirstSeparatorIs(e.name, |x|);
    FirstSeparatorOfLine(e);
    LineAt(e, 66 + |x|);
    assert Line(e) == (a + "  " + x) + [c] + (z + "\n");
    assert Line(e)[67 + |x|..] == z + "\n";
    SplitStep(Line(e));
  }

  lemma BrokenListable(x: string, c: char, z: string)
    requires IsQuietSeparator(c) && Printable(x) && Printable(z)
    ensures !HasLineBreak(Broken(x, c, z)) && !Printable(Broken(x, c, z))
  {
    assert IsSeparator('\n') && IsSeparator('\r');
    assert Broken(x, c, z)[|x|] == c;
  }

  /** The list of one entry is its line. */
  lemma OneLine(e: Entry)
    ensures Render([e]) == Line(e) && AllLines([Render([e])]) == SplitLines(Line(e))
    ensures !HasLineBreak(e.name) ==> ListText([e]) == Ok(Render([e]))
  {
    assert Sort([e]) == [e];
  }

  lemma PrintableSplits(z: string)
    requires Printable(z)
    ensures SplitLines(z + "\n") == [z]
  {
    var t := z + "\n";
    assert IsSeparator(t[|z|]) && forall k :: 0 <= k < |z| ==> t[k] == z[k];
    FirstSeparatorIs(t, |z|);
    SplitStep(t);
    SplitEmpty();
    assert t[..|z|] == z && t[|z| + 1..] == "";
  }

  /** A listed name that breaks into something that is no line makes the merge of its own list fail. */
  lemma MergeRefusesBrokenName(x: string, c: char, z: string, a: Digest)
    requires IsQuietSeparator(c) && Printable(x) && Printable(z) && ParseLine(z).None?
    ensures var d := [Entry(Broken(x, c, z), a)];
            ListText(d).Ok? && !AllPrintable(d) && Merge([ListText(d).value]) == Fail(BadLine)
  {
    var e := Entry(Broken(x, c, z), a);
    BrokenListable(x, c, z);
    OneLine(e);
    BrokenSplits(x, c, z, a);
    PrintableSplits(z);
    ParseHeadLine(e);
    var lines := SplitLines(Line(e));
    assert lines == [HeadLine(e), z];
    hide SplitLines, Line, HeadLine, ParseLine, Broken, Printable;
    assert ParseLine(lines[1]).None?;
    StopsHere([HeadLine(e)], z, lines);
  }

  /** Such names exist: a vertical tab between two letters. */
  lemma BrokenNameExists(a: Digest)
    ensures var d := [Entry("a\U{000B}b", a)];
            ListText(d).Ok? && !AllPrintable(d) && Merge([ListText(d).value]) == Fail(BadLine)
  {
    assert Broken("a", '\U{000B}', "b") == "a\U{000B}b";
    MergeRefusesBrokenName("a", '\U{000B}', "b", a);
  }

  /** The line of an entry without its line feed. */
  function Bare(e: Entry): string {
    e.digest + "  " + e.name
  }

  lemma BrokenIntoTwo(x: string, c: char, a: Digest, b: Digest, y: string)
    requires IsQuietSeparator(c) && Printable(x) && Printable(y)
    ensures var e := Entry(Broken(x, c, Bare(Entry(y, b))), a);
            var lines := SplitLines(Line(e));
            && !HasLineBreak(e.name) && !Printable(e.name)
            && AllParse(lines) && Parsed(lines) == [Entry(x, a), Entry(y, b)]
  {
    var z := Bare(Entry(y, b));
    var e, f := Entry(Broken(x, c, z), a), Entry(y, b);
    LinePrintable(f);
    BrokenListable(x, c, z);
    BrokenSplits(x, c, z, a);
    PrintableSplits(z);
    PrintableIsWhole(y);
    ParseHeadLine(e);
    ParseHeadLine(f);
    assert e.name[..|x|] == x && f.name[..|y|] == y;
    assert SplitLines(Line(e)) == [HeadLine(e), HeadLine(f)];
  }

  /**
   Worse: a single listed file whose name breaks into the text of a line merges, without any
   failure, into a list of two files that nobody listed.
   */
  lemma MergeNamesOtherFiles(x: string, c: char, a: Digest, b: Digest, y: string)
    requires IsQuietSeparator(c) && Printable(x) && Printable(y) && x != y
    ensures var d := [Entry(Broken(x, c, Bare(Entry(y, b))), a)];
            && ListText(d).Ok?
            && Merge([ListText(d).value]) == ListText([Entry(x, a), Entry(y, b)])
            && Merge([ListText(d).value]).Ok? && Merge([ListText(d).value]) != ListText(d)
  {
    var e := Entry(Broken(x, c, Bare(Entry(y, b))), a);
    var two := [Entry(x, a), Entry(y, b)];
    assert AllPrintable(two) && DistinctNames(two);
    BrokenIntoTwo(x, c, a, b, y);
    OneLine(e);
    assert !Printable([e][0].name) && !AllPrintable([e]) && DistinctNames([e]);
    hide *;
    MergeOfLines([Render([e])], two);
    MergeOfOne([e], Render([e]));
    PrintableListable(two);
  }

  lemma MergeOfLines(texts: seq<string>, es: seq<Entry>)
    requires AllParse(AllLines(texts)) && Parsed(AllLines(texts)) == es && DistinctNames(es)
    ensures Merge(texts) == ListText(es)
  {
  }

  lemma LinePrintable(e: Entry)
    requires Printable(e.name)
    ensures Printable(Bare(e))
  {
    var z := Bare(e);
    forall k | 0 <= k < |z| ensures !IsSeparator(z[k]) {
      LineAt(e, k);
      assert z[k] == Line(e)[k];
      if k < 64 {
        HexIsNoSeparator(e, k);
      }
    }
  }

  lemma PrintableListable(es: seq<Entry>)
    requires AllPrintable(es)
    ensures ListText(es).Ok?
  {
    forall i | 0 <= i < |es| ensures !HasLineBreak(es[i].name) {
      assert IsSeparator('\n') && IsSeparator('\r') && Printable(es[i].name);
    }
  }

  // ----- file sets -----

  function Together(sets: seq<seq<File>>): seq<File> {
    if sets == [] then [] else Together(sets[..|sets| - 1]) + sets[|sets| - 1]
  }

  function EntriesOfAll(sets: seq<seq<File>>): (ds: seq<seq<Entry>>)
    ensures |ds| == |sets| && forall k :: 0 <= k < |sets| ==> ds[k] == Entries(sets[k])
  {
    seq(|sets|, k requires 0 <= k < |sets| => Entries(sets[k]))
  }

  lemma EntriesAppend(a: seq<File>, b: seq<File>)
    ensures Entries(a + b) == Entries(a) + Entries(b)
  {
    hide Entries, BaseName;
  }

  lemma {:induction false} EntriesTogether(sets: seq<seq<File>>)
    ensures Entries(Together(sets)) == Flat(EntriesOfAll(sets))
  {
    if sets != [] {
      var n := |sets| - 1;
      EntriesTogether(sets[..n]);
      EntriesAppend(Together(sets[..n]), sets[n]);
      hide Entries, BaseName;
      assert EntriesOfAll(sets)[..n] == EntriesOfAll(sets[..n]);
    }
  }

  /**
   Jobs that each list their own files and merge the lists get the list one job would have
   made of all the files, and fail when it would; for files with unprintable names, and only
   for those, the merge does not give that list.
   */
  lemma MergeOfFileSets(sets: seq<seq<File>>, texts: seq<string>)
    requires |sets| == |texts| && forall k :: 0 <= k < |sets| ==> ListFiles(sets[k]) == Ok(texts[k])
    ensures ListFiles(Together(sets)).Fail? ==> Merge(texts).Fail?
    ensures ListFiles(Together(sets)).Ok? ==>
              (Merge(texts) == ListFiles(Together(sets)) <==> AllPrintable(Entries(Together(sets))))
  {
    EntriesTogether(sets);
    MergeOfPrinted(EntriesOfAll(sets), texts);
  }

  // ----- the order of the lists -----

  lemma {:induction false} AllLinesCut(texts: seq<string>, j: int)
    requires 0 <= j < |texts|
    ensures var others := texts[..j] + texts[j + 1..];
            && |AllLines(texts)| == |AllLines(others)| + |SplitLines(texts[j])|
            && Elements(AllLines(texts)) == Elements(AllLines(others)) + Elements(SplitLines(texts[j]))
  {
    var n := |texts| - 1;
    var others := texts[..j] + texts[j + 1..];
    ElementsAppend(AllLines(texts[..n]), SplitLines(texts[n]));
    if j == n {
      assert others == texts[..n];
    } else {
      var fewer := texts[..n][..j] + texts[..n][j + 1..];
      AllLinesCut(texts[..n], j);
      assert others[..|others| - 1] == fewer && others[|others| - 1] == texts[n];
      ElementsAppend(AllLines(fewer), SplitLines(texts[n]));
    }
  }

  lemma WithoutOne(texts: seq<string>, j: int)
    requires 0 <= j < |texts|
    ensures multiset(texts[..j] + texts[j + 1..]) == multiset(texts) - multiset{texts[j]}
  {
    assert texts == texts[..j] + [texts[j]] + texts[j + 1..];
  }

  lemma {:induction false} AllLinesBag(texts: seq<string>, texts': seq<string>)
    requires multiset(texts) == multiset(texts')
    ensures |AllLines(texts)| == |AllLines(texts')|
    ensures Elements(AllLines(texts)) == Elements(AllLines(texts'))
  {
    if texts == [] {
      assert |multiset(texts')| == 0;
    } else {
      var n := |texts| - 1;
      assert texts[n] in multiset(texts');
      var j :| 0 <= j < |texts'| && texts'[j] == texts[n];
      var others := texts'[..j] + texts'[j + 1..];
      WithoutOne(texts', j);
      WithoutOne(texts, n);
      assert texts[..n] + texts[n + 1..] == texts[..n];
      AllLinesBag(texts[..n], others);
      AllLinesCut(texts', j);
      AllLinesCut(texts, n);
    }
  }

  lemma ParsedByLines(lines: seq<string>, lines': seq<string>)
    requires Elements(lines) == Elements(lines') && AllParse(lines)
    ensures AllParse(lines') && Elements(Parsed(lines')) <= Elements(Parsed(lines))
  {
    hide ParseLine;
    forall i | 0 <= i < |lines'| ensures ParseLine(lines'[i]).Some? && ParseLine(lines'[i]).value in Parsed(lines) {
      assert lines'[i] in Elements(lines);
      var j :| 0 <= j < |lines| && lines[j] == lines'[i];
      assert Parsed(lines)[j] == ParseLine(lines'[i]).value;
    }
  }

  /** Whether lists merge, and into what, does not depend on their order. */
  lemma MergeOrderDoesNotMatter(texts: seq<string>, texts': seq<string>)
    requires multiset(texts) == multiset(texts')
    ensures Merge(texts).Ok? <==> Merge(texts').Ok?
    ensures Merge(texts).Ok? ==> Merge(texts) == Merge(texts')
  {
    AllLinesBag(texts, texts');
    var lines, lines' := AllLines(texts), AllLines(texts');
    if AllParse(lines) || AllParse(lines') {
      if AllParse(lines) {
        ParsedByLines(lines, lines');
      }
      ParsedByLines(lines', lines);
      ParsedByLines(lines, lines');
      DistinctByElements(Parsed(lines), Parsed(lines'));
      if DistinctNames(Parsed(lines)) {
        OrderDoesNotShow(Parsed(lines), Parsed(lines'));
      }
    }
  }
}
