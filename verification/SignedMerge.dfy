/**
 Listing files, reading lists back, merging lists, and checking files against a list.
 */
module SignedMerge {
  import opened Sequences
  import opened SignedList

  // ----- splitting a text into lines -----

  /** The characters at which a text splits into lines. */
  predicate IsSeparator(c: char) {
    c as int in {0x0A, 0x0B, 0x0C, 0x0D, 0x1C, 0x1D, 0x1E, 0x85, 0x2028, 0x2029}
  }

  function FirstSeparatorFrom(t: string, from: nat): (i: nat)
    requires from <= |t|
    ensures from <= i <= |t| && (i < |t| ==> IsSeparator(t[i]))
    ensures forall k :: from <= k < i ==> !IsSeparator(t[k])
    decreases |t| - from
  {
    if from == |t| || IsSeparator(t[from]) then from else FirstSeparatorFrom(t, from + 1)
  }

  function FirstSeparator(t: string): (i: nat)
    ensures i <= |t| && (i < |t| ==> IsSeparator(t[i]))
    ensures forall k :: 0 <= k < i ==> !IsSeparator(t[k])
  {
    FirstSeparatorFrom(t, 0)
  }

  /** Carriage return and line feed together are one separator. */
  function SeparatorLength(t: string, i: nat): (n: nat)
    requires i < |t|
    ensures 1 <= n <= 2
  {
    if t[i] == '\r' && i + 1 < |t| && t[i + 1] == '\n' then 2 else 1
  }

  function SplitLines(t: string): seq<string>
    decreases |t|
  {
    if t == "" then []
    else
      var i := FirstSeparator(t);
      if i == |t| then [t] else [t[..i]] + SplitLines(t[i + SeparatorLength(t, i)..])
  }

  lemma FirstSeparatorIs(t: string, i: nat)
    requires i <= |t| && (i < |t| ==> IsSeparator(t[i])) && forall k :: 0 <= k < i ==> !IsSeparator(t[k])
    ensures FirstSeparator(t) == i
  {
    var f := FirstSeparator(t);
  }

  lemma SplitStep(t: string)
    requires t != ""
    ensures var i := FirstSeparator(t);
            SplitLines(t) == if i == |t| then [t] else [t[..i]] + SplitLines(t[i + SeparatorLength(t, i)..])
  {
  }

  predicate EndsLine(u: string) {
    u != "" && u[|u| - 1] == '\n'
  }

  /** What follows a final line feed does not move the first separator. */
  lemma FirstSeparatorStays(u: string, r: string)
    requires EndsLine(u)
    ensures var i := FirstSeparator(u);
            && i < |u| && FirstSeparator(u + r) == i
            && SeparatorLength(u + r, i) == SeparatorLength(u, i) <= |u| - i
  {
    var t := u + r;
    var i := FirstSeparator(u);
    assert IsSeparator(u[|u| - 1]);
    assert forall k :: 0 <= k < |u| ==> t[k] == u[k];
    FirstSeparatorIs(t, i);
  }

  lemma CutAppend(u: string, r: string, k: nat)
    requires k <= |u|
    ensures (u + r)[..k] == u[..k] && (u + r)[k..] == u[k..] + r
    ensures k == |u| ==> u[k..] == "" && u[k..] + r == r
    ensures k < |u| && EndsLine(u) ==> EndsLine(u[k..])
  {
  }

  lemma SplitEmpty()
    ensures SplitLines("") == []
  {
  }

  /** After a line feed, splitting starts afresh. */
  lemma {:induction false} SplitAfterBreak(u: string, r: string)
    requires EndsLine(u)
    ensures SplitLines(u + r) == SplitLines(u) + SplitLines(r)
    decreases |u|
  {
    var i := FirstSeparator(u);
    assert u != "";
    hide *;
    SplitStep(u);
    SplitStep(u + r);
    FirstSeparatorStays(u, r);
    var n := SeparatorLength(u, i);
    CutAppend(u, r, i);
    CutAppend(u, r, i + n);
    var rest := u[i + n..];
    Associative([u[..i]], SplitLines(rest), SplitLines(r));
    if i + n < |u| {
      SplitAfterBreak(rest, r);
    } else {
      SplitEmpty();
      NothingBefore(SplitLines(r));
    }
  }

  lemma {:induction false} LinesHaveNoSeparator(t: string, l: string)
    requires l in SplitLines(t)
    ensures forall k :: 0 <= k < |l| ==> !IsSeparator(l[k])
    decreases |t|
  {
    var i := FirstSeparator(t);
    if i < |t| && l != t[..i] {
      LinesHaveNoSeparator(t[i + SeparatorLength(t, i)..], l);
    }
  }

  // ----- reading a line back -----

  datatype Option<T> = None | Some(value: T)

  /** 64 hexadecimal digits, two spaces, and a name of at least one character. */
  function ParseLine(l: string): Option<Entry> {
    if |l| >= 67 && IsDigest(l[..64]) && l[64] == ' ' && l[65] == ' ' && '\n' !in l[66..]
    then Some(Entry(l[66..], l[..64]))
    else None
  }

  predicate AllParse(lines: seq<string>) {
    forall i :: 0 <= i < |lines| ==> ParseLine(lines[i]).Some?
  }

  function Parsed(lines: seq<string>): (es: seq<Entry>)
    requires AllParse(lines)
    ensures |es| == |lines| && forall i :: 0 <= i < |lines| ==> es[i] == ParseLine(lines[i]).value
  {
    seq(|lines|, i requires 0 <= i < |lines| => ParseLine(lines[i]).value)
  }

  function AllLines(texts: seq<string>): seq<string> {
    if texts == [] then [] else AllLines(texts[..|texts| - 1]) + SplitLines(texts[|texts| - 1])
  }

  /** All lines parse, and no two name the same file. */
  predicate Mergeable(lines: seq<string>) {
    AllParse(lines) && DistinctNames(Parsed(lines))
  }

  /** A dictionary grows by a name it does not have, and only by such a name. */
  lemma DistinctSnoc(es: seq<Entry>, e: Entry)
    requires DistinctNames(es)
    ensures DistinctNames(es + [e]) <==> e.name !in Names(es)
  {
    if e.name in Names(es) {
      var j :| 0 <= j < |es| && es[j].name == e.name;
      assert (es + [e])[j].name == (es + [e])[|es|].name;
    }
  }

  lemma DistinctPrefix(es: seq<Entry>, fs: seq<Entry>)
    requires es <= fs && DistinctNames(fs)
    ensures DistinctNames(es)
  {
    forall i | 0 <= i < |es| ensures es[i] == fs[i] {}
  }

  /** Lines that cannot be merged cannot begin anything that can. */
  lemma MergeablePrefix(lines: seq<string>, all: seq<string>)
    requires lines <= all && Mergeable(all)
    ensures Mergeable(lines)
  {
    hide ParseLine;
    forall i | 0 <= i < |lines| ensures lines[i] == all[i] {}
    DistinctPrefix(Parsed(lines), Parsed(all));
  }

  /** Merging goes wrong at line `k`, and not before. */
  predicate FaultAt(lines: seq<string>, k: int) {
    0 <= k < |lines| && Mergeable(lines[..k]) && !Mergeable(lines[..k + 1])
  }

  function FirstFault(lines: seq<string>): (k: nat)
    requires !Mergeable(lines)
    ensures FaultAt(lines, k)
  {
    var n := |lines| - 1;
    assert lines[..n + 1] == lines;
    if Mergeable(lines[..n]) then n
    else
      var k := FirstFault(lines[..n]);
      assert lines[..n][..k] == lines[..k] && lines[..n][..k + 1] == lines[..k + 1];
      k
  }

  lemma OneFault(lines: seq<string>, j: int, k: int)
    requires FaultAt(lines, j) && FaultAt(lines, k)
    ensures j == k
  {
    if j < k {
      MergeablePrefix(lines[..j + 1], lines[..k]);
    } else if k < j {
      MergeablePrefix(lines[..k + 1], lines[..j]);
    }
  }

  /** The union of lists; no two lines may name the same file. The first faulty line is reported. */
  function Merge(texts: seq<string>): Result<string> {
    var lines := AllLines(texts);
    if Mergeable(lines) then ListText(Parsed(lines))
    else if ParseLine(lines[FirstFault(lines)]).None? then Fail(BadLine)
    else Fail(TwoWithOneName)
  }

  // ----- files -----

  /** A file to list: its path, and the digest of its contents. */
  datatype File = File(path: string, digest: Digest)

  /** What follows the last slash. */
  function BaseName(path: string): (n: string)
    ensures '/' !in n && |n| <= |path| && n == path[|path| - |n|..]
    ensures |n| < |path| ==> path[|path| - |n| - 1] == '/'
  {
    if path == "" || path[|path| - 1] == '/' then ""
    else BaseName(path[..|path| - 1]) + [path[|path| - 1]]
  }

  function Entries(files: seq<File>): (es: seq<Entry>)
    ensures |es| == |files|
    ensures forall i :: 0 <= i < |files| ==> es[i] == Entry(BaseName(files[i].path), files[i].digest)
  {
    seq(|files|, i requires 0 <= i < |files| => Entry(BaseName(files[i].path), files[i].digest))
  }

  function FileHashes(files: seq<File>): Result<seq<Entry>> {
    if DistinctNames(Entries(files)) then Ok(Entries(files)) else Fail(TwoWithOneName)
  }

  function ListFiles(files: seq<File>): Result<string> {
    match FileHashes(files)
    case Ok(es) => ListText(es)
    case Fail(reason) => Fail(reason)
  }

  /** Whether the files agree with the list `data`. */
  predicate Agrees(data: string, files: seq<File>) {
    ListFiles(files) == Ok(data)
  }

  /**
   Against a list printed from a dictionary, a check succeeds exactly when the files have
   distinct names and are, as a map from names to digests, that dictionary.
   */
  lemma AgreesExactly(d: seq<Entry>, data: string, files: seq<File>)
    requires DistinctNames(d) && ListText(d) == Ok(data)
    ensures Agrees(data, files) <==> DistinctNames(Entries(files)) && ToMap(Entries(files)) == ToMap(d)
  {
    if DistinctNames(Entries(files)) {
      TextIsCanonical(d, Entries(files));
    }
  }

  // ----- the loops -----

  method ComputeFileHashes(files: seq<File>) returns (r: Result<seq<Entry>>)
    ensures r == FileHashes(files)
  {
    var hashes := [];
    ghost var all := Entries(files);
    assert DistinctNames(hashes) && all[..0] == hashes;
    hide DistinctNames, Names, BaseName, Entries, IsDigest;
    for i := 0 to |files|
      invariant hashes == all[..i] && DistinctNames(hashes)
    {
      var entry := Entry(BaseName(files[i].path), files[i].digest);
      TakeSnoc(all, i);
      DistinctSnoc(hashes, entry);
      if entry.name in Names(hashes) {
        if DistinctNames(all) {
          DistinctPrefix(all[..i + 1], all);
        }
        return Fail(TwoWithOneName);
      }
      hashes := hashes + [entry];
    }
    assert all[..|files|] == all;
    return Ok(hashes);
  }

  lemma ParsedSnoc(lines: seq<string>, l: string)
    requires AllParse(lines)
    ensures AllParse(lines + [l]) <==> ParseLine(l).Some?
    ensures ParseLine(l).Some? ==> Parsed(lines + [l]) == Parsed(lines) + [ParseLine(l).value]
  {
    hide ParseLine;
    assert (lines + [l])[|lines|] == l;
  }

  lemma ReadOn(seen: seq<string>, lines: seq<string>, i: nat)
    requires i < |lines|
    ensures seen + lines[..i + 1] == seen + lines[..i] + [lines[i]]
    ensures seen + lines[..i] + [lines[i]] <= seen + lines
    ensures seen + lines[..0] == seen && seen + lines[..|lines|] == seen + lines
  {
  }

  lemma {:induction false} ReadPrefix(texts: seq<string>, k: nat)
    requires k < |texts|
    ensures AllLines(texts[..k + 1]) == AllLines(texts[..k]) + SplitLines(texts[k])
    ensures AllLines(texts[..k + 1]) <= AllLines(texts)
    decreases |texts| - k
  {
    assert texts[..k + 1][..k] == texts[..k];
    if k + 1 < |texts| {
      ReadPrefix(texts, k + 1);
    } else {
      assert texts[..k + 1] == texts;
    }
  }

  /** Where reading stops is the first fault of all the lines. */
  lemma StopsHere(seen: seq<string>, l: string, all: seq<string>)
    requires seen + [l] <= all && Mergeable(seen) && !Mergeable(seen + [l])
    ensures !Mergeable(all) && all[FirstFault(all)] == l
  {
    hide AllParse, Parsed, DistinctNames;
    if Mergeable(all) {
      MergeablePrefix(seen + [l], all);
    } else {
      assert all[..|seen|] == seen && all[..|seen| + 1] == seen + [l];
      OneFault(all, FirstFault(all), |seen|);
    }
  }

  /** Reads the lists line by line into one dictionary, and stops at the first fault. */
  method ComputeMerge(texts: seq<string>) returns (r: Result<string>)
    ensures r == Merge(texts)
  {
    var hashes := [];
    ghost var all := AllLines(texts);
    ghost var seen := [];
    assert Mergeable([]) && Parsed([]) == [] && AllLines(texts[..0]) == [];
    hide DistinctNames, Names, ParseLine, SplitLines, IsDigest, Parsed, AllParse, AllLines, ListText, FirstFault;
    for k := 0 to |texts|
      invariant seen == AllLines(texts[..k]) && Mergeable(seen) && hashes == Parsed(seen)
    {
      var lines := SplitLines(texts[k]);
      ghost var before := seen;
      ReadPrefix(texts, k);
      assert before + lines[..0] == before;
      for i := 0 to |lines|
        invariant seen == before + lines[..i] && Mergeable(seen) && hashes == Parsed(seen)
      {
        var m := ParseLine(lines[i]);
        ReadOn(before, lines, i);
        ParsedSnoc(seen, lines[i]);
        if !Mergeable(seen + [lines[i]]) {
          StopsHere(seen, lines[i], all);
        }
        if m.None? {
          return Fail(BadLine);
        }
        DistinctSnoc(hashes, m.value);
        if m.value.name in Names(hashes) {
          return Fail(TwoWithOneName);
        }
        seen := seen + [lines[i]];
        hashes := hashes + [m.value];
      }
      assert lines[..|lines|] == lines;
    }
    assert texts[..|texts|] == texts;
    return ListText(hashes);
  }
}
