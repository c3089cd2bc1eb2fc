/**
 The list that gets signed: one line `<sha256>  <name>` for each file, sorted by name. Its
 text stands for the map from names to digests, and for nothing else.
 */
module SignedList {
  import opened Sequences

  predicate IsHex(c: char) {
    '0' <= c <= '9' || 'a' <= c <= 'f'
  }

  predicate IsDigest(s: string) {
    |s| == 64 && forall i :: 0 <= i < 64 ==> IsHex(s[i])
  }

  /** A SHA-256 in lower-case hexadecimal. */
  type Digest = s: string | IsDigest(s) witness seq(64, _ => '0')

  datatype Entry = Entry(name: string, digest: Digest)

  datatype Reason = LineBreak | BadLine | TwoWithOneName

  datatype Result<T> = Ok(value: T) | Fail(reason: Reason)

  // ----- dictionaries, in insertion order -----

  function Names(es: seq<Entry>): (ns: set<string>)
    ensures forall n :: n in ns <==> exists i :: 0 <= i < |es| && es[i].name == n
  {
    set i | 0 <= i < |es| :: es[i].name
  }

  predicate DistinctNames(es: seq<Entry>) {
    forall i, j :: 0 <= i < j < |es| ==> es[i].name != es[j].name
  }

  function ToMap(es: seq<Entry>): map<string, string> {
    if es == [] then map[] else ToMap(es[..|es| - 1])[es[|es| - 1].name := es[|es| - 1].digest]
  }

  lemma {:induction false} MapKeys(es: seq<Entry>)
    ensures ToMap(es).Keys == Names(es)
  {
    if es != [] {
      MapKeys(es[..|es| - 1]);
      assert Names(es) == Names(es[..|es| - 1]) + {es[|es| - 1].name};
    }
  }

  lemma {:induction false} MapHolds(es: seq<Entry>, i: int)
    requires DistinctNames(es) && 0 <= i < |es|
    ensures es[i].name in ToMap(es) && ToMap(es)[es[i].name] == es[i].digest
  {
    if i < |es| - 1 {
      MapHolds(es[..|es| - 1], i);
    }
  }

  /** Dictionaries are the same map exactly when they have the same entries. */
  lemma SameMapSameEntries(es: seq<Entry>, fs: seq<Entry>)
    requires DistinctNames(es) && DistinctNames(fs)
    ensures ToMap(es) == ToMap(fs) <==> Elements(es) == Elements(fs)
  {
    if ToMap(es) == ToMap(fs) {
      SameMapContained(es, fs);
      SameMapContained(fs, es);
    }
    if Elements(es) == Elements(fs) {
      SameEntriesContained(es, fs);
      SameEntriesContained(fs, es);
    }
  }

  lemma SameEntriesContained(es: seq<Entry>, fs: seq<Entry>)
    requires DistinctNames(es) && DistinctNames(fs) && Elements(es) == Elements(fs)
    ensures forall n :: n in ToMap(es) ==> n in ToMap(fs) && ToMap(es)[n] == ToMap(fs)[n]
  {
    MapKeys(es);
    forall n | n in ToMap(es) ensures n in ToMap(fs) && ToMap(es)[n] == ToMap(fs)[n] {
      var i :| 0 <= i < |es| && es[i].name == n;
      assert es[i] in Elements(fs);
      var j :| 0 <= j < |fs| && fs[j] == es[i];
      MapHolds(es, i);
      MapHolds(fs, j);
    }
  }

  lemma SameMapContained(es: seq<Entry>, fs: seq<Entry>)
    requires DistinctNames(es) && DistinctNames(fs) && ToMap(es) == ToMap(fs)
    ensures Elements(es) <= Elements(fs)
  {
    MapKeys(fs);
    forall e | e in es ensures e in fs {
      var i :| 0 <= i < |es| && es[i] == e;
      MapHolds(es, i);
      var j :| 0 <= j < |fs| && fs[j].name == e.name;
      MapHolds(fs, j);
      assert fs[j] == e;
    }
  }

  // ----- the order of names -----

  /** Lexicographic order by code point. */
  predicate Less(a: string, b: string) {
    b != [] && (a == [] || a[0] < b[0] || (a[0] == b[0] && Less(a[1..], b[1..])))
  }

  /** The first `k` characters agree, and there `a` ends or has the smaller one. */
  predicate LessAt(a: string, b: string, k: int) {
    0 <= k <= |a| && k < |b| && a[..k] == b[..k] && (k == |a| || a[k] < b[k])
  }

  lemma {:induction false} LessIsLexicographic(a: string, b: string)
    ensures Less(a, b) <==> exists k :: LessAt(a, b, k)
  {
    if a == [] && b != [] {
      assert LessAt(a, b, 0);
    } else if a != [] && b != [] {
      LessIsLexicographic(a[1..], b[1..]);
      if k :| LessAt(a[1..], b[1..], k) && a[0] == b[0] {
        assert a[..k + 1] == [a[0]] + a[1..][..k] && b[..k + 1] == [b[0]] + b[1..][..k];
        assert LessAt(a, b, k + 1);
      }
      if a[0] < b[0] {
        assert LessAt(a, b, 0);
      }
      if k :| LessAt(a, b, k) && k > 0 {
        assert a[..k] == b[..k] && a[0] == a[..k][0] == b[0];
        assert a[1..][..k - 1] == a[..k][1..] && b[1..][..k - 1] == b[..k][1..];
        assert LessAt(a[1..], b[1..], k - 1);
      }
    }
  }

  lemma {:induction false} LessIsStrict(a: string, b: string)
    ensures !(Less(a, b) && Less(b, a))
  {
    if a != [] && b != [] {
      LessIsStrict(a[1..], b[1..]);
    }
  }

  lemma {:induction false} LessIsTotal(a: string, b: string)
    ensures a == b || Less(a, b) || Less(b, a)
  {
    if a != [] && b != [] && a[0] == b[0] {
      LessIsTotal(a[1..], b[1..]);
      assert a == [a[0]] + a[1..] && b == [b[0]] + b[1..];
    }
  }

  lemma {:induction false} LessIsTransitive(a: string, b: string, c: string)
    requires Less(a, b) && Less(b, c)
    ensures Less(a, c)
  {
    if a != [] && a[0] == b[0] == c[0] {
      LessIsTransitive(a[1..], b[1..], c[1..]);
    }
  }

  // ----- sorting -----

  predicate Sorted(es: seq<Entry>) {
    forall i, j :: 0 <= i < j < |es| ==> Less(es[i].name, es[j].name)
  }

  function Insert(e: Entry, es: seq<Entry>): seq<Entry> {
    if es == [] || Less(e.name, es[0].name) then [e] + es else [es[0]] + Insert(e, es[1..])
  }

  function Sort(es: seq<Entry>): seq<Entry> {
    if es == [] then [] else Insert(es[|es| - 1], Sort(es[..|es| - 1]))
  }

  lemma {:induction false} InsertKeeps(e: Entry, es: seq<Entry>)
    ensures |Insert(e, es)| == |es| + 1 && Elements(Insert(e, es)) == Elements(es) + {e}
  {
    if es == [] || Less(e.name, es[0].name) {
    } else {
      InsertKeeps(e, es[1..]);
      assert es == [es[0]] + es[1..];
      assert Elements(es) == {es[0]} + Elements(es[1..]);
      assert Elements(Insert(e, es)) == {es[0]} + Elements(Insert(e, es[1..]));
    }
  }

  lemma {:induction false} InsertSorts(e: Entry, es: seq<Entry>)
    requires Sorted(es) && e.name !in Names(es)
    ensures Sorted(Insert(e, es))
  {
    if es == [] {
    } else if Less(e.name, es[0].name) {
      forall j | 0 < j < |es| ensures Less(e.name, es[j].name) {
        LessIsTransitive(e.name, es[0].name, es[j].name);
      }
    } else {
      LessIsTotal(e.name, es[0].name);
      assert es[0].name in Names(es);
      forall n | n in Names(es[1..]) ensures n in Names(es) {
        var i :| 0 <= i < |es[1..]| && es[1..][i].name == n;
        assert es[i + 1].name == n;
      }
      InsertSorts(e, es[1..]);
      InsertKeeps(e, es[1..]);
      var r := Insert(e, es[1..]);
      forall j | 0 <= j < |r| ensures Less(es[0].name, r[j].name) {
        assert r[j] in Elements(r);
        if r[j] != e {
          var i :| 0 <= i < |es[1..]| && es[1..][i] == r[j];
        }
      }
    }
  }

  lemma {:induction false} SortKeeps(es: seq<Entry>)
    ensures |Sort(es)| == |es| && Elements(Sort(es)) == Elements(es)
  {
    if es != [] {
      var n := |es| - 1;
      SortKeeps(es[..n]);
      InsertKeeps(es[n], Sort(es[..n]));
      assert es == es[..n] + [es[n]];
      assert Elements(es) == Elements(es[..n]) + {es[n]};
    }
  }

  lemma {:induction false} SortSorts(es: seq<Entry>)
    requires DistinctNames(es)
    ensures Sorted(Sort(es))
  {
    if es != [] {
      var n := |es| - 1;
      SortSorts(es[..n]);
      SortKeeps(es[..n]);
      forall e | e in Sort(es[..n]) ensures e.name != es[n].name {
        assert e in Elements(es[..n]);
        var i :| 0 <= i < n && es[i] == e;
      }
      InsertSorts(es[n], Sort(es[..n]));
    }
  }

  lemma NoElements(es: seq<Entry>)
    ensures es == [] <==> Elements(es) == {}
  {
    if es != [] {
      assert es[0] in Elements(es);
    }
  }

  /** There is only one way to sort a set of entries. */
  lemma {:induction false} SortedIsUnique(es: seq<Entry>, fs: seq<Entry>)
    requires Sorted(es) && Sorted(fs) && Elements(es) == Elements(fs)
    ensures es == fs
  {
    NoElements(es);
    NoElements(fs);
    if es != [] {
      HeadsAgree(es, fs);
      assert es == [es[0]] + es[1..] && fs == [fs[0]] + fs[1..];
      NotInTail(es);
      NotInTail(fs);
      assert Elements(es[1..]) == Elements(es) - {es[0]};
      assert Elements(fs[1..]) == Elements(fs) - {fs[0]};
      SortedIsUnique(es[1..], fs[1..]);
    }
  }

  lemma NotInTail(es: seq<Entry>)
    requires Sorted(es) && es != []
    ensures es[0] !in es[1..]
  {
    if es[0] in es[1..] {
      var i :| 0 <= i < |es[1..]| && es[1..][i] == es[0];
      assert Less(es[0].name, es[i + 1].name);
      LessIsStrict(es[0].name, es[0].name);
    }
  }

  lemma HeadsAgree(es: seq<Entry>, fs: seq<Entry>)
    requires Sorted(es) && Sorted(fs) && Elements(es) == Elements(fs) && es != []
    ensures fs != [] && es[0] == fs[0]
  {
    assert es[0] in Elements(fs);
    var j :| 0 <= j < |fs| && fs[j] == es[0];
    assert fs[0] in Elements(es);
    var i :| 0 <= i < |es| && es[i] == fs[0];
    LessIsStrict(es[0].name, fs[0].name);
  }

  // ----- the text -----

  function Line(e: Entry): string {
    e.digest + "  " + e.name + "\n"
  }

  function Render(es: seq<Entry>): string {
    if es == [] then "" else Line(es[0]) + Render(es[1..])
  }

  predicate HasLineBreak(n: string) {
    '\n' in n || '\r' in n
  }

  predicate Listable(es: seq<Entry>) {
    forall i :: 0 <= i < |es| ==> !HasLineBreak(es[i].name)
  }

  function ListText(es: seq<Entry>): Result<string> {
    if Listable(es) then Ok(Render(Sort(es))) else Fail(LineBreak)
  }

  lemma {:induction false} NameEndsAtBreak(n: string, r: string, n': string, r': string)
    requires '\n' !in n && '\n' !in n' && n + "\n" + r == n' + "\n" + r'
    ensures n == n' && r == r'
  {
    var t := n + "\n" + r;
    assert t[|n|] == '\n' && t[|n'|] == '\n';
    assert n == t[..|n|] && n' == t[..|n'|];
    assert r == t[|n| + 1..] && r' == t[|n'| + 1..];
  }

  lemma LineParts(e: Entry, r: string)
    ensures var t := Line(e) + r;
            |t| >= 67 && t[..64] == e.digest && t[66..] == e.name + "\n" + r
  {
  }

  /** Different sequences of entries print differently. */
  lemma {:induction false} RenderIsInjective(es: seq<Entry>, fs: seq<Entry>)
    requires Listable(es) && Listable(fs) && Render(es) == Render(fs)
    ensures es == fs
  {
    if es == [] || fs == [] {
    } else {
      LineParts(es[0], Render(es[1..]));
      LineParts(fs[0], Render(fs[1..]));
      NameEndsAtBreak(es[0].name, Render(es[1..]), fs[0].name, Render(fs[1..]));
      assert es[0] == fs[0];
      RenderIsInjective(es[1..], fs[1..]);
      assert es == [es[0]] + es[1..] && fs == [fs[0]] + fs[1..];
    }
  }

  lemma ListableElements(es: seq<Entry>, fs: seq<Entry>)
    requires Elements(es) == Elements(fs)
    ensures Listable(es) == Listable(fs)
  {
    forall i | 0 <= i < |es| ensures es[i] in fs { assert es[i] in Elements(fs); }
    forall i | 0 <= i < |fs| ensures fs[i] in es { assert fs[i] in Elements(es); }
  }

  /** The order in which a dictionary was filled does not show in its list. */
  lemma OrderDoesNotShow(es: seq<Entry>, fs: seq<Entry>)
    requires DistinctNames(es) && DistinctNames(fs) && Elements(es) == Elements(fs)
    ensures ListText(es) == ListText(fs)
  {
    ListableElements(es, fs);
    SortKeeps(es);
    SortKeeps(fs);
    SortSorts(es);
    SortSorts(fs);
    SortedIsUnique(Sort(es), Sort(fs));
  }

  /**
   The text of a list is canonical: two dictionaries give the same text, or both none, when
   they are the same map; and when a text comes out it is the same only if they are.
   */
  lemma TextIsCanonical(es: seq<Entry>, fs: seq<Entry>)
    requires DistinctNames(es) && DistinctNames(fs)
    ensures ToMap(es) == ToMap(fs) ==> ListText(es) == ListText(fs)
    ensures ListText(es).Ok? && ListText(es) == ListText(fs) ==> ToMap(es) == ToMap(fs)
  {
    SameMapSameEntries(es, fs);
    if ToMap(es) == ToMap(fs) {
      OrderDoesNotShow(es, fs);
    }
    if ListText(es).Ok? && ListText(es) == ListText(fs) {
      SortKeeps(es);
      SortKeeps(fs);
      ListableElements(es, Sort(es));
      ListableElements(fs, Sort(fs));
      RenderIsInjective(Sort(es), Sort(fs));
    }
  }
}
