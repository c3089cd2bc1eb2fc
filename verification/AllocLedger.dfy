/** The allocation counters agree with the objects that were handed out. */
module AllocLedger {
  import opened AllocSpec
  import opened AllocSafety
  import opened Sums

  /** Slow-path objects: all of them, those asked for without a context, and a context's two kinds. */
  datatype Book = Slow | NoContext | Soh(c: int) | Uoh(c: int)

  predicate In(o: Obj, book: Book) {
    o.path != Inline &&
    match book
    case Slow => true
    case NoContext => o.caller < 0
    case Soh(c) => o.caller == c && o.path != OldHeap
    case Uoh(c) => o.caller == c && o.path == OldHeap
  }

  /** Total size of the objects entered in a book. */
  function Tally(os: seq<Obj>, book: Book): int {
    if os == [] then 0
    else Tally(os[..|os| - 1], book) + (if In(os[|os| - 1], book) then os[|os| - 1].size else 0)
  }

  lemma TallySnoc(os: seq<Obj>, o: Obj, book: Book)
    ensures Tally(os + [o], book) == Tally(os, book) + (if In(o, book) then o.size else 0)
  {
    assert (os + [o])[..|os|] == os;
  }

  lemma {:induction false} TallyOfNone(os: seq<Obj>, book: Book)
    requires forall i :: 0 <= i < |os| ==> !In(os[i], book)
    ensures Tally(os, book) == 0
  {
    if os != [] {
      TallyOfNone(os[..|os| - 1], book);
    }
  }

  ghost predicate ContextKept(os: seq<Obj>, w: Context, c: int) {
    w.bytes == Signed64(Tally(os, Soh(c))) && w.bytesUoh == Signed64(Tally(os, Uoh(c)))
  }

  ghost predicate BooksKept(s: State) {
    && s.allocatedBytes == Tally(s.objs, Slow) % WORD64
    && forall c :: 0 <= c < |s.ctxs| ==> ContextKept(s.objs, s.ctxs[c], c)
  }

  lemma SignedAdds(x: int, y: int)
    ensures Signed64(Signed64(x) + Signed64(y)) == Signed64(x + y)
  {
  }

  /** A call that returns an object adds exactly that object, and moves no counter itself. */
  lemma CoreAddsOne(g: Config, s: State, c: int, size: int, oldHeap: bool, answer: int)
    requires -1 <= c < |s.ctxs| && CoreResult(g, s, c, size, oldHeap, answer) != 0
    ensures var t := CoreStep(g, s, c, size, oldHeap, answer);
            && (exists o :: t.objs == s.objs + [o] && o.size == size && o.caller == c && o.path != Inline
                            && (o.path == OldHeap <==> oldHeap))
            && t.allocatedBytes == s.allocatedBytes && |t.ctxs| == |s.ctxs|
            && forall d :: 0 <= d < |s.ctxs| ==>
                 t.ctxs[d].bytes == s.ctxs[d].bytes && t.ctxs[d].bytesUoh == s.ctxs[d].bytesUoh
  {
    var t := CoreStep(g, s, c, size, oldHeap, answer);
    var o := t.objs[|s.objs|];
    assert t.objs == s.objs + [o] && o.size == size && o.caller == c && o.path != Inline
           && (o.path == OldHeap <==> oldHeap);
  }

  lemma EnteredIn(o: Obj)
    requires o.path != Inline
    ensures In(o, Slow)
    ensures forall d :: In(o, Soh(d)) <==> o.caller == d && o.path != OldHeap
    ensures forall d :: In(o, Uoh(d)) <==> o.caller == d && o.path == OldHeap
  {
  }

  lemma AllocKeepsBooks(g: Config, s: State, c: int, size: int, oldHeap: bool, answer: int)
    requires BooksKept(s) && -1 <= c < |s.ctxs| && CoreResult(g, s, c, size, oldHeap, answer) != 0
    ensures BooksKept(Counted(CoreStep(g, s, c, size, oldHeap, answer), c, size, oldHeap))
  {
    CoreAddsOne(g, s, c, size, oldHeap, answer);
    hide CoreStep, CoreResult, Signed64, Tally, In;
    var u := CoreStep(g, s, c, size, oldHeap, answer);
    var t := Counted(u, c, size, oldHeap);
    var o :| u.objs == s.objs + [o] && o.size == size && o.caller == c && o.path != Inline
             && (o.path == OldHeap <==> oldHeap);
    EnteredIn(o);
    TallySnoc(s.objs, o, Slow);
    forall d | 0 <= d < |t.ctxs| ensures ContextKept(t.objs, t.ctxs[d], d) {
      assert ContextKept(s.objs, s.ctxs[d], d);
      TallySnoc(s.objs, o, Soh(d));
      TallySnoc(s.objs, o, Uoh(d));
      SignedAdds(Tally(s.objs, Soh(d)), size);
      SignedAdds(Tally(s.objs, Uoh(d)), size);
    }
  }

  lemma FastBumpKeepsBooks(s: State, c: int, size: int)
    requires BooksKept(s) && 0 <= c < |s.ctxs|
    ensures BooksKept(BumpStep(s, c, size, Inline))
  {
    var t := BumpStep(s, c, size, Inline);
    var o := Obj(s.ctxs[c].ptr, size, s.ctxs[c].blk, c, Inline);
    TallySnoc(s.objs, o, Slow);
    forall d | 0 <= d < |t.ctxs| ensures ContextKept(t.objs, t.ctxs[d], d) {
      assert ContextKept(s.objs, s.ctxs[d], d);
      TallySnoc(s.objs, o, Soh(d));
      TallySnoc(s.objs, o, Uoh(d));
    }
  }

  lemma NewContextKeepsBooks(g: Config, s: State)
    requires BooksKept(s) && Inv(g, s)
    ensures BooksKept(Step(g, s, NewContext))
  {
    var n := |s.ctxs|;
    forall i | 0 <= i < |s.objs| ensures !In(s.objs[i], Soh(n)) && !In(s.objs[i], Uoh(n)) {
      assert InBlock(g, s.blocks, s.objs[i]);
    }
    TallyOfNone(s.objs, Soh(n));
    TallyOfNone(s.objs, Uoh(n));
  }

  lemma StepKeepsBooks(g: Config, s: State, op: Op)
    requires g.Ok() && BooksKept(s) && Inv(g, s) && Legal(g, s, op)
    ensures BooksKept(Step(g, s, op))
  {
    match op
    case Alloc(c, size, oldHeap, answer) =>
      if CoreResult(g, s, c, size, oldHeap, answer) != 0 {
        AllocKeepsBooks(g, s, c, size, oldHeap, answer);
      }
    case FastBump(c, size) => FastBumpKeepsBooks(s, c, size);
    case Mutate(_, _) =>
    case NewContext => NewContextKeepsBooks(g, s);
  }

  lemma {:induction false} RunKeepsBooks(g: Config, ops: seq<Op>)
    requires g.Ok() && LegalRun(g, ops)
    ensures BooksKept(Run(g, ops))
  {
    if ops != [] {
      var rest := ops[..|ops| - 1];
      RunKeepsBooks(g, rest);
      RunInv(g, rest);
      StepKeepsBooks(g, Run(g, rest), ops[|ops| - 1]);
    }
  }

  // ----- the total is the sum of the parts -----

  function PerContext(os: seq<Obj>, n: nat): (p: seq<int>)
    ensures |p| == n && forall c :: 0 <= c < n ==> p[c] == Tally(os, Soh(c)) + Tally(os, Uoh(c))
  {
    seq(n, c => Tally(os, Soh(c)) + Tally(os, Uoh(c)))
  }

  function Counters(ws: seq<Context>): (p: seq<int>)
    ensures |p| == |ws| && forall c :: 0 <= c < |ws| ==> p[c] == ws[c].bytes + ws[c].bytesUoh
  {
    seq(|ws|, c requires 0 <= c < |ws| => ws[c].bytes + ws[c].bytesUoh)
  }

  lemma PerContextSnoc(os: seq<Obj>, o: Obj, n: nat)
    requires o.caller < n
    ensures var p := PerContext(os, n);
            PerContext(os + [o], n) ==
            if o.path == Inline || o.caller < 0 then p else p[o.caller := p[o.caller] + o.size]
  {
    var p, q := PerContext(os, n), PerContext(os + [o], n);
    forall c | 0 <= c < n
      ensures q[c] == p[c] + (if o.path != Inline && c == o.caller then o.size else 0)
    {
      TallySnoc(os, o, Soh(c));
      TallySnoc(os, o, Uoh(c));
    }
  }

  lemma {:induction false} BooksPartition(os: seq<Obj>, n: nat)
    requires forall i :: 0 <= i < |os| ==> os[i].caller < n
    ensures Tally(os, Slow) == Tally(os, NoContext) + Sum(PerContext(os, n))
  {
    if os == [] {
      SumZeros(PerContext(os, n));
    } else {
      var rest, o := os[..|os| - 1], os[|os| - 1];
      BooksPartition(rest, n);
      PerContextSnoc(rest, o, n);
      assert os == rest + [o];
      hide PerContext;
      var p := PerContext(rest, n);
      if o.path != Inline && o.caller >= 0 {
        SumUpdate(p, o.caller, p[o.caller] + o.size);
      }
    }
  }

  lemma {:induction false} TallyNatural(os: seq<Obj>, book: Book)
    requires forall i :: 0 <= i < |os| ==> os[i].size >= 0
    ensures Tally(os, book) >= 0
  {
    if os != [] {
      TallyNatural(os[..|os| - 1], book);
    }
  }

  /** A context's totals have not left the signed 64-bit range. */
  ghost predicate InRange(os: seq<Obj>, c: int) {
    Tally(os, Soh(c)) < HALF64 && Tally(os, Uoh(c)) < HALF64
  }

  lemma SignedIsExact(x: int)
    requires 0 <= x < HALF64
    ensures Signed64(x) == x
  {
  }

  /** While its totals stay in range, a context's counters are exactly the sizes it was given. */
  lemma ContextExact(g: Config, ops: seq<Op>, c: int)
    requires g.Ok() && LegalRun(g, ops) && 0 <= c < |Run(g, ops).ctxs| && InRange(Run(g, ops).objs, c)
    ensures var s := Run(g, ops);
            s.ctxs[c].bytes == Tally(s.objs, Soh(c)) && s.ctxs[c].bytesUoh == Tally(s.objs, Uoh(c))
  {
    RunKeepsBooks(g, ops);
    RunInv(g, ops);
    var s := Run(g, ops);
    forall i | 0 <= i < |s.objs| ensures s.objs[i].size >= 0 {
      assert InBlock(g, s.blocks, s.objs[i]);
    }
    assert ContextKept(s.objs, s.ctxs[c], c);
    TallyNatural(s.objs, Soh(c));
    TallyNatural(s.objs, Uoh(c));
    SignedIsExact(Tally(s.objs, Soh(c)));
    SignedIsExact(Tally(s.objs, Uoh(c)));
  }

  /**
   The heap's counter is the total size of the slow-path objects modulo 2^64. While no
   context's totals leave the signed 64-bit range, the context-less calls and the counters of
   all contexts add up to it.
   */
  lemma AccountsAgree(g: Config, ops: seq<Op>)
    requires g.Ok() && LegalRun(g, ops)
    ensures var s := Run(g, ops);
            && s.allocatedBytes == Tally(s.objs, Slow) % WORD64
            && ((forall c :: 0 <= c < |s.ctxs| ==> InRange(s.objs, c)) ==>
                  s.allocatedBytes == (Tally(s.objs, NoContext) + Sum(Counters(s.ctxs))) % WORD64)
  {
    RunKeepsBooks(g, ops);
    RunInv(g, ops);
    var s := Run(g, ops);
    forall i | 0 <= i < |s.objs| ensures s.objs[i].caller < |s.ctxs| {
      assert InBlock(g, s.blocks, s.objs[i]);
    }
    BooksPartition(s.objs, |s.ctxs|);
    if forall c :: 0 <= c < |s.ctxs| ==> InRange(s.objs, c) {
      hide Run, Inv, Tally, LegalRun, InRange;
      forall c | 0 <= c < |s.ctxs| ensures Counters(s.ctxs)[c] == PerContext(s.objs, |s.ctxs|)[c] {
        ContextExact(g, ops, c);
      }
      assert Counters(s.ctxs) == PerContext(s.objs, |s.ctxs|);
    }
  }
}
