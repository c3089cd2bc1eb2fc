/** What every step and every run of the handle store keeps. */
module HandleProperties {
  import opened HandleSpec
  import opened Sequences

  // ----- one step -----

  lemma AcquireInv(s: Store, cap: nat)
    requires Inv(s, cap)
    ensures var i := Acquired(s, cap);
            && (i < 0 ==> i == -1 && AfterAcquire(s, cap) == s)
            && (i >= 0 ==> i !in s.live && i !in AfterAcquire(s, cap).free)
  {
    if |s.free| > 0 {
      assert s.free[|s.free| - 1] in s.free;
    }
  }

  lemma PopIndex(xs: seq<int>, n: nat)
    requires n < |xs| && NoDuplicates(xs[..n + 1])
    ensures NoDuplicates(xs[..n]) && xs[n] !in xs[..n]
    ensures forall i :: i in xs[..n + 1] <==> i in xs[..n] || i == xs[n]
  {
    assert xs[..n + 1] == xs[..n] + [xs[n]];
  }

  lemma CreateInv(s: Store, rec: Record, cap: nat)
    requires Inv(s, cap) && rec.kind >= 0
    ensures Inv(Created(s, rec, cap), cap)
  {
    if |s.free| > 0 {
      assert s.free[..|s.free|] == s.free;
      PopIndex(s.free, |s.free| - 1);
    }
  }

  lemma StepInv(s: Store, op: Op, cap: nat)
    requires Inv(s, cap) && Legal(s, op)
    ensures Inv(Step(s, op, cap), cap)
  {
    match op
    case Create(rec) => CreateInv(s, rec, cap);
    case Duplicate(source) => CreateInv(s, DuplicateRecord(s, source), cap);
    case Destroy(h) =>
    case _ =>
  }

  lemma {:induction false} RunInv(s: Store, ops: seq<Op>, cap: nat)
    requires Inv(s, cap) && LegalRun(s, ops, cap)
    ensures Inv(Run(s, ops, cap), cap)
  {
    if ops != [] {
      RunInv(s, ops[..|ops| - 1], cap);
      StepInv(Run(s, ops[..|ops| - 1], cap), ops[|ops| - 1], cap);
    }
  }

  lemma TwoSteps(s: Store, first: Op, second: Op, cap: nat)
    ensures Run(s, [first, second], cap) == Step(Step(s, first, cap), second, cap)
  {
    var ops := [first, second];
    assert ops[..1] == [first] && [first][..0] == [];
    assert Run(s, [first], cap) == Step(s, first, cap);
  }

  /** A new handle never aliases a live one and disturbs no other record. */
  lemma CreateIsFresh(s: Store, op: Op, cap: nat)
    requires Inv(s, cap) && Legal(s, op) && (op.Create? || op.Duplicate?)
    ensures var h, t := Returned(s, op, cap), Step(s, op, cap);
            if h < 0 then t == s
            else
              && h !in s.live
              && t.live.Keys == s.live.Keys + {h}
              && (forall k :: k in s.live ==> t.live[k] == s.live[k])
              && (op.Create? ==> t.live[h] == op.rec)
              && (op.Duplicate? ==>
                    && t.live[h].target == s.live[op.source].target && t.live[h].kind == s.live[op.source].kind
                    && t.live[h].extra == NULL && t.live[h].secondary == NULL)
  {
    AcquireInv(s, cap);
  }

  /** Every write through a live handle sets its one field, unconditionally, and nothing else of the store. */
  lemma WritesSpelledOut(s: Store, h: int, v: Ptr, kind: int, cap: nat)
    requires h in s.live
    ensures Step(s, StoreTarget(h, v), cap) == s.(live := s.live[h := s.live[h].(target := v)])
    ensures Step(s, SetKind(h, kind), cap) == s.(live := s.live[h := s.live[h].(kind := kind)])
    ensures Step(s, SetExtra(h, v), cap) == s.(live := s.live[h := s.live[h].(extra := v)])
    ensures Step(s, SetSecondary(h, v), cap) == s.(live := s.live[h := s.live[h].(secondary := v)])
  {
  }

  /** The four fields, by name. */
  lemma FieldsSpelledOut(r: Record)
    ensures Get(r, Target) == r.target && Get(r, Kind) == r.kind
    ensures Get(r, Extra) == r.extra && Get(r, Secondary) == r.secondary
  {
  }

  /** The operations that can end or change field `f` of handle `h`. */
  predicate Touches(op: Op, h: int, f: Field) {
    op == Reset || op == Destroy(h) ||
    match f
    case Target => (op.StoreTarget? || op.StoreIfNull? || op.CompareExchange?) && op.h == h
    case Kind => op.SetKind? && op.h == h
    case Extra => op.SetExtra? && op.h == h
    case Secondary => op.SetSecondary? && op.h == h
  }

  /** A value once in a field of a live handle stays, through any run without such an operation. */
  lemma {:induction false} FieldPersists(s: Store, ops: seq<Op>, cap: nat, h: int, f: Field)
    requires Inv(s, cap) && LegalRun(s, ops, cap) && h in s.live
    requires forall i :: 0 <= i < |ops| ==> !Touches(ops[i], h, f)
    ensures h in Run(s, ops, cap).live && Get(Run(s, ops, cap).live[h], f) == Get(s.live[h], f)
  {
    if ops != [] {
      var rest, op := ops[..|ops| - 1], ops[|ops| - 1];
      FieldPersists(s, rest, cap, h, f);
      RunInv(s, rest, cap);
      var t := Run(s, rest, cap);
      assert !Touches(op, h, f) && Legal(t, op);
      StepSpares(t, op, cap, h, f);
    }
  }

  lemma StepSpares(s: Store, op: Op, cap: nat, h: int, f: Field)
    requires Inv(s, cap) && Legal(s, op) && h in s.live && !Touches(op, h, f)
    ensures h in Step(s, op, cap).live && Get(Step(s, op, cap).live[h], f) == Get(s.live[h], f)
  {
    AcquireInv(s, cap);
  }

  /** The conditional writes are a plain write or none. */
  lemma ConditionalWrite(s: Store, h: int, target: Ptr, comparand: Ptr, cap: nat)
    ensures Step(s, StoreIfNull(h, target), cap) ==
            if h in s.live && s.live[h].target == NULL then Step(s, StoreTarget(h, target), cap) else s
    ensures Step(s, CompareExchange(h, target, comparand), cap) ==
            if h in s.live && s.live[h].target == comparand then Step(s, StoreTarget(h, target), cap) else s
    ensures h !in s.live ==> Step(s, StoreTarget(h, target), cap) == s
  {
    if h in s.live {
      assert s.live[h := s.live[h]] == s.live;
    }
  }

  // ----- counting -----

  function Below(n: int): (b: set<int>)
    ensures forall i :: i in b <==> 0 <= i < n
  {
    if n <= 0 then {} else Below(n - 1) + {n - 1}
  }

  lemma {:induction false} BelowSize(n: nat)
    ensures |Below(n)| == n
  {
    if n > 0 {
      BelowSize(n - 1);
    }
  }

  lemma {:induction false} ElementsSize(xs: seq<int>)
    requires NoDuplicates(xs)
    ensures |Elements(xs)| == |xs|
  {
    if xs != [] {
      var rest := xs[..|xs| - 1];
      ElementsSize(rest);
      assert xs == rest + [xs[|xs| - 1]];
      assert Elements(xs) == Elements(rest) + {xs[|xs| - 1]};
    }
  }

  /** live + free = count. */
  lemma LiveAndFree(s: Store, cap: nat)
    requires Inv(s, cap)
    ensures |s.live| + |s.free| == s.count
  {
    BelowSize(s.count);
    ElementsSize(s.free);
    assert s.live.Keys == Below(s.count) - Elements(s.free);
    assert Elements(s.free) <= Below(s.count);
    assert |s.live| == |s.live.Keys|;
  }

  /** Creation fails exactly when every slot of the store is live. */
  lemma NullExactlyWhenFull(s: Store, op: Op, cap: nat)
    requires Inv(s, cap) && Legal(s, op) && (op.Create? || op.Duplicate?)
    ensures Returned(s, op, cap) == -1 <==> |s.live| == cap
    ensures Returned(s, op, cap) == -1 <==> s.live.Keys == Below(cap)
  {
    LiveAndFree(s, cap);
    BelowSize(cap);
    AcquireInv(s, cap);
    if s.live.Keys == Below(cap) {
      assert |s.live| == |s.live.Keys|;
    }
    if Returned(s, op, cap) == -1 {
      assert s.live.Keys == Below(cap);
    }
  }

  /** The stack has room whenever some slot is live, so destroy always frees a live slot. */
  lemma DestroyFreesLiveSlot(s: Store, h: int, cap: nat)
    requires Inv(s, cap) && h in s.live
    ensures |s.free| < cap
    ensures Step(s, Destroy(h), cap) == Store(s.live - {h}, s.free + [h], s.count)
  {
    LiveAndFree(s, cap);
    assert h in s.live.Keys && |s.live.Keys| == |s.live|;
    assert |s.live| > 0;
  }

  lemma DoubleDestroyIsHarmless(s: Store, h: int, cap: nat)
    requires Inv(s, cap) && Legal(s, Destroy(h))
    ensures var t := Step(s, Destroy(h), cap);
            h !in t.live && h in t.free && Step(t, Destroy(h), cap) == t
  {
    if h in s.live {
      DestroyFreesLiveSlot(s, h, cap);
    }
  }

  /** A destroyed slot stays dead, and destroying it again stays harmless, until a create hands it out. */
  lemma {:induction false} DeadUntilRecycled(s: Store, ops: seq<Op>, h: int, cap: nat)
    requires Inv(s, cap) && LegalRun(s, ops, cap) && h !in s.live && h !in Results(s, ops, cap)
    ensures var t := Run(s, ops, cap);
            h !in t.live && Step(t, Destroy(h), cap) == t
  {
    if ops != [] {
      DeadUntilRecycled(s, ops[..|ops| - 1], h, cap);
    }
  }

  // ----- the high-water mark -----

  /** The most handles that were live at one time since the last reset. */
  function MaxLive(ops: seq<Op>, cap: nat): nat {
    if ops == [] || ops[|ops| - 1].Reset? then 0
    else
      var before := MaxLive(ops[..|ops| - 1], cap);
      var now := |Run(EMPTY, ops, cap).live|;
      if now > before then now else before
  }

  /** The slots handed out since the last reset. */
  function Touched(ops: seq<Op>, cap: nat): set<int> {
    if ops == [] || ops[|ops| - 1].Reset? then {}
    else
      var prefix := ops[..|ops| - 1];
      var h := Returned(Run(EMPTY, prefix, cap), ops[|ops| - 1], cap);
      Touched(prefix, cap) + (if h < 0 then {} else {h})
  }

  /** The count is the high-water mark of live handles, not the number of creates. */
  lemma {:induction false} CountIsHighWater(ops: seq<Op>, cap: nat)
    requires LegalRun(EMPTY, ops, cap)
    ensures Run(EMPTY, ops, cap).count == MaxLive(ops, cap)
  {
    if ops != [] {
      var prefix := ops[..|ops| - 1];
      var s, t := Run(EMPTY, prefix, cap), Run(EMPTY, ops, cap);
      CountIsHighWater(prefix, cap);
      RunInv(EMPTY, prefix, cap);
      RunInv(EMPTY, ops, cap);
      LiveAndFree(s, cap);
      LiveAndFree(t, cap);
    }
  }

  lemma CountStep(s: Store, op: Op, cap: nat)
    requires Inv(s, cap) && Legal(s, op) && !op.Reset?
    ensures var h := Returned(s, op, cap);
            Below(Step(s, op, cap).count) == Below(s.count) + (if h < 0 then {} else {h})
  {
    if |s.free| > 0 {
      assert s.free[|s.free| - 1] in s.free;
    }
  }

  /** The slots ever handed out are exactly the prefix below the count. */
  lemma {:induction false} TouchedIsPrefix(ops: seq<Op>, cap: nat)
    requires LegalRun(EMPTY, ops, cap)
    ensures Touched(ops, cap) == Below(Run(EMPTY, ops, cap).count)
  {
    if ops != [] {
      var prefix := ops[..|ops| - 1];
      TouchedIsPrefix(prefix, cap);
      RunInv(EMPTY, prefix, cap);
      if !ops[|ops| - 1].Reset? {
        CountStep(Run(EMPTY, prefix, cap), ops[|ops| - 1], cap);
      }
    }
  }

  // ----- getters return the last write -----

  /** The value `op`, run in `s`, writes to field `f` of handle `h`, if it writes it at all. */
  function Written(s: Store, op: Op, cap: nat, h: int, f: Field): (w: seq<int>)
    ensures |w| <= 1
  {
    if op.Create? then
      if Acquired(s, cap) == h then [Get(op.rec, f)] else []
    else if op.Duplicate? then
      if op.source in s.live && Acquired(s, cap) == h then [Get(DuplicateRecord(s, op.source), f)] else []
    else if IsFieldOp(op) && op.h == h && h in s.live && Write(s.live[h], op).0 == f then
      [Write(s.live[h], op).1]
    else []
  }

  /** Every value written to field `f` of slot `h` along a run, oldest first. */
  function History(ops: seq<Op>, cap: nat, h: int, f: Field): seq<int> {
    if ops == [] then []
    else
      var prefix := ops[..|ops| - 1];
      History(prefix, cap, h, f) + Written(Run(EMPTY, prefix, cap), ops[|ops| - 1], cap, h, f)
  }

  lemma StepWrites(s: Store, op: Op, cap: nat, h: int, f: Field)
    requires Inv(s, cap) && Legal(s, op) && h in Step(s, op, cap).live
    ensures var w := Written(s, op, cap, h, f);
            if w == [] then h in s.live && Get(Step(s, op, cap).live[h], f) == Get(s.live[h], f)
            else Get(Step(s, op, cap).live[h], f) == w[0]
  {
    AcquireInv(s, cap);
  }

  /** A live handle's field reads as the last value written to it. */
  lemma {:induction false} ReadsLastWrite(ops: seq<Op>, cap: nat, h: int, f: Field)
    requires LegalRun(EMPTY, ops, cap) && h in Run(EMPTY, ops, cap).live
    ensures var w := History(ops, cap, h, f);
            w != [] && Get(Run(EMPTY, ops, cap).live[h], f) == w[|w| - 1]
  {
    hide Inv, Legal, Step, Written, Get;
    var prefix := ops[..|ops| - 1];
    var s := Run(EMPTY, prefix, cap);
    RunInv(EMPTY, prefix, cap);
    StepWrites(s, ops[|ops| - 1], cap, h, f);
    if Written(s, ops[|ops| - 1], cap, h, f) == [] {
      ReadsLastWrite(prefix, cap, h, f);
    }
  }

  // ----- last in, first out -----

  function Destroys(hs: seq<int>): (ops: seq<Op>)
    ensures |ops| == |hs|
  {
    seq(|hs|, i requires 0 <= i < |hs| => Destroy(hs[i]))
  }

  function Creates(recs: seq<Record>): (ops: seq<Op>)
    ensures |ops| == |recs|
  {
    seq(|recs|, i requires 0 <= i < |recs| => Create(recs[i]))
  }

  function Reversed(xs: seq<int>): (r: seq<int>)
    ensures |r| == |xs|
    ensures forall i :: 0 <= i < |xs| ==> r[i] == xs[|xs| - 1 - i]
  {
    seq(|xs|, i requires 0 <= i < |xs| => xs[|xs| - 1 - i])
  }

  lemma {:induction false} DestroysPush(s: Store, hs: seq<int>, cap: nat)
    requires Inv(s, cap) && NoDuplicates(hs) && forall h :: h in hs ==> h in s.live
    ensures LegalRun(s, Destroys(hs), cap)
    ensures Run(s, Destroys(hs), cap) == Store(s.live - Elements(hs), s.free + hs, s.count)
  {
    if hs == [] {
      assert s.live - Elements(hs) == s.live;
    } else {
      var n := |hs| - 1;
      var rest := hs[..n];
      assert Destroys(hs)[..n] == Destroys(rest);
      DestroysPush(s, rest, cap);
      RunInv(s, Destroys(rest), cap);
      var t := Run(s, Destroys(rest), cap);
      assert hs[n] in hs && hs[n] !in Elements(rest);
      DestroyFreesLiveSlot(t, hs[n], cap);
      assert Elements(hs) == Elements(rest) + {hs[n]};
      assert s.live - Elements(hs) == s.live - Elements(rest) - {hs[n]};
      assert s.free + rest + [hs[n]] == s.free + hs;
    }
  }

  lemma PopOne(s: Store, rec: Record, cap: nat)
    requires s.free != [] && s.free[|s.free| - 1] >= 0
    ensures var n := |s.free| - 1;
            Created(s, rec, cap) == Store(s.live[s.free[n] := rec], s.free[..n], s.count)
  {
  }

  lemma {:induction false} CreatesPop(s: Store, recs: seq<Record>, cap: nat)
    requires |recs| <= |s.free| && forall i :: i in s.free ==> i >= 0
    ensures var d := |s.free| - |recs|;
            var t := Run(s, Creates(recs), cap);
            && t.free == s.free[..d] && t.count == s.count
            && t.live.Keys == s.live.Keys + Elements(s.free[d..])
  {
    if recs == [] {
      assert s.free[|s.free|..] == [];
      assert Elements<int>([]) == {};
    } else {
      var n := |recs| - 1;
      assert Creates(recs)[..n] == Creates(recs[..n]);
      CreatesPop(s, recs[..n], cap);
      var d := |s.free| - |recs|;
      assert s.free[..d + 1][..d] == s.free[..d] && s.free[d] in s.free;
      PopOne(Run(s, Creates(recs[..n]), cap), recs[n], cap);
      assert s.free[d..] == [s.free[d]] + s.free[d + 1..];
      assert Elements(s.free[d..]) == {s.free[d]} + Elements(s.free[d + 1..]);
    }
  }

  lemma {:induction false} CreatesReturn(s: Store, recs: seq<Record>, cap: nat)
    requires |recs| <= |s.free| && forall i :: i in s.free ==> i >= 0
    ensures Results(s, Creates(recs), cap) == Reversed(s.free[|s.free| - |recs|..])
  {
    if recs != [] {
      var n := |recs| - 1;
      assert Creates(recs)[..n] == Creates(recs[..n]);
      CreatesReturn(s, recs[..n], cap);
      CreatesPop(s, recs[..n], cap);
    }
  }

  lemma {:induction false} CreatesSpare(s: Store, recs: seq<Record>, cap: nat, h: int)
    requires |recs| <= |s.free| && (forall i :: i in s.free ==> i >= 0)
    requires h in s.live && h !in s.free[|s.free| - |recs|..]
    ensures var t := Run(s, Creates(recs), cap);
            h in t.live && t.live[h] == s.live[h]
  {
    if recs != [] {
      var n, d := |recs| - 1, |s.free| - |recs|;
      assert Creates(recs)[..n] == Creates(recs[..n]);
      assert s.free[d..] == [s.free[d]] + s.free[d + 1..] && s.free[d] in s.free;
      CreatesSpare(s, recs[..n], cap, h);
      CreatesPop(s, recs[..n], cap);
      PopOne(Run(s, Creates(recs[..n]), cap), recs[n], cap);
    }
  }

  lemma {:induction false} CreatesFill(s: Store, recs: seq<Record>, cap: nat, i: int)
    requires |recs| <= |s.free| && NoDuplicates(s.free) && (forall i :: i in s.free ==> i >= 0)
    requires 0 <= i < |recs|
    ensures var h, t := s.free[|s.free| - 1 - i], Run(s, Creates(recs), cap);
            h in t.live && t.live[h] == recs[i]
  {
    var n, d := |recs| - 1, |s.free| - |recs|;
    assert Creates(recs)[..n] == Creates(recs[..n]) && s.free[d] in s.free;
    CreatesPop(s, recs[..n], cap);
    PopOne(Run(s, Creates(recs[..n]), cap), recs[n], cap);
    if i < n {
      CreatesFill(s, recs[..n], cap, i);
    }
  }

  /** What destroying leaves behind, ready for as many creates. */
  lemma Gap(s: Store, hs: seq<int>, cap: nat)
    requires Inv(s, cap) && NoDuplicates(hs) && forall h :: h in hs ==> h in s.live
    ensures var gap := Run(s, Destroys(hs), cap);
            && gap == Store(s.live - Elements(hs), s.free + hs, s.count)
            && NoDuplicates(gap.free) && (forall i :: i in gap.free ==> i >= 0)
            && gap.free[|s.free|..] == hs && gap.free[..|s.free|] == s.free
            && gap.live.Keys + Elements(hs) == s.live.Keys
  {
    DestroysPush(s, hs, cap);
    RunInv(s, Destroys(hs), cap);
    hide Run, Destroys;
    assert s.live.Keys - Elements(hs) + Elements(hs) == s.live.Keys;
  }

  /**
   Destroying d1..dk and then creating k handles hands back dk..d1, and leaves the set of
   live handles, the free list and the count as they were.
   */
  lemma DestroyThenCreateRoundTrip(s: Store, hs: seq<int>, recs: seq<Record>, cap: nat)
    requires Inv(s, cap) && NoDuplicates(hs) && |recs| == |hs|
    requires forall h :: h in hs ==> h in s.live
    ensures var gap := Run(s, Destroys(hs), cap);
            var back := Run(gap, Creates(recs), cap);
            && Results(gap, Creates(recs), cap) == Reversed(hs)
            && back.live.Keys == s.live.Keys && back.free == s.free && back.count == s.count
  {
    Gap(s, hs, cap);
    var gap := Run(s, Destroys(hs), cap);
    hide Run, Destroys, Creates, Results, Inv;
    CreatesPop(gap, recs, cap);
    CreatesReturn(gap, recs, cap);
  }

  /** After that round trip the i-th new record sits in the i-th handle, and every other record is untouched. */
  lemma RoundTripRecords(s: Store, hs: seq<int>, recs: seq<Record>, cap: nat, h: int, i: int)
    requires Inv(s, cap) && NoDuplicates(hs) && |recs| == |hs| && 0 <= i < |recs|
    requires (forall k :: k in hs ==> k in s.live) && h in s.live && h !in hs
    ensures var back := Run(Run(s, Destroys(hs), cap), Creates(recs), cap);
            && h in back.live && back.live[h] == s.live[h]
            && Reversed(hs)[i] in back.live && back.live[Reversed(hs)[i]] == recs[i]
  {
    Gap(s, hs, cap);
    var gap := Run(s, Destroys(hs), cap);
    hide Run, Destroys, Creates, Inv;
    assert gap.live[h] == s.live[h];
    CreatesSpare(gap, recs, cap, h);
    assert gap.free[|gap.free| - 1 - i] == gap.free[|s.free|..][|hs| - 1 - i];
    CreatesFill(gap, recs, cap, i);
  }

  /** What lies under a depth the run never drops below is untouched. */
  lemma {:induction false} StackFrame(s: Store, ops: seq<Op>, cap: nat, depth: nat)
    requires forall k :: 0 <= k <= |ops| ==> depth <= |Run(s, ops[..k], cap).free|
    ensures depth <= |s.free| && depth <= |Run(s, ops, cap).free|
    ensures Run(s, ops, cap).free[..depth] == s.free[..depth]
  {
    assert ops[..|ops|] == ops;
    if ops == [] {
    } else {
      var prefix := ops[..|ops| - 1];
      assert forall k :: 0 <= k <= |prefix| ==> prefix[..k] == ops[..k];
      StackFrame(s, prefix, cap, depth);
    }
  }

  // ----- placement does not depend on contents -----

  /** Everything that decides where handles go. */
  datatype Placement = Placement(live: set<int>, free: seq<int>, count: int)

  datatype Move = Take | Give(h: int) | Clear

  function PlacementOf(s: Store): Placement {
    Placement(s.live.Keys, s.free, s.count)
  }

  function MoveOf(op: Op): seq<Move> {
    match op
    case Create(_) => [Take]
    case Duplicate(_) => [Take]
    case Destroy(h) => [Give(h)]
    case Reset => [Clear]
    case _ => []
  }

  /** The creates, destroys and resets of a run, without contents and without field writes. */
  function Moves(ops: seq<Op>): seq<Move> {
    if ops == [] then [] else Moves(ops[..|ops| - 1]) + MoveOf(ops[|ops| - 1])
  }

  lemma MoveStep(s: Store, s': Store, op: Op, op': Op, cap: nat)
    requires PlacementOf(s) == PlacementOf(s') && MoveOf(op) == MoveOf(op')
    requires Legal(s, op) && Legal(s', op')
    ensures PlacementOf(Step(s, op, cap)) == PlacementOf(Step(s', op', cap))
    ensures Returned(s, op, cap) == Returned(s', op', cap)
  {
    assert forall h :: h in s.live.Keys <==> h in s'.live.Keys;
  }

  lemma SilentStep(s: Store, op: Op, cap: nat)
    requires MoveOf(op) == []
    ensures PlacementOf(Step(s, op, cap)) == PlacementOf(s)
  {
  }

  /**
   Two runs with the same creates, destroys and resets hand out the same handles and end in
   the same placement, whatever they store and whatever field writes come between.
   */
  lemma {:induction false} PlacementIndependence(s: Store, s': Store, ops: seq<Op>, ops': seq<Op>, cap: nat)
    requires PlacementOf(s) == PlacementOf(s') && Moves(ops) == Moves(ops')
    requires LegalRun(s, ops, cap) && LegalRun(s', ops', cap)
    ensures PlacementOf(Run(s, ops, cap)) == PlacementOf(Run(s', ops', cap))
    ensures Results(s, ops, cap) == Results(s', ops', cap)
    decreases |ops| + |ops'|
  {
    var n, n' := |ops| - 1, |ops'| - 1;
    if ops != [] && MoveOf(ops[n]) == [] {
      SilentStep(Run(s, ops[..n], cap), ops[n], cap);
      PlacementIndependence(s, s', ops[..n], ops', cap);
    } else if ops' != [] && MoveOf(ops'[n']) == [] {
      SilentStep(Run(s', ops'[..n'], cap), ops'[n'], cap);
      PlacementIndependence(s, s', ops, ops'[..n'], cap);
    } else if ops != [] && ops' != [] {
      var m, m' := Moves(ops), Moves(ops');
      assert m[..|m| - 1] == Moves(ops[..n]) && m'[..|m'| - 1] == Moves(ops'[..n']);
      assert m[|m| - 1] == MoveOf(ops[n])[0] && m'[|m'| - 1] == MoveOf(ops'[n'])[0];
      PlacementIndependence(s, s', ops[..n], ops'[..n'], cap);
      MoveStep(Run(s, ops[..n], cap), Run(s', ops'[..n'], cap), ops[n], ops'[n'], cap);
    }
  }
}
