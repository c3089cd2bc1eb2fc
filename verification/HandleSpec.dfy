/**
 The handle store seen from outside: a partial map from slot index to record,
 together with the two things that decide where the next handle goes, the
 high-water count and the LIFO list of recycled slots. One transition per
 operation of the store and of the handle manager.
 */
module HandleSpec {

  /** A pointer value. Only null is distinguished. */
  type Ptr = nat
  const NULL: Ptr := 0

  /** What one live slot holds across the four parallel arrays. */
  datatype Record = Record(target: Ptr, kind: int, extra: Ptr, secondary: Ptr)

  datatype Store = Store(live: map<int, Record>, free: seq<int>, count: int)

  const EMPTY := Store(map[], [], 0)

  datatype Op =
    | Create(rec: Record)
    | Duplicate(source: int)
    | Destroy(h: int)
    | StoreTarget(h: int, target: Ptr)
    | StoreIfNull(h: int, target: Ptr)
    | CompareExchange(h: int, target: Ptr, comparand: Ptr)
    | SetKind(h: int, kind: int)
    | SetExtra(h: int, extra: Ptr)
    | SetSecondary(h: int, secondary: Ptr)
    | Reset

  // ----- where the next handle goes -----

  /** Pop the most recently destroyed slot, else grow, else -1. */
  function Acquired(s: Store, cap: nat): int {
    if |s.free| > 0 then s.free[|s.free| - 1]
    else if s.count < cap then s.count
    else -1
  }

  function AfterAcquire(s: Store, cap: nat): Store {
    if |s.free| > 0 then s.(free := s.free[..|s.free| - 1])
    else if s.count < cap then s.(count := s.count + 1)
    else s
  }

  function Created(s: Store, rec: Record, cap: nat): Store {
    var idx := Acquired(s, cap);
    var t := AfterAcquire(s, cap);
    if idx < 0 then t else t.(live := t.live[idx := rec])
  }

  /** The record a duplicate of `source` gets: its object and type, nothing else. */
  function DuplicateRecord(s: Store, source: int): Record
    requires source in s.live
  {
    Record(s.live[source].target, s.live[source].kind, NULL, NULL)
  }

  /** Overwrites the record of a live handle; a write through a stale handle is lost. */
  function Overwritten(s: Store, h: int, rec: Record): Store {
    if h in s.live then s.(live := s.live[h := rec]) else s
  }

  function Step(s: Store, op: Op, cap: nat): Store {
    match op
    case Create(rec) => Created(s, rec, cap)
    case Duplicate(source) =>
      if source in s.live then Created(s, DuplicateRecord(s, source), cap) else s
    case Destroy(h) =>
      if h !in s.live || |s.free| == cap then s
      else s.(live := s.live - {h}, free := s.free + [h])
    case Reset => EMPTY
    case _ =>
      if op.h !in s.live then s
      else match Write(s.live[op.h], op) case (f, v) => Overwritten(s, op.h, Put(s.live[op.h], f, v))
  }

  /** The index a creating step hands out: -1 is the null handle. */
  function Returned(s: Store, op: Op, cap: nat): int {
    if op.Create? || op.Duplicate? then Acquired(s, cap) else -1
  }

  // ----- the fields of a record -----

  datatype Field = Target | Kind | Extra | Secondary

  function Get(r: Record, f: Field): int {
    match f
    case Target => r.target
    case Kind => r.kind
    case Extra => r.extra
    case Secondary => r.secondary
  }

  function Put(r: Record, f: Field, v: int): Record
    requires f != Kind ==> v >= 0
  {
    match f
    case Target => r.(target := v)
    case Kind => r.(kind := v)
    case Extra => r.(extra := v)
    case Secondary => r.(secondary := v)
  }

  predicate IsFieldOp(op: Op) {
    !op.Create? && !op.Duplicate? && !op.Destroy? && !op.Reset?
  }

  /** Which field of its target an operation writes, and the value it leaves there. */
  function Write(r: Record, op: Op): (w: (Field, int))
    requires IsFieldOp(op)
    ensures w.0 != Kind ==> w.1 >= 0
  {
    match op
    case StoreTarget(_, o) => (Target, o)
    case StoreIfNull(_, o) => (Target, if r.target == NULL then o else r.target)
    case CompareExchange(_, o, c) => (Target, if r.target == c then o else r.target)
    case SetKind(_, k) => (Kind, k)
    case SetExtra(_, e) => (Extra, e)
    case SetSecondary(_, x) => (Secondary, x)
  }

  // ----- what callers owe, and the invariant they get -----

  predicate Legal(s: Store, op: Op) {
    match op
    case Create(rec) => rec.kind >= 0
    case Duplicate(source) => source in s.live
    case SetKind(h, kind) => h in s.live && kind >= 0
    case Reset => true
    case _ => 0 <= op.h < s.count
  }

  predicate NoDuplicates(xs: seq<int>) {
    forall i, j :: 0 <= i < j < |xs| ==> xs[i] != xs[j]
  }

  /** Free entries are distinct and, below the count, exactly the slots that are not live. */
  ghost predicate Inv(s: Store, cap: nat) {
    && 0 <= s.count <= cap
    && NoDuplicates(s.free)
    && (forall i :: i in s.free ==> 0 <= i < s.count)
    && (forall i :: i in s.live <==> 0 <= i < s.count && i !in s.free)
    && (forall i :: i in s.live ==> s.live[i].kind >= 0)
  }

  // ----- runs -----

  function Run(s: Store, ops: seq<Op>, cap: nat): Store {
    if ops == [] then s
    else Step(Run(s, ops[..|ops| - 1], cap), ops[|ops| - 1], cap)
  }

  ghost predicate LegalRun(s: Store, ops: seq<Op>, cap: nat) {
    ops == [] ||
    (LegalRun(s, ops[..|ops| - 1], cap) && Legal(Run(s, ops[..|ops| - 1], cap), ops[|ops| - 1]))
  }

  /** The handles handed out by the creating steps of a run, in order. */
  function Results(s: Store, ops: seq<Op>, cap: nat): seq<int> {
    if ops == [] then []
    else
      var prefix := ops[..|ops| - 1];
      var op := ops[|ops| - 1];
      Results(s, prefix, cap) +
      (if op.Create? || op.Duplicate? then [Returned(Run(s, prefix, cap), op, cap)] else [])
  }
}
