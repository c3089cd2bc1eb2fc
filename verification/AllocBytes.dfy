/** Where every byte goes, and how many quanta a context can possibly use up. */
module AllocBytes {
  import opened AllocSpec
  import opened AllocSafety
  import opened Sums
  import opened NextFit

  // ----- conservation -----

  function Lens(bs: seq<Block>): seq<int> { seq(|bs|, k requires 0 <= k < |bs| => bs[k].len) }
  function Sizes(os: seq<Obj>): seq<int> { seq(|os|, i requires 0 <= i < |os| => os[i].size) }
  function TailBytes(ts: seq<Tail>): seq<int> { seq(|ts|, i requires 0 <= i < |ts| => ts[i].bytes) }
  function Rooms(cs: seq<Context>): seq<int> { seq(|cs|, c requires 0 <= c < |cs| => cs[c].Room()) }

  /** Bytes obtained = objects + one header a block + abandoned tails + what is left in windows. */
  ghost predicate Balanced(g: Config, s: State) {
    Sum(Lens(s.blocks)) ==
    Sum(Sizes(s.objs)) + g.header * |s.blocks| + Sum(TailBytes(s.tails)) + Sum(Rooms(s.ctxs))
  }

  ghost predicate TailsSmall(s: State) {
    forall i :: 0 <= i < |s.tails| ==> 0 <= s.tails[i].bytes < s.tails[i].request
  }

  lemma BlockAdds(g: Config, bs: seq<Block>, b: Block)
    ensures Sum(Lens(bs + [b])) == Sum(Lens(bs)) + b.len
    ensures g.header * |bs + [b]| == g.header * |bs| + g.header
  {
    assert Lens(bs + [b]) == Lens(bs) + [b.len];
    SumSnoc(Lens(bs), b.len);
  }

  lemma ObjAdds(os: seq<Obj>, o: Obj)
    ensures Sum(Sizes(os + [o])) == Sum(Sizes(os)) + o.size
  {
    assert Sizes(os + [o]) == Sizes(os) + [o.size];
    SumSnoc(Sizes(os), o.size);
  }

  lemma TailAdds(ts: seq<Tail>, t: Tail)
    ensures Sum(TailBytes(ts + [t])) == Sum(TailBytes(ts)) + t.bytes
  {
    assert TailBytes(ts + [t]) == TailBytes(ts) + [t.bytes];
    SumSnoc(TailBytes(ts), t.bytes);
  }

  lemma RoomChanges(cs: seq<Context>, c: int, w: Context)
    requires 0 <= c < |cs|
    ensures Sum(Rooms(cs[c := w])) == Sum(Rooms(cs)) - cs[c].Room() + w.Room()
  {
    assert Rooms(cs[c := w]) == Rooms(cs)[c := w.Room()];
    SumUpdate(Rooms(cs), c, w.Room());
  }

  lemma BumpBalanced(g: Config, s: State, c: int, size: int, path: Path)
    requires Balanced(g, s) && 0 <= c < |s.ctxs| && 0 <= size && s.ctxs[c].ptr > 0
    ensures Balanced(g, BumpStep(s, c, size, path))
  {
    hide Sum, Lens, Sizes, TailBytes, Rooms;
    var w := s.ctxs[c];
    ObjAdds(s.objs, Obj(w.ptr, size, w.blk, c, path));
    RoomChanges(s.ctxs, c, w.(ptr := w.ptr + size));
  }

  lemma RefillBalanced(g: Config, s: State, c: int, size: int, answer: int)
    requires g.Ok() && Balanced(g, s) && 0 <= c < |s.ctxs| && 0 <= size && answer > 0
    ensures Balanced(g, RefillStep(g, s, c, size, answer))
  {
    hide Sum, Lens, Sizes, TailBytes, Rooms;
    var w := s.ctxs[c];
    BlockAdds(g, s.blocks, Block(answer, g.quantum, c));
    ObjAdds(s.objs, Obj(answer + g.header, size, |s.blocks|, c, Window));
    TailAdds(s.tails, Tail(w.limit - w.ptr, size));
    RoomChanges(s.ctxs, c,
      w.(ptr := answer + g.header + size, limit := answer + g.quantum, blk := |s.blocks|));
  }

  lemma DirectBalanced(g: Config, s: State, c: int, size: int, oldHeap: bool, answer: int)
    requires Balanced(g, s)
    ensures Balanced(g, DirectStep(g, s, c, size, oldHeap, answer))
  {
    BlockAdds(g, s.blocks, Block(answer, size + g.header, -1));
    ObjAdds(s.objs, Obj(answer + g.header, size, |s.blocks|, c, if oldHeap then OldHeap else Large));
  }

  lemma CoreBalanced(g: Config, s: State, c: int, size: int, oldHeap: bool, answer: int)
    requires g.Ok() && Inv(g, s) && Balanced(g, s) && Legal(g, s, Alloc(c, size, oldHeap, answer))
    ensures Balanced(g, CoreStep(g, s, c, size, oldHeap, answer))
  {
    match OutcomeOf(g, s, c, size, oldHeap)
    case Overflow =>
    case Direct =>
      if answer != 0 {
        DirectBalanced(g, s, c, size, oldHeap, answer);
      }
    case Bump =>
      WindowAt(g, s, c);
      BumpBalanced(g, s, c, size, Window);
    case Refill =>
      if answer != 0 {
        RefillBalanced(g, s, c, size, answer);
      }
  }

  lemma CountedRooms(s: State, c: int, size: int, oldHeap: bool)
    requires c < |s.ctxs|
    ensures Rooms(Counted(s, c, size, oldHeap).ctxs) == Rooms(s.ctxs)
  {
  }

  lemma StepBalanced(g: Config, s: State, op: Op)
    requires g.Ok() && Inv(g, s) && Balanced(g, s) && Legal(g, s, op)
    ensures Balanced(g, Step(g, s, op))
  {
    match op
    case Alloc(c, size, oldHeap, answer) =>
      CoreBalanced(g, s, c, size, oldHeap, answer);
      CountedRooms(CoreStep(g, s, c, size, oldHeap, answer), c, size, oldHeap);
    case FastBump(c, size) =>
      WindowAt(g, s, c);
      BumpBalanced(g, s, c, size, Inline);
    case Mutate(_, _) =>
    case NewContext =>
      assert Rooms(s.ctxs + [NEW_CONTEXT]) == Rooms(s.ctxs) + [0];
      SumSnoc(Rooms(s.ctxs), 0);
  }

  lemma StepTails(g: Config, s: State, op: Op)
    requires g.Ok() && Inv(g, s) && TailsSmall(s) && Legal(g, s, op)
    ensures TailsSmall(Step(g, s, op))
  {
    if op.Alloc? && op.c >= 0 {
      WindowAt(g, s, op.c);
    }
  }

  /** Conservation over every run; each abandoned tail was too small for the request that abandoned it. */
  lemma {:induction false} BytesConserved(g: Config, ops: seq<Op>)
    requires g.Ok() && LegalRun(g, ops)
    ensures Balanced(g, Run(g, ops)) && TailsSmall(Run(g, ops))
  {
    if ops != [] {
      var s := Run(g, ops[..|ops| - 1]);
      BytesConserved(g, ops[..|ops| - 1]);
      RunInv(g, ops[..|ops| - 1]);
      StepBalanced(g, s, ops[|ops| - 1]);
      StepTails(g, s, ops[|ops| - 1]);
    }
  }

  // ----- the refill policy is Next-Fit -----

  predicate FromWindow(o: Obj, c: int) {
    o.caller == c && o.path in {Window, Inline}
  }

  /** The sizes a context served from its windows, slow and inline path together, in order. */
  function Served(os: seq<Obj>, c: int): seq<int> {
    if os == [] then []
    else
      var before := Served(os[..|os| - 1], c);
      if FromWindow(os[|os| - 1], c) then before + [os[|os| - 1].size] else before
  }

  /** How many quanta a context was given. */
  function Quanta(bs: seq<Block>, c: int): nat {
    if bs == [] then 0 else Quanta(bs[..|bs| - 1], c) + (if bs[|bs| - 1].owner == c then 1 else 0)
  }

  /** `quanta` bins is what Next-Fit makes of `served`, and the last one is as full as window `w` says. */
  ghost predicate Packing(capacity: int, served: seq<int>, quanta: nat, w: Context) {
    var bins := Bins(capacity, served);
    && |bins| == quanta
    && Fitting(capacity, served)
    && (w.ptr == 0 <==> served == [])
    && (w.ptr != 0 ==> quanta > 0 && bins[quanta - 1] == capacity - w.Room())
  }

  /** The quanta of context `c` are the bins Next-Fit makes of the requests it served. */
  ghost predicate PackedAsNextFit(g: Config, s: State, c: int)
    requires 0 <= c < |s.ctxs|
  {
    Packing(g.Capacity(), Served(s.objs, c), Quanta(s.blocks, c), s.ctxs[c])
  }

  lemma ServedSnoc(os: seq<Obj>, o: Obj, c: int)
    ensures Served(os + [o], c) == if FromWindow(o, c) then Served(os, c) + [o.size] else Served(os, c)
  {
    assert (os + [o])[..|os|] == os;
  }

  lemma QuantaSnoc(bs: seq<Block>, b: Block, c: int)
    ensures Quanta(bs + [b], c) == Quanta(bs, c) + (if b.owner == c then 1 else 0)
  {
    assert (bs + [b])[..|bs|] == bs;
  }

  lemma BumpPacking(capacity: int, served: seq<int>, quanta: nat, w: Context, size: int)
    requires Packing(capacity, served, quanta, w)
    requires w.ptr > 0 && 0 <= size <= w.limit - w.ptr <= capacity
    ensures Packing(capacity, served + [size], quanta, w.(ptr := w.ptr + size))
  {
    BinsSnoc(capacity, served, size);
  }

  lemma RefillPacking(capacity: int, served: seq<int>, quanta: nat, w: Context, w': Context, size: int)
    requires Packing(capacity, served, quanta, w)
    requires w.ptr == 0 || w.Room() < size
    requires 0 <= size <= capacity && w'.ptr > 0 && w'.Room() == capacity - size
    ensures Packing(capacity, served + [size], quanta + 1, w')
  {
    BinsSnoc(capacity, served, size);
    WasteBound(capacity, served);
  }

  lemma BumpPacked(g: Config, s: State, c: int, size: int, path: Path, d: int)
    requires 0 <= c < |s.ctxs| && 0 <= d < |s.ctxs| && PackedAsNextFit(g, s, d)
    requires s.ctxs[c].ptr > 0 && 0 <= size <= s.ctxs[c].limit - s.ctxs[c].ptr <= g.Capacity()
    requires path in {Window, Inline}
    ensures PackedAsNextFit(g, BumpStep(s, c, size, path), d)
  {
    ServedSnoc(s.objs, Obj(s.ctxs[c].ptr, size, s.ctxs[c].blk, c, path), d);
    if d == c {
      BumpPacking(g.Capacity(), Served(s.objs, d), Quanta(s.blocks, d), s.ctxs[d], size);
    }
  }

  lemma RefillPacked(g: Config, s: State, c: int, size: int, answer: int, d: int)
    requires 0 <= c < |s.ctxs| && 0 <= d < |s.ctxs| && PackedAsNextFit(g, s, d)
    requires answer > 0 && 0 <= size <= g.Capacity()
    requires s.ctxs[c].ptr == 0 || s.ctxs[c].limit - s.ctxs[c].ptr < size
    ensures PackedAsNextFit(g, RefillStep(g, s, c, size, answer), d)
  {
    ServedSnoc(s.objs, Obj(answer + g.header, size, |s.blocks|, c, Window), d);
    QuantaSnoc(s.blocks, Block(answer, g.quantum, c), d);
    if d == c {
      RefillPacking(g.Capacity(), Served(s.objs, d), Quanta(s.blocks, d), s.ctxs[d],
        RefillStep(g, s, c, size, answer).ctxs[d], size);
    }
  }

  lemma DirectPacked(g: Config, s: State, c: int, size: int, oldHeap: bool, answer: int, d: int)
    requires 0 <= d < |s.ctxs| && PackedAsNextFit(g, s, d)
    ensures PackedAsNextFit(g, DirectStep(g, s, c, size, oldHeap, answer), d)
  {
    ServedSnoc(s.objs, Obj(answer + g.header, size, |s.blocks|, c, if oldHeap then OldHeap else Large), d);
    QuantaSnoc(s.blocks, Block(answer, size + g.header, -1), d);
  }

  lemma CorePacked(g: Config, s: State, c: int, size: int, oldHeap: bool, answer: int, d: int)
    requires g.Ok() && Inv(g, s) && Legal(g, s, Alloc(c, size, oldHeap, answer))
    requires 0 <= d < |s.ctxs| && PackedAsNextFit(g, s, d)
    ensures PackedAsNextFit(g, CoreStep(g, s, c, size, oldHeap, answer), d)
  {
    if 0 <= c {
      WindowAt(g, s, c);
    }
    hide Inv, PackedAsNextFit, ZeroFrom, BumpStep, RefillStep, DirectStep;
    match OutcomeOf(g, s, c, size, oldHeap)
    case Overflow =>
    case Direct =>
      if answer != 0 {
        DirectPacked(g, s, c, size, oldHeap, answer, d);
      }
    case Bump => BumpPacked(g, s, c, size, Window, d);
    case Refill =>
      if answer != 0 {
        RefillPacked(g, s, c, size, answer, d);
      }
  }

  lemma CountedPacked(g: Config, s: State, c: int, size: int, oldHeap: bool, d: int)
    requires c < |s.ctxs| && 0 <= d < |s.ctxs| && PackedAsNextFit(g, s, d)
    ensures PackedAsNextFit(g, Counted(s, c, size, oldHeap), d)
  {
  }

  lemma {:induction false} UnknownContext(os: seq<Obj>, bs: seq<Block>, c: int)
    requires (forall i :: 0 <= i < |os| ==> os[i].caller < c) && (forall k :: 0 <= k < |bs| ==> bs[k].owner < c)
    ensures Served(os, c) == [] && Quanta(bs, c) == 0
  {
    if os != [] {
      UnknownContext(os[..|os| - 1], bs, c);
    } else if bs != [] {
      UnknownContext(os, bs[..|bs| - 1], c);
    }
  }

  lemma StepPacked(g: Config, s: State, op: Op, d: int)
    requires g.Ok() && Inv(g, s) && Legal(g, s, op) && 0 <= d < |Step(g, s, op).ctxs|
    requires d < |s.ctxs| ==> PackedAsNextFit(g, s, d)
    ensures PackedAsNextFit(g, Step(g, s, op), d)
  {
    match op
    case Alloc(c, size, oldHeap, answer) =>
      CorePacked(g, s, c, size, oldHeap, answer, d);
      CountedPacked(g, CoreStep(g, s, c, size, oldHeap, answer), c, size, oldHeap, d);
    case FastBump(c, size) =>
      WindowAt(g, s, c);
      BumpPacked(g, s, c, size, Inline, d);
    case Mutate(_, _) =>
    case NewContext =>
      if d == |s.ctxs| {
        UnknownContext(s.objs, s.blocks, d);
      }
  }

  lemma {:induction false} RefillIsNextFit(g: Config, ops: seq<Op>, c: int)
    requires g.Ok() && LegalRun(g, ops) && 0 <= c < |Run(g, ops).ctxs|
    ensures PackedAsNextFit(g, Run(g, ops), c)
  {
    var rest := ops[..|ops| - 1];
    RunInv(g, rest);
    if c < |Run(g, rest).ctxs| {
      RefillIsNextFit(g, rest, c);
    }
    StepPacked(g, Run(g, rest), ops[|ops| - 1], c);
  }

  /**
   However contexts interleave: a context that used up two quanta or more served over half of
   all but one of them, and any packing of what it served into m quanta leaves it fewer than 2m.
   */
  lemma QuantaBound(g: Config, ops: seq<Op>, c: int)
    requires g.Ok() && LegalRun(g, ops) && 0 <= c < |Run(g, ops).ctxs|
    ensures var s := Run(g, ops);
            var k, served := Quanta(s.blocks, c), Served(s.objs, c);
            && (k >= 2 ==> (k - 1) * g.Capacity() < 2 * Sum(served))
            && (k == 0 <==> served == [])
            && forall choice, m: nat :: Packs(g.Capacity(), served, choice, m) && k > 0 ==> k <= 2 * m - 1
  {
    RefillIsNextFit(g, ops, c);
    var served := Served(Run(g, ops).objs, c);
    assert Fitting(g.Capacity(), served) && |Bins(g.Capacity(), served)| == Quanta(Run(g, ops).blocks, c);
    assert g.Capacity() > 0;
    hide *;
    WasteBound(g.Capacity(), served);
    forall choice, m: nat | Packs(g.Capacity(), served, choice, m) && served != []
      ensures |Bins(g.Capacity(), served)| <= 2 * m - 1
    {
      TwiceAnyPacking(g.Capacity(), served, choice, m);
    }
  }

  // ----- which objects go where -----

  /** Asked from a context without the flag, an object is in a quantum exactly when one can carry it. */
  ghost predicate PathRight(g: Config, o: Obj) {
    match o.path
    case Window => o.caller >= 0 && o.size <= g.Capacity()
    case Inline => o.caller >= 0 && o.size <= g.Capacity()
    case Large => o.caller < 0 || o.size > g.Capacity()
    case OldHeap => true
  }

  /** An object outside the quanta has a block of exactly its size and one header to itself. */
  ghost predicate OwnBlock(g: Config, bs: seq<Block>, o: Obj) {
    && 0 <= o.blk < |bs|
    && (if o.path in {Window, Inline} then bs[o.blk].owner == o.caller && bs[o.blk].len == g.quantum
        else bs[o.blk] == Block(o.addr - g.header, o.size + g.header, -1))
  }

  ghost predicate Placed(g: Config, s: State) {
    forall i :: 0 <= i < |s.objs| ==> PathRight(g, s.objs[i]) && OwnBlock(g, s.blocks, s.objs[i])
  }

  lemma StepPlaced(g: Config, s: State, op: Op)
    requires g.Ok() && Inv(g, s) && Legal(g, s, op) && Placed(g, s)
    ensures Placed(g, Step(g, s, op))
  {
    if (op.Alloc? || op.FastBump?) && op.c >= 0 {
      WindowAt(g, s, op.c);
      assert WindowInv(g, s, op.c);
    }
    var t := Step(g, s, op);
    hide Inv, Signed64, Zeros, ZeroFrom, WindowInv;
    forall i | 0 <= i < |t.objs| ensures PathRight(g, t.objs[i]) && OwnBlock(g, t.blocks, t.objs[i]) {
      assert i < |s.objs| ==> t.objs[i] == s.objs[i] && PathRight(g, s.objs[i]) && OwnBlock(g, s.blocks, s.objs[i]);
    }
  }

  lemma {:induction false} ObjectsPlaced(g: Config, ops: seq<Op>)
    requires g.Ok() && LegalRun(g, ops)
    ensures Placed(g, Run(g, ops))
  {
    if ops != [] {
      ObjectsPlaced(g, ops[..|ops| - 1]);
      RunInv(g, ops[..|ops| - 1]);
      StepPlaced(g, Run(g, ops[..|ops| - 1]), ops[|ops| - 1]);
    }
  }

  /** Null means an overflowing size, or a zeroing allocator that was asked and had nothing. */
  lemma NullExactlyOnFailure(g: Config, s: State, c: int, size: int, oldHeap: bool, answer: int)
    requires g.Ok() && Inv(g, s) && Legal(g, s, Alloc(c, size, oldHeap, answer))
    ensures Result(g, s, Alloc(c, size, oldHeap, answer)) == 0 <==>
            || size + g.header >= g.words
            || (answer == 0 && !(0 <= c && !oldHeap && size <= g.Capacity()
                                 && s.ctxs[c].ptr != 0 && size <= s.ctxs[c].Room()))
  {
    if c >= 0 {
      WindowAt(g, s, c);
    }
  }

  // ----- alignment -----

  ghost predicate Aligned(s: State) {
    && (forall i :: 0 <= i < |s.objs| ==> s.objs[i].addr % 8 == 0)
    && (forall c :: 0 <= c < |s.ctxs| ==> s.ctxs[c].ptr % 8 == 0)
  }

  /** Sizes in multiples of 8, blocks on 8-byte boundaries. */
  ghost predicate AlignedOp(op: Op) {
    match op
    case Alloc(_, size, _, answer) => size % 8 == 0 && answer % 8 == 0
    case FastBump(_, size) => size % 8 == 0
    case _ => true
  }

  lemma AlignedSum(a: int, b: int)
    requires a % 8 == 0 && b % 8 == 0
    ensures (a + b) % 8 == 0
  {
  }

  lemma StepAligned(g: Config, s: State, op: Op)
    requires g.header % 8 == 0 && Aligned(s) && AlignedOp(op)
    ensures Aligned(Step(g, s, op))
  {
    hide Signed64, Zeros;
    match op
    case Alloc(c, size, _, answer) =>
      AlignedSum(answer, g.header);
      AlignedSum(answer + g.header, size);
      if 0 <= c < |s.ctxs| {
        AlignedSum(s.ctxs[c].ptr, size);
      }
    case FastBump(c, size) =>
      if 0 <= c < |s.ctxs| {
        AlignedSum(s.ctxs[c].ptr, size);
      }
    case _ =>
  }

  lemma {:induction false} ObjectsAligned(g: Config, ops: seq<Op>)
    requires g.header % 8 == 0 && forall i :: 0 <= i < |ops| ==> AlignedOp(ops[i])
    ensures Aligned(Run(g, ops))
  {
    if ops != [] {
      ObjectsAligned(g, ops[..|ops| - 1]);
      StepAligned(g, Run(g, ops[..|ops| - 1]), ops[|ops| - 1]);
    }
  }

  // ----- the room for a header -----

  /** The room left for a header: its size plus 7 with the low three bits masked off, in a 64-bit word. */
  function ObjectGap(headerSize: nat): nat
    requires headerSize < WORD64
  {
    ((headerSize as bv64 + 7) & !7) as nat
  }

  /** The larger of the two sizes a header has, on 64-bit and on 32-bit targets. */
  const HEADER_MAX := 8

  /** The mask rounds up to a multiple of 8, in 64-bit words as in 32-bit ones. */
  lemma MaskRoundsUp(headerSize: nat)
    requires headerSize <= HEADER_MAX
    ensures ObjectGap(headerSize) == (headerSize + 7) / 8 * 8
    ensures ((headerSize as bv32 + 7) & !7) as nat == ObjectGap(headerSize)
  {
  }

  /** The gap is the least multiple of 8 not below the header size. */
  lemma ObjectGapIsLeast(headerSize: nat, m: nat)
    requires headerSize <= HEADER_MAX
    ensures ObjectGap(headerSize) % 8 == 0 && ObjectGap(headerSize) >= headerSize
    ensures m % 8 == 0 && m >= headerSize ==> m >= ObjectGap(headerSize)
  {
    MaskRoundsUp(headerSize);
    hide ObjectGap;
  }

  /** With the gap for a header, every object of every run is 8-aligned. */
  lemma GapAlignsObjects(g: Config, headerSize: nat, ops: seq<Op>, i: int)
    requires headerSize <= HEADER_MAX && g.header == ObjectGap(headerSize)
    requires forall k :: 0 <= k < |ops| ==> AlignedOp(ops[k])
    requires 0 <= i < |Run(g, ops).objs|
    ensures Run(g, ops).objs[i].addr % 8 == 0
  {
    ObjectGapIsLeast(headerSize, 0);
    hide ObjectGap;
    ObjectsAligned(g, ops);
  }
}
