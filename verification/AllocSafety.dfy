/** Objects never overlap, lie in their blocks, and are zero when returned, over every run. */
module AllocSafety {
  import opened AllocSpec

  // ----- the invariant -----

  ghost predicate BlocksApart(g: Config, bs: seq<Block>) {
    && (forall k :: 0 <= k < |bs| ==> 0 < bs[k].start && 0 < bs[k].len && bs[k].start + bs[k].len < g.words)
    && (forall j, k :: 0 <= j < k < |bs| ==>
          bs[j].start + bs[j].len <= bs[k].start || bs[k].start + bs[k].len <= bs[j].start)
  }

  ghost predicate BlocksMapped(bs: seq<Block>, mem: map<int, int>) {
    forall k, a :: 0 <= k < |bs| && bs[k].start <= a < bs[k].start + bs[k].len ==> a in mem
  }

  /** Blocks and objects belong to contexts that exist. */
  ghost predicate Owned(bs: seq<Block>, os: seq<Obj>, n: nat) {
    && (forall k :: 0 <= k < |bs| ==> -1 <= bs[k].owner < n)
    && (forall i :: 0 <= i < |os| ==> -1 <= os[i].caller < n)
  }

  /** Header, payload and the next header of `o` are inside its block. */
  ghost predicate InBlock(g: Config, bs: seq<Block>, o: Obj) {
    && 0 <= o.blk < |bs| && 0 <= o.size
    && bs[o.blk].start <= o.addr - g.header && o.addr + o.size <= bs[o.blk].start + bs[o.blk].len
  }

  ghost predicate ObjsApart(g: Config, bs: seq<Block>, os: seq<Obj>) {
    && (forall i :: 0 <= i < |os| ==> InBlock(g, bs, os[i]))
    && (forall i, j :: 0 <= i < j < |os| && os[i].blk == os[j].blk ==> os[i].addr + os[i].size <= os[j].addr)
  }

  /** The window condition: inside one quantum of its own, ending where the quantum ends. */
  ghost predicate WindowOk(g: Config, bs: seq<Block>, w: Context, c: int) {
    w.ptr != 0 ==>
      && 0 <= w.blk < |bs| && bs[w.blk].owner == c && bs[w.blk].len == g.quantum
      && bs[w.blk].start + g.header <= w.ptr <= w.limit == bs[w.blk].start + g.quantum
  }

  /** Everything handed out of the window's quantum lies before the window. */
  ghost predicate WindowUnused(os: seq<Obj>, w: Context) {
    w.ptr != 0 ==> forall i :: 0 <= i < |os| && os[i].blk == w.blk ==> os[i].addr + os[i].size <= w.ptr
  }

  ghost predicate ZeroFrom(mem: map<int, int>, lo: int, hi: int) {
    forall a :: lo <= a < hi ==> a in mem && mem[a] == 0
  }

  /** The window and the header before it still hold the zeros of the fresh quantum. */
  ghost predicate WindowZero(g: Config, mem: map<int, int>, w: Context) {
    w.ptr != 0 ==> ZeroFrom(mem, w.ptr - g.header, w.limit)
  }

  ghost predicate WindowInv(g: Config, s: State, c: int)
    requires 0 <= c < |s.ctxs|
  {
    WindowOk(g, s.blocks, s.ctxs[c], c) && WindowUnused(s.objs, s.ctxs[c]) && WindowZero(g, s.mem, s.ctxs[c])
  }

  ghost predicate Inv(g: Config, s: State) {
    && BlocksApart(g, s.blocks) && BlocksMapped(s.blocks, s.mem) && Owned(s.blocks, s.objs, |s.ctxs|)
    && ObjsApart(g, s.blocks, s.objs)
    && forall c :: 0 <= c < |s.ctxs| ==> WindowInv(g, s, c)
  }

  /** What the invariant says of one context. */
  lemma WindowAt(g: Config, s: State, c: int)
    requires g.Ok() && Inv(g, s) && 0 <= c < |s.ctxs|
    ensures var w := s.ctxs[c];
            w.ptr != 0 ==>
              && 0 < g.header < w.ptr <= w.limit < g.words && w.limit - w.ptr <= g.Capacity()
              && ZeroFrom(s.mem, w.ptr - g.header, w.limit)
  {
    assert WindowInv(g, s, c);
  }

  // ----- kept by every step -----

  lemma ObjsApartSnoc(g: Config, bs: seq<Block>, os: seq<Obj>, o: Obj)
    requires ObjsApart(g, bs, os) && InBlock(g, bs, o)
    requires forall i :: 0 <= i < |os| && os[i].blk == o.blk ==> os[i].addr + os[i].size <= o.addr
    ensures ObjsApart(g, bs, os + [o])
  {
  }

  lemma ObjsApartMoreBlocks(g: Config, bs: seq<Block>, os: seq<Obj>, b: Block)
    requires ObjsApart(g, bs, os)
    ensures ObjsApart(g, bs + [b], os)
    ensures forall i :: 0 <= i < |os| ==> os[i].blk != |bs|
  {
    forall i | 0 <= i < |os| ensures InBlock(g, bs + [b], os[i]) && os[i].blk != |bs| {
      assert InBlock(g, bs, os[i]);
    }
  }

  lemma BlocksSnoc(g: Config, s: State, b: Block)
    requires BlocksApart(g, s.blocks) && BlocksMapped(s.blocks, s.mem)
    requires Fresh(g, s, b.start, b.len) && 0 < b.len
    ensures BlocksApart(g, s.blocks + [b]) && BlocksMapped(s.blocks + [b], s.mem + Zeros(b.start, b.len))
    ensures ZeroFrom(s.mem + Zeros(b.start, b.len), b.start, b.start + b.len)
  {
  }

  /** A fresh block leaves every window as it was. */
  lemma WindowsKeepBlock(g: Config, s: State, b: Block, c: int)
    requires 0 <= c < |s.ctxs| && WindowInv(g, s, c)
    ensures WindowInv(g, WithBlock(s, b.start, b.len, b.owner), c)
    ensures s.ctxs[c].ptr != 0 ==> s.ctxs[c].blk != |s.blocks|
  {
  }

  /** A fresh block together with the object at its start. */
  lemma BlockWithObjInv(g: Config, s: State, b: Block, size: int, caller: int, path: Path)
    requires g.Ok() && Inv(g, s) && Fresh(g, s, b.start, b.len) && -1 <= b.owner < |s.ctxs|
    requires 0 <= size && size + g.header <= b.len && -1 <= caller < |s.ctxs|
    ensures var t := WithObj(WithBlock(s, b.start, b.len, b.owner), b.start + g.header, size, |s.blocks|, caller, path);
            && Inv(g, t) && ZeroFrom(t.mem, b.start, b.start + b.len)
            && (forall c :: 0 <= c < |s.ctxs| && s.ctxs[c].ptr != 0 ==> s.ctxs[c].blk != |s.blocks|)
            && (forall i :: 0 <= i < |s.objs| ==> s.objs[i].blk != |s.blocks|)
  {
    var u := WithBlock(s, b.start, b.len, b.owner);
    var o := Obj(b.start + g.header, size, |s.blocks|, caller, path);
    var t := WithObj(u, o.addr, size, o.blk, caller, path);
    BlocksSnoc(g, s, b);
    ObjsApartMoreBlocks(g, s.blocks, s.objs, b);
    ObjsApartSnoc(g, u.blocks, s.objs, o);
    hide BlocksApart, BlocksMapped, ObjsApart, Fresh, ZeroFrom;
    forall c | 0 <= c < |s.ctxs| ensures WindowInv(g, t, c) && (s.ctxs[c].ptr != 0 ==> s.ctxs[c].blk != |s.blocks|) {
      WindowsKeepBlock(g, s, b, c);
    }
  }

  lemma BumpInv(g: Config, s: State, c: int, size: int, path: Path)
    requires g.Ok() && Inv(g, s) && 0 <= c < |s.ctxs|
    requires s.ctxs[c].ptr != 0 && 0 <= size <= s.ctxs[c].limit - s.ctxs[c].ptr
    ensures Inv(g, BumpStep(s, c, size, path))
  {
    var t := BumpStep(s, c, size, path);
    var w := s.ctxs[c];
    assert WindowInv(g, s, c);
    ObjsApartSnoc(g, s.blocks, s.objs, Obj(w.ptr, size, w.blk, c, path));
    hide BlocksApart, BlocksMapped, ObjsApart;
    forall d | 0 <= d < |t.ctxs| ensures WindowInv(g, t, d) {
      assert WindowInv(g, s, d);
    }
  }

  lemma RefillInv(g: Config, s: State, c: int, size: int, answer: int)
    requires g.Ok() && Inv(g, s) && 0 <= c < |s.ctxs| && 0 <= size && size + g.header <= g.quantum
    requires Fresh(g, s, answer, g.quantum)
    ensures Inv(g, RefillStep(g, s, c, size, answer))
  {
    var b := Block(answer, g.quantum, c);
    BlockWithObjInv(g, s, b, size, c, Window);
    hide BlocksApart, BlocksMapped, ObjsApart, Fresh;
    var u := WithObj(WithBlock(s, b.start, b.len, c), answer + g.header, size, |s.blocks|, c, Window);
    var t := RefillStep(g, s, c, size, answer);
    forall d | 0 <= d < |t.ctxs| ensures WindowInv(g, t, d) {
      assert WindowInv(g, u, d);
    }
  }

  lemma CountedInv(g: Config, s: State, c: int, size: int, oldHeap: bool)
    requires Inv(g, s) && c < |s.ctxs|
    ensures Inv(g, Counted(s, c, size, oldHeap))
  {
    hide BlocksApart, BlocksMapped, ObjsApart, Signed64;
    var t := Counted(s, c, size, oldHeap);
    forall d | 0 <= d < |t.ctxs| ensures WindowInv(g, t, d) {
      assert WindowInv(g, s, d);
    }
  }

  /** A byte of an object is not a byte of a window. */
  lemma ExtentOutsideWindow(g: Config, s: State, i: int, at: int, c: int)
    requires g.Ok() && Inv(g, s) && 0 <= i < |s.objs| && Extent(g, s.objs[i], at) && 0 <= c < |s.ctxs|
    ensures s.ctxs[c].ptr != 0 ==> at < s.ctxs[c].ptr - g.header || s.ctxs[c].limit <= at
  {
    assert InBlock(g, s.blocks, s.objs[i]);
    assert WindowInv(g, s, c);
  }

  lemma MutateInv(g: Config, s: State, at: int, value: int)
    requires g.Ok() && Inv(g, s) && Legal(g, s, Mutate(at, value))
    ensures Inv(g, Step(g, s, Mutate(at, value)))
  {
    var t := Step(g, s, Mutate(at, value));
    var i :| 0 <= i < |s.objs| && Extent(g, s.objs[i], at);
    forall c | 0 <= c < |t.ctxs| ensures WindowInv(g, t, c) {
      assert WindowInv(g, s, c);
      ExtentOutsideWindow(g, s, i, at, c);
    }
  }

  lemma NewContextInv(g: Config, s: State)
    requires Inv(g, s)
    ensures Inv(g, Step(g, s, NewContext))
  {
    var t := Step(g, s, NewContext);
    forall c | 0 <= c < |t.ctxs| ensures WindowInv(g, t, c) {
      assert c < |s.ctxs| ==> WindowInv(g, s, c);
    }
  }

  lemma CoreInv(g: Config, s: State, c: int, size: int, oldHeap: bool, answer: int)
    requires g.Ok() && Inv(g, s) && Legal(g, s, Alloc(c, size, oldHeap, answer))
    ensures Inv(g, CoreStep(g, s, c, size, oldHeap, answer))
  {
    hide Inv, Fresh;
    match OutcomeOf(g, s, c, size, oldHeap)
    case Overflow =>
    case Direct =>
      if answer != 0 {
        BlockWithObjInv(g, s, Block(answer, size + g.header, -1), size, c, if oldHeap then OldHeap else Large);
      }
    case Bump => BumpInv(g, s, c, size, Window);
    case Refill =>
      if answer != 0 {
        RefillInv(g, s, c, size, answer);
      }
  }

  lemma CoreKeepsContexts(g: Config, s: State, c: int, size: int, oldHeap: bool, answer: int)
    requires c < |s.ctxs|
    ensures |CoreStep(g, s, c, size, oldHeap, answer).ctxs| == |s.ctxs|
  {
  }

  lemma StepInv(g: Config, s: State, op: Op)
    requires g.Ok() && Inv(g, s) && Legal(g, s, op)
    ensures Inv(g, Step(g, s, op))
  {
    hide Inv, Counted, BumpStep, DirectStep, RefillStep, Fresh;
    match op
    case Alloc(c, size, oldHeap, answer) =>
      CoreInv(g, s, c, size, oldHeap, answer);
      CoreKeepsContexts(g, s, c, size, oldHeap, answer);
      CountedInv(g, CoreStep(g, s, c, size, oldHeap, answer), c, size, oldHeap);
    case FastBump(c, size) => BumpInv(g, s, c, size, Inline);
    case Mutate(at, value) => MutateInv(g, s, at, value);
    case NewContext => NewContextInv(g, s);
  }

  lemma {:induction false} RunInv(g: Config, ops: seq<Op>)
    requires g.Ok() && LegalRun(g, ops)
    ensures Inv(g, Run(g, ops))
  {
    if ops != [] {
      RunInv(g, ops[..|ops| - 1]);
      StepInv(g, Run(g, ops[..|ops| - 1]), ops[|ops| - 1]);
    }
  }

  // ----- what it means for the program -----

  /** An address two different blocks would share does not exist. */
  lemma BlocksNeverOverlap(g: Config, ops: seq<Op>, j: int, k: int, a: int)
    requires g.Ok() && LegalRun(g, ops)
    requires var b := Run(g, ops).blocks;
             && 0 <= j < |b| && 0 <= k < |b|
             && b[j].start <= a < b[j].start + b[j].len && b[k].start <= a < b[k].start + b[k].len
    ensures j == k
  {
    RunInv(g, ops);
  }

  /** No address belongs to two objects, headers included, whatever paths returned them. */
  lemma ObjectsNeverOverlap(g: Config, ops: seq<Op>, i: int, j: int, a: int)
    requires g.Ok() && LegalRun(g, ops)
    requires var objs := Run(g, ops).objs;
             0 <= i < |objs| && 0 <= j < |objs| && Extent(g, objs[i], a) && Extent(g, objs[j], a)
    ensures i == j
  {
    RunInv(g, ops);
    var s := Run(g, ops);
    assert InBlock(g, s.blocks, s.objs[i]) && InBlock(g, s.blocks, s.objs[j]);
    BlocksNeverOverlap(g, ops, s.objs[i].blk, s.objs[j].blk, a);
  }

  /** Header, payload and the header after it lie in one block, which lies in the address space. */
  lemma ObjectsInsideOneBlock(g: Config, ops: seq<Op>, i: int)
    requires g.Ok() && LegalRun(g, ops) && 0 <= i < |Run(g, ops).objs|
    ensures var s := Run(g, ops);
            var o := s.objs[i];
            && 0 <= o.blk < |s.blocks|
            && 0 < s.blocks[o.blk].start <= o.addr - g.header
            && o.addr + o.size <= s.blocks[o.blk].start + s.blocks[o.blk].len < g.words
            && forall a :: o.addr - g.header <= a < o.addr + o.size ==> a in s.mem
  {
    RunInv(g, ops);
    assert InBlock(g, Run(g, ops).blocks, Run(g, ops).objs[i]);
  }

  lemma ZeroOnReturn(g: Config, s: State, op: Op)
    requires g.Ok() && Inv(g, s) && Legal(g, s, op) && Result(g, s, op) != 0
    ensures ZeroFrom(Step(g, s, op).mem, Result(g, s, op) - g.header, Result(g, s, op) + op.size)
  {
    match op
    case Alloc(c, size, oldHeap, answer) =>
      if c >= 0 {
        WindowAt(g, s, c);
      }
    case FastBump(c, size) => WindowAt(g, s, c);
  }

  /**
   Whatever mutators wrote into earlier objects, an object is returned with header and payload
   all zero, by the bump and inline paths as much as by the fresh ones, and is recorded as new.
   */
  lemma ReturnedZeroed(g: Config, ops: seq<Op>, op: Op)
    requires g.Ok() && LegalRun(g, ops + [op]) && Result(g, Run(g, ops), op) != 0
    ensures var s, t, p := Run(g, ops), Run(g, ops + [op]), Result(g, Run(g, ops), op);
            && |t.objs| == |s.objs| + 1 && t.objs[..|s.objs|] == s.objs
            && t.objs[|s.objs|].addr == p && t.objs[|s.objs|].size == op.size
            && ZeroFrom(t.mem, p - g.header, p + op.size)
  {
    assert (ops + [op])[..|ops|] == ops;
    RunInv(g, ops);
    ZeroOnReturn(g, Run(g, ops), op);
  }

  /** The window condition, in full strength, holds for every context after every run. */
  lemma WindowsStayGood(g: Config, ops: seq<Op>, c: int)
    requires g.Ok() && LegalRun(g, ops) && 0 <= c < |Run(g, ops).ctxs| && Run(g, ops).ctxs[c].ptr != 0
    ensures var s := Run(g, ops);
            var w := s.ctxs[c];
            && 0 <= w.limit - w.ptr <= g.Capacity()
            && 0 <= w.blk < |s.blocks| && s.blocks[w.blk].owner == c
            && s.blocks[w.blk].start <= w.ptr - g.header && w.limit == s.blocks[w.blk].start + s.blocks[w.blk].len
            && ZeroFrom(s.mem, w.ptr - g.header, w.limit)
            && forall i :: 0 <= i < |s.objs| ==>
                 forall a :: Extent(g, s.objs[i], a) ==> a < w.ptr - g.header || w.limit <= a
  {
    RunInv(g, ops);
    var s := Run(g, ops);
    assert WindowInv(g, s, c);
    forall i, a | 0 <= i < |s.objs| && Extent(g, s.objs[i], a)
      ensures a < s.ctxs[c].ptr - g.header || s.ctxs[c].limit <= a
    {
      ExtentOutsideWindow(g, s, i, a, c);
    }
  }

  /**
   A step moves the window of no context but its own, and none at all when the request
   overflows, goes direct, or runs out of memory.
   */
  lemma WindowFrame(g: Config, s: State, op: Op, d: int)
    requires g.Ok() && Legal(g, s, op) && 0 <= d < |s.ctxs|
    requires match op
             case Alloc(c, size, oldHeap, answer) =>
               || c != d || OutcomeOf(g, s, c, size, oldHeap) in {Overflow, Direct}
               || Result(g, s, op) == 0
             case FastBump(c, _) => c != d
             case _ => true
    ensures var w, w' := s.ctxs[d], Step(g, s, op).ctxs[d];
            w'.ptr == w.ptr && w'.limit == w.limit && w'.blk == w.blk
  {
  }
}
