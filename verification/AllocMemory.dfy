/** What memory holds: the last byte written to it, over every run. */
module AllocMemory {
  import opened AllocSpec
  import opened AllocSafety

  ghost predicate InABlock(bs: seq<Block>, a: int) {
    exists k :: 0 <= k < |bs| && bs[k].start <= a < bs[k].start + bs[k].len
  }

  /** Nothing is mapped but the blocks. */
  ghost predicate OnlyBlocks(bs: seq<Block>, mem: map<int, int>) {
    forall a :: a in mem ==> InABlock(bs, a)
  }

  lemma MoreBlocks(bs: seq<Block>, b: Block, a: int)
    requires InABlock(bs, a) || b.start <= a < b.start + b.len
    ensures InABlock(bs + [b], a)
  {
    if InABlock(bs, a) {
      var k :| 0 <= k < |bs| && bs[k].start <= a < bs[k].start + bs[k].len;
      assert (bs + [b])[k] == bs[k];
    } else {
      assert (bs + [b])[|bs|] == b;
    }
  }

  /** Mapped bytes stay as they are, and what is added is zero. */
  ghost predicate Extends(m: map<int, int>, m': map<int, int>) {
    && (forall a :: a in m ==> a in m' && m'[a] == m[a])
    && (forall a :: a in m' && a !in m ==> m'[a] == 0)
  }

  /** A fresh block brings zeros, and meets nothing that is mapped. */
  lemma FreshMemory(g: Config, s: State, b: Block)
    requires OnlyBlocks(s.blocks, s.mem) && Fresh(g, s, b.start, b.len)
    ensures var t := WithBlock(s, b.start, b.len, b.owner);
            OnlyBlocks(t.blocks, t.mem) && Extends(s.mem, t.mem)
  {
    var t := WithBlock(s, b.start, b.len, b.owner);
    forall a | a in t.mem ensures InABlock(t.blocks, a) {
      MoreBlocks(s.blocks, b, a);
    }
    forall a | a in s.mem ensures !(b.start <= a < b.start + b.len) {
      var k :| 0 <= k < |s.blocks| && s.blocks[k].start <= a < s.blocks[k].start + s.blocks[k].len;
    }
  }

  lemma DirectMemory(g: Config, s: State, c: int, size: int, oldHeap: bool, answer: int)
    ensures var t, u := DirectStep(g, s, c, size, oldHeap, answer), WithBlock(s, answer, size + g.header, -1);
            t.mem == u.mem && t.blocks == u.blocks
  {
  }

  lemma WindowMemory(g: Config, s: State, c: int, size: int, path: Path, answer: int)
    requires 0 <= c < |s.ctxs|
    ensures var t := BumpStep(s, c, size, path); t.mem == s.mem && t.blocks == s.blocks
    ensures var t, u := RefillStep(g, s, c, size, answer), WithBlock(s, answer, g.quantum, c);
            t.mem == u.mem && t.blocks == u.blocks
  {
  }

  lemma CoreMemory(g: Config, s: State, c: int, size: int, oldHeap: bool, answer: int)
    requires g.Ok() && OnlyBlocks(s.blocks, s.mem) && Legal(g, s, Alloc(c, size, oldHeap, answer))
    ensures var t := CoreStep(g, s, c, size, oldHeap, answer);
            OnlyBlocks(t.blocks, t.mem) && Extends(s.mem, t.mem)
  {
    assert Extends(s.mem, s.mem);
    hide OnlyBlocks, Extends, Fresh, DirectStep, BumpStep, RefillStep, WithBlock;
    DirectMemory(g, s, c, size, oldHeap, answer);
    if c >= 0 {
      WindowMemory(g, s, c, size, Window, answer);
    }
    match OutcomeOf(g, s, c, size, oldHeap)
    case Direct => if answer != 0 { FreshMemory(g, s, Block(answer, size + g.header, -1)); }
    case Refill => if answer != 0 { FreshMemory(g, s, Block(answer, g.quantum, c)); }
    case _ =>
  }

  /** The byte that a mutator's write leaves at `a`, or the byte that was there. */
  function ByteAfter(op: Op, a: int, before: int): int {
    if op.Mutate? && op.at == a then op.value else before
  }

  /** A step changes the one byte a mutator names, and no other byte of memory; what it adds is zero. */
  lemma StepMemory(g: Config, s: State, op: Op)
    requires g.Ok() && Inv(g, s) && OnlyBlocks(s.blocks, s.mem) && Legal(g, s, op)
    ensures var t := Step(g, s, op);
            && OnlyBlocks(t.blocks, t.mem)
            && (forall a :: a in s.mem ==> a in t.mem && t.mem[a] == ByteAfter(op, a, s.mem[a]))
            && (forall a :: a in t.mem && a !in s.mem ==> t.mem[a] == 0)
            && (op.Mutate? ==> op.at in s.mem)
  {
    match op
    case Alloc(c, size, oldHeap, answer) =>
      hide Inv, CoreStep, CoreResult, Signed64;
      CoreKeepsContexts(g, s, c, size, oldHeap, answer);
      CoreMemory(g, s, c, size, oldHeap, answer);
    case FastBump(_, _) =>
    case Mutate(at, _) =>
      var i :| 0 <= i < |s.objs| && Extent(g, s.objs[i], at);
      assert InBlock(g, s.blocks, s.objs[i]);
    case NewContext =>
  }

  /** The last byte a mutator wrote at `a` along a run, 0 if none did. */
  function LastByte(ops: seq<Op>, a: int): int {
    if ops == [] then 0 else ByteAfter(ops[|ops| - 1], a, LastByte(ops[..|ops| - 1], a))
  }

  /**
   Over every run, through any allocations, every mapped byte is the last one a mutator wrote
   there, and zero if none has; nothing was ever written where nothing is mapped.
   */
  lemma {:induction false} MemoryHoldsLastByte(g: Config, ops: seq<Op>, a: int)
    requires g.Ok() && LegalRun(g, ops)
    ensures OnlyBlocks(Run(g, ops).blocks, Run(g, ops).mem)
    ensures if a in Run(g, ops).mem then Run(g, ops).mem[a] == LastByte(ops, a) else LastByte(ops, a) == 0
  {
    if ops != [] {
      var rest := ops[..|ops| - 1];
      MemoryHoldsLastByte(g, rest, a);
      RunInv(g, rest);
      StepMemory(g, Run(g, rest), ops[|ops| - 1]);
    }
  }

  /** A write is read back at once, and moves no other byte. */
  lemma WriteIsRead(g: Config, s: State, at: int, value: int, a: int)
    requires g.Ok() && Inv(g, s) && Legal(g, s, Mutate(at, value))
    ensures var t := Step(g, s, Mutate(at, value));
            && at in t.mem && t.mem[at] == value
            && (a != at && a in s.mem ==> a in t.mem && t.mem[a] == s.mem[a])
            && t.(mem := s.mem) == s
  {
  }
}
