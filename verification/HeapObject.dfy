/**
 The allocator as the core and the heap run it: contexts are objects whose pointers and
 counters are updated in place. Every method is tied to a step of `AllocSpec`. The answer of
 the zeroing allocator is a parameter: 0, or the start of a block no earlier block meets.
 */
module HeapObject {
  import opened AllocSpec
  import opened AllocSafety

  /** The part of the runtime's allocation context that the allocator touches. */
  class AllocContext {
    var allocPtr: int
    var allocLimit: int
    var allocBytes: int
    var allocBytesUoh: int
    ghost var blk: int

    constructor ()
      ensures Value() == NEW_CONTEXT
    {
      allocPtr, allocLimit, allocBytes, allocBytesUoh, blk := 0, 0, 0, 0, 0;
    }

    ghost function Value(): Context
      reads this
    {
      Context(allocPtr, allocLimit, blk, allocBytes, allocBytesUoh)
    }
  }

  ghost function Values(cs: seq<AllocContext>): (ws: seq<Context>)
    reads cs
    ensures |ws| == |cs| && forall c :: 0 <= c < |cs| ==> ws[c] == cs[c].Value()
  {
    seq(|cs|, c requires 0 <= c < |cs| reads cs => cs[c].Value())
  }

  class Heap {
    const g: Config
    var allocatedBytes: int
    var mem: map<int, int>
    ghost var blocks: seq<Block>
    ghost var objs: seq<Obj>
    ghost var tails: seq<Tail>
    ghost var ctxs: seq<AllocContext>

    ghost function Abs(): State
      reads this, ctxs
    {
      State(mem, blocks, objs, Values(ctxs), tails, allocatedBytes)
    }

    ghost predicate Distinct()
      reads this
    {
      forall i, j :: 0 <= i < j < |ctxs| ==> ctxs[i] != ctxs[j]
    }

    ghost predicate Valid()
      reads this, ctxs
    {
      g.Ok() && Distinct() && Inv(g, Abs())
    }

    /** The number of a known context; -1 for none. */
    ghost function Id(ctx: AllocContext?): (c: int)
      requires ctx == null || ctx in ctxs
      reads this
      ensures if ctx == null then c == -1 else 0 <= c < |ctxs| && ctxs[c] == ctx
    {
      if ctx == null then -1 else var c :| 0 <= c < |ctxs| && ctxs[c] == ctx; c
    }

    constructor (g: Config)
      requires g.Ok()
      ensures Valid() && this.g == g && Abs() == START
    {
      this.g := g;
      allocatedBytes, mem := 0, map[];
      blocks, objs, tails, ctxs := [], [], [], [];
    }

    /** Where context `c` alone has changed, the values differ there alone. */
    lemma OneChanged(cs: seq<AllocContext>, was: seq<Context>, c: int)
      requires 0 <= c < |cs| == |was|
      requires forall d :: 0 <= d < |cs| && d != c ==> cs[d].Value() == was[d]
      ensures Values(cs) == was[c := cs[c].Value()]
    {
      hide Values;
    }

    /** The zeroing allocator: null, or a block of `n` zero bytes. */
    method Zalloc(n: int, answer: int, ghost owner: int) returns (p: int)
      modifies this`mem, this`blocks
      ensures p == answer
      ensures p == 0 ==> mem == old(mem) && blocks == old(blocks)
      ensures p != 0 ==> mem == old(mem) + Zeros(p, n) && blocks == old(blocks) + [Block(p, n, owner)]
    {
      if answer == 0 {
        return 0;
      }
      mem := mem + Zeros(answer, n);
      blocks := blocks + [Block(answer, n, owner)];
      return answer;
    }

    method AllocDirect(size: int, answer: int, ghost caller: int, ghost oldHeap: bool) returns (p: int)
      requires Valid() && 0 <= size && size + g.header < g.words
      requires answer == 0 || Fresh(g, Abs(), answer, size + g.header)
      modifies this`mem, this`blocks, this`objs
      ensures p == if answer == 0 then 0 else answer + g.header
      ensures Abs() == if answer == 0 then old(Abs()) else DirectStep(g, old(Abs()), caller, size, oldHeap, answer)
    {
      WrapExact(g, size + g.header);
      WrapExact(g, answer + g.header);
      hide Inv, Config.Wrap, Zeros, Values;
      var address := Zalloc(g.Wrap(size + g.header), answer, -1);
      if address == 0 {
        return 0;
      }
      p := g.Wrap(address + g.header);
      objs := objs + [Obj(p, size, |old(blocks)|, caller, if oldHeap then OldHeap else Large)];
    }

    method CtxRefill(ctx: AllocContext, size: int, answer: int) returns (p: int)
      requires Valid() && ctx in ctxs && 0 <= size && size + g.header <= g.quantum
      requires answer == 0 || Fresh(g, Abs(), answer, g.quantum)
      modifies this`mem, this`blocks, this`objs, this`tails, ctx`allocPtr, ctx`allocLimit, ctx`blk
      ensures p == if answer == 0 then 0 else answer + g.header
      ensures Abs() == if answer == 0 then old(Abs()) else RefillStep(g, old(Abs()), Id(ctx), size, answer)
    {
      ghost var s, c := Abs(), Id(ctx);
      WrapExact(g, answer + g.header);
      WrapExact(g, answer + g.header + size);
      WrapExact(g, answer + g.quantum);
      hide Inv, Config.Wrap, Zeros, Values, Fresh;
      var base := Zalloc(g.quantum, answer, c);
      if base == 0 {
        return 0;
      }
      if ctx.allocPtr != 0 {
        tails := tails + [Tail(ctx.allocLimit - ctx.allocPtr, size)];
      }
      ctx.allocPtr := g.Wrap(base + g.header + size);
      ctx.allocLimit := g.Wrap(base + g.quantum);
      ctx.blk := |s.blocks|;
      p := g.Wrap(base + g.header);
      objs := objs + [Obj(p, size, |s.blocks|, c, Window)];
      OneChanged(ctxs, s.ctxs, c);
    }

    /** Serve from a window that has room. Also what the runtime's inline fast path does. */
    method BumpWindow(ctx: AllocContext, size: int, ghost path: Path) returns (p: int)
      requires Valid() && ctx in ctxs && ctx.allocPtr != 0 && 0 <= size <= ctx.allocLimit - ctx.allocPtr
      modifies this`objs, ctx`allocPtr
      ensures p == old(ctx.allocPtr) && p != 0
      ensures Abs() == BumpStep(old(Abs()), Id(ctx), size, path)
    {
      ghost var s, c := Abs(), Id(ctx);
      WindowAt(g, s, c);
      WrapExact(g, ctx.allocPtr + size);
      hide Inv, Config.Wrap, Values, ZeroFrom;
      p := ctx.allocPtr;
      ctx.allocPtr := g.Wrap(p + size);
      objs := objs + [Obj(p, size, ctx.blk, c, path)];
      OneChanged(ctxs, s.ctxs, c);
    }

    method CoreAlloc(ctx: AllocContext?, size: int, bypass: bool, answer: int) returns (p: int)
      requires Valid() && (ctx == null || ctx in ctxs)
      requires Legal(g, Abs(), AllocSpec.Alloc(Id(ctx), size, bypass, answer))
      modifies this`mem, this`blocks, this`objs, this`tails
      modifies if ctx == null then {} else {ctx}
      ensures Abs() == CoreStep(g, old(Abs()), Id(ctx), size, bypass, answer)
      ensures p == CoreResult(g, old(Abs()), Id(ctx), size, bypass, answer)
    {
      if size > g.words - 1 - g.header {
        return 0;
      }
      ghost var s, c := Abs(), Id(ctx);
      WrapExact(g, size + g.header);
      if ctx != null {
        WindowAt(g, s, c);
        if ctx.allocPtr != 0 {
          WrapExact(g, ctx.allocLimit - ctx.allocPtr);
        }
      }
      hide Inv, Config.Wrap, Values, Fresh, DirectStep, BumpStep, RefillStep, ZeroFrom;
      var sizeWithHeader := g.Wrap(size + g.header);
      if ctx == null || bypass || sizeWithHeader > g.quantum {
        p := AllocDirect(size, answer, c, bypass);
        return;
      }
      if ctx.allocPtr != 0 && g.Wrap(ctx.allocLimit - ctx.allocPtr) >= size {
        p := BumpWindow(ctx, size, Window);
        return;
      }
      p := CtxRefill(ctx, size, answer);
    }

    /** The counters after a success: the heap's total, and one of the context's two. */
    method Count(ctx: AllocContext?, size: int, oldHeap: bool)
      requires Distinct() && (ctx == null || ctx in ctxs)
      modifies this`allocatedBytes
      modifies (if ctx == null then {} else {ctx})`allocBytes, (if ctx == null then {} else {ctx})`allocBytesUoh
      ensures Abs() == Counted(old(Abs()), Id(ctx), size, oldHeap)
    {
      hide Values, Signed64;
      ghost var s, c := Abs(), Id(ctx);
      allocatedBytes := (allocatedBytes + size) % WORD64;
      if ctx != null {
        if oldHeap {
          ctx.allocBytesUoh := Signed64(ctx.allocBytesUoh + Signed64(size));
        } else {
          ctx.allocBytes := Signed64(ctx.allocBytes + Signed64(size));
        }
        OneChanged(ctxs, s.ctxs, c);
      }
    }

    /** One allocation: the object is zero, header included, and the counters advance on success only. */
    method Alloc(ctx: AllocContext?, size: int, oldHeap: bool, answer: int) returns (p: int)
      requires Valid() && (ctx == null || ctx in ctxs)
      requires Legal(g, Abs(), AllocSpec.Alloc(Id(ctx), size, oldHeap, answer))
      modifies this, if ctx == null then {} else {ctx}
      ensures Valid() && ctxs == old(ctxs)
      ensures Abs() == Step(g, old(Abs()), AllocSpec.Alloc(Id(ctx), size, oldHeap, answer))
      ensures p == Result(g, old(Abs()), AllocSpec.Alloc(Id(ctx), size, oldHeap, answer))
      ensures p != 0 ==> ZeroFrom(mem, p - g.header, p + size)
    {
      ghost var s, op := Abs(), AllocSpec.Alloc(Id(ctx), size, oldHeap, answer);
      StepInv(g, s, op);
      hide Inv, CoreStep, CoreResult, Counted, Values, ZeroFrom;
      CoreKeepsContexts(g, s, Id(ctx), size, oldHeap, answer);
      p := CoreAlloc(ctx, size, oldHeap, answer);
      if p != 0 {
        Count(ctx, size, oldHeap);
        ZeroOnReturn(g, s, op);
      }
    }

    /** The runtime's own inline allocation inside the window. */
    method InlineAlloc(ctx: AllocContext, size: int) returns (p: int)
      requires Valid() && ctx in ctxs && Legal(g, Abs(), FastBump(Id(ctx), size))
      modifies this`objs, ctx`allocPtr
      ensures Valid() && Abs() == Step(g, old(Abs()), FastBump(Id(ctx), size))
      ensures p == old(ctx.allocPtr) && ZeroFrom(mem, p - g.header, p + size)
    {
      StepInv(g, Abs(), FastBump(Id(ctx), size));
      ZeroOnReturn(g, Abs(), FastBump(Id(ctx), size));
      hide Inv, ZeroFrom, Values;
      p := BumpWindow(ctx, size, Inline);
    }

    /** A mutator writes a byte of an object it was given. */
    method Write(at: int, value: int)
      requires Valid() && Legal(g, Abs(), Mutate(at, value))
      modifies this`mem
      ensures Valid() && Abs() == Step(g, old(Abs()), Mutate(at, value))
      ensures at in mem && mem[at] == value
      ensures forall a :: a in old(mem) && a != at ==> a in mem && mem[a] == old(mem)[a]
    {
      StepInv(g, Abs(), Mutate(at, value));
      hide Inv, Values;
      mem := mem[at := value];
    }

    method AddContext() returns (ctx: AllocContext)
      requires Valid()
      modifies this`ctxs
      ensures Valid() && fresh(ctx) && ctxs == old(ctxs) + [ctx]
      ensures Abs() == Step(g, old(Abs()), NewContext)
    {
      StepInv(g, Abs(), NewContext);
      hide Inv, Values;
      ctx := new AllocContext();
      ctxs := ctxs + [ctx];
      assert Abs().ctxs == old(Abs()).ctxs + [NEW_CONTEXT];
    }
  }
}
