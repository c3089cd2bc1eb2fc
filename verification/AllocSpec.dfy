/**
 The allocator as a state machine over whole runs: memory, the blocks obtained from the
 zeroing allocator, every object ever returned, and any number of allocation contexts.
 One step is a call of `Alloc`, a bump by the runtime's inline fast path, a write by a
 mutator, or the birth of a context.
 */
module AllocSpec {
  import opened Sums

  /** Quantum size, header size, and the number of values of `size_t`. */
  datatype Config = Config(quantum: nat, header: nat, words: nat) {
    ghost predicate Ok() {
      1 <= header && 2 * header <= quantum && quantum < words && words <= WORD64
    }

    /** What one quantum can carry besides its first header. */
    function Capacity(): int { quantum - header }

    /** Arithmetic of `size_t`. */
    function Wrap(x: int): int
      requires words > 0
    {
      x % words
    }
  }

  lemma WrapExact(g: Config, x: int)
    requires 0 <= x < g.words
    ensures g.Wrap(x) == x
  {
  }

  const WORD64 := 0x1_0000_0000_0000_0000
  const HALF64 := 0x8000_0000_0000_0000

  /** Two's complement reading of the low 64 bits. */
  function Signed64(x: int): int {
    (x + HALF64) % WORD64 - HALF64
  }

  /**
   An allocation context: the window [ptr, limit), null when `ptr` is 0, the block the window
   lies in, and the byte counters of the runtime's interface.
   */
  datatype Context = Context(ptr: int, limit: int, blk: int, bytes: int, bytesUoh: int) {
    function Room(): int { if ptr == 0 then 0 else limit - ptr }
  }

  const NEW_CONTEXT := Context(0, 0, 0, 0, 0)

  /** A block of zeroed memory; `owner` is the context it was a quantum of, or -1. */
  datatype Block = Block(start: int, len: int, owner: int)

  /** How an object was obtained: flagged old-heap, otherwise direct, slow path in the window, inline fast path. */
  datatype Path = OldHeap | Large | Window | Inline

  /** An object, the block it lies in, and the context it was asked from (-1 for none). */
  datatype Obj = Obj(addr: int, size: int, blk: int, caller: int, path: Path)

  /** A rest of a window given up on a refill, and the size of the request that did not fit. */
  datatype Tail = Tail(bytes: int, request: int)

  datatype State = State(
    mem: map<int, int>, blocks: seq<Block>, objs: seq<Obj>, ctxs: seq<Context>, tails: seq<Tail>,
    allocatedBytes: int)

  const START := State(map[], [], [], [], [], 0)

  datatype Op =
    | Alloc(c: int, size: int, oldHeap: bool, answer: int)
    | FastBump(c: int, size: int)
    | Mutate(at: int, value: int)
    | NewContext

  // ----- one call of the allocator -----

  datatype Outcome = Overflow | Direct | Bump | Refill

  function OutcomeOf(g: Config, s: State, c: int, size: int, oldHeap: bool): Outcome
    requires c < |s.ctxs|
  {
    if size > g.words - 1 - g.header then Overflow
    else if c < 0 || oldHeap || size + g.header > g.quantum then Direct
    else if s.ctxs[c].ptr != 0 && s.ctxs[c].limit - s.ctxs[c].ptr >= size then Bump
    else Refill
  }

  /** How many bytes the call asks of the zeroing allocator; 0 when it does not call it. */
  function Request(g: Config, o: Outcome, size: int): int {
    match o
    case Direct => size + g.header
    case Refill => g.quantum
    case _ => 0
  }

  /** The memory of a fresh block: `len` zero bytes. */
  function Zeros(start: int, len: int): (z: map<int, int>)
    ensures forall a :: a in z <==> start <= a < start + len
    ensures forall a :: a in z ==> z[a] == 0
  {
    if len <= 0 then map[] else Zeros(start, len - 1)[start + len - 1 := 0]
  }

  function WithBlock(s: State, start: int, len: int, owner: int): State {
    s.(mem := s.mem + Zeros(start, len), blocks := s.blocks + [Block(start, len, owner)])
  }

  function WithObj(s: State, addr: int, size: int, blk: int, caller: int, path: Path): State {
    s.(objs := s.objs + [Obj(addr, size, blk, caller, path)])
  }

  function WithWindow(s: State, c: int, ptr: int, limit: int, blk: int): State
    requires 0 <= c < |s.ctxs|
  {
    s.(ctxs := s.ctxs[c := s.ctxs[c].(ptr := ptr, limit := limit, blk := blk)])
  }

  function DirectStep(g: Config, s: State, c: int, size: int, oldHeap: bool, answer: int): State {
    WithObj(WithBlock(s, answer, size + g.header, -1),
            answer + g.header, size, |s.blocks|, c, if oldHeap then OldHeap else Large)
  }

  function BumpStep(s: State, c: int, size: int, path: Path): State
    requires 0 <= c < |s.ctxs|
  {
    var w := s.ctxs[c];
    WithObj(WithWindow(s, c, w.ptr + size, w.limit, w.blk), w.ptr, size, w.blk, c, path)
  }

  function RefillStep(g: Config, s: State, c: int, size: int, answer: int): State
    requires 0 <= c < |s.ctxs|
  {
    var t := WithObj(WithBlock(s, answer, g.quantum, c), answer + g.header, size, |s.blocks|, c, Window);
    WithWindow(t, c, answer + g.header + size, answer + g.quantum, |s.blocks|)
    .(tails := if s.ctxs[c].ptr == 0 then s.tails
               else s.tails + [Tail(s.ctxs[c].limit - s.ctxs[c].ptr, size)])
  }

  /** The core allocator: the pointers and memory, without the byte counters. */
  function CoreStep(g: Config, s: State, c: int, size: int, oldHeap: bool, answer: int): State
    requires c < |s.ctxs|
  {
    match OutcomeOf(g, s, c, size, oldHeap)
    case Overflow => s
    case Direct => if answer == 0 then s else DirectStep(g, s, c, size, oldHeap, answer)
    case Bump => BumpStep(s, c, size, Window)
    case Refill => if answer == 0 then s else RefillStep(g, s, c, size, answer)
  }

  /** The address `Alloc` returns, 0 for null. */
  function CoreResult(g: Config, s: State, c: int, size: int, oldHeap: bool, answer: int): int
    requires c < |s.ctxs|
  {
    match OutcomeOf(g, s, c, size, oldHeap)
    case Overflow => 0
    case Bump => s.ctxs[c].ptr
    case _ => if answer == 0 then 0 else answer + g.header
  }

  /** The byte counters that a successful call advances. */
  function Counted(s: State, c: int, size: int, oldHeap: bool): State
    requires c < |s.ctxs|
  {
    var t := s.(allocatedBytes := (s.allocatedBytes + size) % WORD64);
    if c < 0 then t
    else if oldHeap then
      t.(ctxs := s.ctxs[c := s.ctxs[c].(bytesUoh := Signed64(s.ctxs[c].bytesUoh + Signed64(size)))])
    else
      t.(ctxs := s.ctxs[c := s.ctxs[c].(bytes := Signed64(s.ctxs[c].bytes + Signed64(size)))])
  }

  // ----- the machine -----

  function Step(g: Config, s: State, op: Op): State {
    match op
    case Alloc(c, size, oldHeap, answer) =>
      if c >= |s.ctxs| then s
      else
        var t := CoreStep(g, s, c, size, oldHeap, answer);
        if CoreResult(g, s, c, size, oldHeap, answer) == 0 then t else Counted(t, c, size, oldHeap)
    case FastBump(c, size) => if 0 <= c < |s.ctxs| then BumpStep(s, c, size, Inline) else s
    case Mutate(at, value) => s.(mem := s.mem[at := value])
    case NewContext => s.(ctxs := s.ctxs + [NEW_CONTEXT])
  }

  /** The object a step returns: 0 when it returns none. */
  function Result(g: Config, s: State, op: Op): int {
    match op
    case Alloc(c, size, oldHeap, answer) =>
      if c < |s.ctxs| then CoreResult(g, s, c, size, oldHeap, answer) else 0
    case FastBump(c, _) => if 0 <= c < |s.ctxs| then s.ctxs[c].ptr else 0
    case _ => 0
  }

  /** A block the zeroing allocator may hand out: its end is an address, and it meets no earlier block. */
  ghost predicate Fresh(g: Config, s: State, start: int, len: int) {
    && 0 < start && start + len < g.words
    && forall k :: 0 <= k < |s.blocks| ==>
         start + len <= s.blocks[k].start || s.blocks[k].start + s.blocks[k].len <= start
  }

  /** `a` belongs to object `o`: its header and payload, up to the header of the object after it. */
  predicate Extent(g: Config, o: Obj, a: int) {
    o.addr - g.header <= a < o.addr + o.size - g.header
  }

  ghost predicate Legal(g: Config, s: State, op: Op) {
    match op
    case Alloc(c, size, oldHeap, answer) =>
      && -1 <= c < |s.ctxs| && 0 <= size < g.words
      && (answer == 0 ||
          Request(g, OutcomeOf(g, s, c, size, oldHeap), size) == 0 ||
          Fresh(g, s, answer, Request(g, OutcomeOf(g, s, c, size, oldHeap), size)))
    case FastBump(c, size) =>
      0 <= c < |s.ctxs| && s.ctxs[c].ptr != 0 && 0 <= size <= s.ctxs[c].limit - s.ctxs[c].ptr
    case Mutate(at, _) => exists i :: 0 <= i < |s.objs| && Extent(g, s.objs[i], at)
    case NewContext => true
  }

  // ----- runs -----

  function Run(g: Config, ops: seq<Op>): State {
    if ops == [] then START else Step(g, Run(g, ops[..|ops| - 1]), ops[|ops| - 1])
  }

  ghost predicate LegalRun(g: Config, ops: seq<Op>) {
    ops == [] || (LegalRun(g, ops[..|ops| - 1]) && Legal(g, Run(g, ops[..|ops| - 1]), ops[|ops| - 1]))
  }
}
