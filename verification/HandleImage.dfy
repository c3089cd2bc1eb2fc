/**
 The contents of the store's arrays and counters as a value, what makes them consistent,
 and the map they stand for.
 */
module HandleImage {
  import opened HandleSpec
  import opened HandleProperties

  /** Type tag of a destroyed slot. */
  const KIND_FREE := -1

  datatype Image = Image(
    handles: seq<Ptr>, kinds: seq<int>, extra: seq<Ptr>, dependent: seq<Ptr>, stack: seq<int>,
    count: int, freeCount: int)
  {
    ghost predicate Sized(cap: nat) {
      |handles| == |kinds| == |extra| == |dependent| == |stack| == cap
    }

    function At(i: int): Record
      requires 0 <= i < |handles| == |kinds| == |extra| == |dependent|
    {
      Record(handles[i], kinds[i], extra[i], dependent[i])
    }

    function Filled(i: int, r: Record): Image
      requires 0 <= i < |handles| == |kinds| == |extra| == |dependent|
    {
      this.(handles := handles[i := r.target], kinds := kinds[i := r.kind],
            extra := extra[i := r.extra], dependent := dependent[i := r.secondary])
    }

    function Pushed(i: int): Image
      requires 0 <= freeCount < |stack|
    {
      this.(stack := stack[freeCount := i], freeCount := freeCount + 1)
    }
  }

  const RESET := Record(NULL, 0, NULL, NULL)
  const SCRUBBED := Record(NULL, KIND_FREE, NULL, NULL)

  /**
   The free stack holds, without repetition, exactly the slots below the count that carry a
   negative type; the slots from the count on are as the last reset left them.
   */
  ghost predicate Rep(m: Image, cap: nat) {
    && m.Sized(cap)
    && 0 <= m.freeCount <= m.count <= cap
    && NoDuplicates(m.stack[..m.freeCount])
    && (forall i :: i in m.stack[..m.freeCount] ==> 0 <= i < m.count)
    && (forall i :: 0 <= i < m.count ==> (m.kinds[i] < 0 <==> i in m.stack[..m.freeCount]))
    && (forall i :: m.count <= i < cap ==>
          m.handles[i] == m.extra[i] == m.dependent[i] == NULL && m.kinds[i] == m.stack[i] == 0)
  }

  /** The partial map, free list and count that the arrays stand for. */
  ghost function Denote(m: Image, cap: nat): Store
    requires Rep(m, cap)
  {
    Store(map i | 0 <= i < m.count && m.kinds[i] >= 0 :: m.At(i), m.stack[..m.freeCount], m.count)
  }

  lemma DenoteInv(m: Image, cap: nat)
    requires Rep(m, cap)
    ensures Inv(Denote(m, cap), cap)
  {
  }

  /** The image after popping the free stack or growing, and filling the slot with `rec`. */
  ghost function Taken(m: Image, rec: Record, cap: nat): Image
    requires Rep(m, cap)
  {
    if m.freeCount > 0 then
      var top := m.stack[..m.freeCount][m.freeCount - 1];
      assert top in m.stack[..m.freeCount];
      m.(freeCount := m.freeCount - 1).Filled(top, rec)
    else if m.count < cap then
      m.(count := m.count + 1).Filled(m.count, rec)
    else m
  }

  lemma TakenRep(m: Image, rec: Record, cap: nat)
    requires Rep(m, cap) && rec.kind >= 0
    ensures Rep(Taken(m, rec, cap), cap)
  {
    if m.freeCount > 0 {
      PopIndex(m.stack, m.freeCount - 1);
    }
  }

  /** Images that differ in one slot, live in the second, stand for maps that differ there only. */
  lemma LiveDiffersAt(m: Image, t: Image, i: int, cap: nat)
    requires Rep(m, cap) && Rep(t, cap) && m.count <= t.count && 0 <= i < t.count && t.kinds[i] >= 0
    requires forall k :: 0 <= k < t.count && k != i ==> k < m.count && t.At(k) == m.At(k)
    ensures Denote(t, cap).live == Denote(m, cap).live[i := t.At(i)]
  {
    assert m.Sized(cap) && t.Sized(cap) && m.count <= cap && t.count <= cap;
    hide Rep;
    forall k | 0 <= k < t.count && k != i ensures k < m.count && t.kinds[k] == m.kinds[k] && t.At(k) == m.At(k) {
      assert t.At(k).kind == t.kinds[k];
    }
  }

  lemma PoppedDenotesCreate(m: Image, rec: Record, cap: nat)
    requires Rep(m, cap) && rec.kind >= 0 && m.freeCount > 0
    ensures Rep(Taken(m, rec, cap), cap)
    ensures Denote(Taken(m, rec, cap), cap) == Created(Denote(m, cap), rec, cap)
  {
    var t := Taken(m, rec, cap);
    var top := m.stack[m.freeCount - 1];
    TakenRep(m, rec, cap);
    assert m.stack[..m.freeCount][m.freeCount - 1] == top && top in m.stack[..m.freeCount];
    assert m.stack[..m.freeCount][..m.freeCount - 1] == t.stack[..t.freeCount];
    assert 0 <= top < m.count && m.Sized(cap) && t.kinds[top] == rec.kind && t.At(top) == rec;
    hide Rep;
    LiveDiffersAt(m, t, top, cap);
  }

  lemma GrownDenotesCreate(m: Image, rec: Record, cap: nat)
    requires Rep(m, cap) && rec.kind >= 0 && m.freeCount == 0
    ensures Rep(Taken(m, rec, cap), cap)
    ensures Denote(Taken(m, rec, cap), cap) == Created(Denote(m, cap), rec, cap)
  {
    TakenRep(m, rec, cap);
    assert m.Sized(cap) && 0 <= m.count <= cap;
    hide Rep;
    if m.count < cap {
      LiveDiffersAt(m, Taken(m, rec, cap), m.count, cap);
    }
  }

  lemma TakenDenotesCreate(m: Image, rec: Record, cap: nat)
    requires Rep(m, cap) && rec.kind >= 0
    ensures Rep(Taken(m, rec, cap), cap)
    ensures Denote(Taken(m, rec, cap), cap) == Created(Denote(m, cap), rec, cap)
  {
    if m.freeCount > 0 {
      PoppedDenotesCreate(m, rec, cap);
    } else {
      assert m.freeCount == 0;
      GrownDenotesCreate(m, rec, cap);
    }
  }

  lemma PushedDenotesDestroy(m: Image, i: int, cap: nat)
    requires Rep(m, cap) && 0 <= i < m.count && m.kinds[i] >= 0
    ensures m.freeCount < m.count
    ensures Rep(m.Filled(i, SCRUBBED).Pushed(i), cap)
    ensures Denote(m.Filled(i, SCRUBBED).Pushed(i), cap) ==
            Store(Denote(m, cap).live - {i}, Denote(m, cap).free + [i], m.count)
  {
    DenoteInv(m, cap);
    LiveAndFree(Denote(m, cap), cap);
    DestroyFreesLiveSlot(Denote(m, cap), i, cap);
    var t := m.Filled(i, SCRUBBED).Pushed(i);
    assert t.stack[..t.freeCount] == m.stack[..m.freeCount] + [i];
  }

  /** What a slot below the count stands for. */
  lemma DenoteAt(m: Image, i: int, cap: nat)
    requires Rep(m, cap) && 0 <= i < m.count
    ensures i < cap && m.Sized(cap)
    ensures i in Denote(m, cap).live <==> m.kinds[i] >= 0
    ensures i in Denote(m, cap).live ==> Denote(m, cap).live[i] == m.At(i)
  {
  }

  lemma FilledRep(m: Image, i: int, rec: Record, cap: nat)
    requires Rep(m, cap) && 0 <= i < m.count
    requires m.kinds[i] >= 0 <==> rec.kind >= 0
    ensures Rep(m.Filled(i, rec), cap)
  {
  }

  /** Rewriting a slot below the count that stays live, or stays free. */
  lemma FilledDenotesOverwrite(m: Image, i: int, rec: Record, cap: nat)
    requires Rep(m, cap) && 0 <= i < m.count
    requires m.kinds[i] >= 0 <==> rec.kind >= 0
    ensures Rep(m.Filled(i, rec), cap)
    ensures Denote(m.Filled(i, rec), cap) == Overwritten(Denote(m, cap), i, rec)
  {
    FilledRep(m, i, rec, cap);
    if rec.kind >= 0 {
      LiveDiffersAt(m, m.Filled(i, rec), i, cap);
    } else {
      assert Denote(m.Filled(i, rec), cap).live == Denote(m, cap).live;
    }
  }

  /** A slot from the count on is as the last reset left it, and only its reset contents keep the image consistent. */
  lemma FilledBeyond(m: Image, i: int, rec: Record, cap: nat)
    requires Rep(m, cap) && m.count <= i < cap
    ensures m.Sized(cap) && m.At(i) == RESET && i !in Denote(m, cap).live
    ensures Rep(m.Filled(i, rec), cap) <==> rec == RESET
    ensures rec == RESET ==> m.Filled(i, rec) == m
  {
    var t := m.Filled(i, rec);
    assert t.handles[i] == rec.target && t.kinds[i] == rec.kind && t.extra[i] == rec.extra;
    assert t.dependent[i] == rec.secondary;
  }

  /** Destroying a slot no create has handed out yet always breaks the image: its index is not below the count. */
  lemma PushedBeyond(m: Image, i: int, cap: nat)
    requires Rep(m, cap) && m.count <= i < cap
    ensures m.Sized(cap) && m.kinds[i] == 0 && m.freeCount < cap
    ensures !Rep(m.Filled(i, SCRUBBED).Pushed(i), cap)
  {
    var t := m.Filled(i, SCRUBBED).Pushed(i);
    assert t.stack[..t.freeCount][m.freeCount] == i;
    assert i in t.stack[..t.freeCount] && t.count == m.count;
  }

  /** Filling a slot with its own record but for one field rewrites one array only. */
  lemma FilledOneField(m: Image, i: int, v: Ptr, kind: int)
    requires 0 <= i < |m.handles| == |m.kinds| == |m.extra| == |m.dependent|
    ensures m.Filled(i, Put(m.At(i), Field.Target, v)) == m.(handles := m.handles[i := v])
    ensures m.Filled(i, Put(m.At(i), Kind, kind)) == m.(kinds := m.kinds[i := kind])
    ensures m.Filled(i, Put(m.At(i), Extra, v)) == m.(extra := m.extra[i := v])
    ensures m.Filled(i, Put(m.At(i), Secondary, v)) == m.(dependent := m.dependent[i := v])
  {
    assert m.handles[i := m.handles[i]] == m.handles && m.kinds[i := m.kinds[i]] == m.kinds;
    assert m.extra[i := m.extra[i]] == m.extra && m.dependent[i := m.dependent[i]] == m.dependent;
  }

  /** The unconditional writes of a field other than the type, anywhere in the arrays. */
  lemma FieldWrite(m: Image, op: Op, cap: nat)
    requires op.StoreTarget? || op.SetExtra? || op.SetSecondary?
    requires Rep(m, cap) && 0 <= op.h < cap
    ensures m.Sized(cap)
    ensures var (f, v) := Write(m.At(op.h), op);
            var t := m.Filled(op.h, Put(m.At(op.h), f, v));
            && (Rep(t, cap) <==> op.h < m.count || v == NULL)
            && (Rep(t, cap) ==> Denote(t, cap) == Step(Denote(m, cap), op, cap))
  {
    var (f, v) := Write(m.At(op.h), op);
    if op.h < m.count {
      DenoteAt(m, op.h, cap);
      FilledDenotesOverwrite(m, op.h, Put(m.At(op.h), f, v), cap);
    } else {
      FilledBeyond(m, op.h, Put(m.At(op.h), f, v), cap);
    }
  }

  lemma RetagOther(m: Image, i: int, kind: int, cap: nat)
    requires Rep(m, cap) && 0 <= i < m.count && !(kind >= 0 <==> m.kinds[i] >= 0)
    ensures !Rep(m.Filled(i, m.At(i).(kind := kind)), cap)
  {
    assert m.Filled(i, m.At(i).(kind := kind)).kinds[i] == kind;
  }

  /**
   A type that keeps the image consistent: below the count one that leaves the slot live or
   leaves it free, from the count on the type of a reset slot.
   */
  predicate GoodKind(s: Store, i: int, kind: int) {
    if i < s.count then kind >= 0 <==> i in s.live else kind == 0
  }

  /** Changing only a type keeps the image consistent exactly when the type is a good one. */
  lemma RetagKeepsRep(m: Image, i: int, kind: int, cap: nat)
    requires Rep(m, cap) && 0 <= i < cap
    ensures m.Sized(cap)
    ensures var t := m.Filled(i, m.At(i).(kind := kind));
            && (Rep(t, cap) <==> GoodKind(Denote(m, cap), i, kind))
            && (Rep(t, cap) ==> Denote(t, cap) == Step(Denote(m, cap), SetKind(i, kind), cap))
  {
    assert Denote(m, cap).count == m.count;
    if i < m.count {
      DenoteAt(m, i, cap);
      hide Denote, Rep;
      if kind >= 0 <==> m.kinds[i] >= 0 {
        FilledDenotesOverwrite(m, i, m.At(i).(kind := kind), cap);
      } else {
        RetagOther(m, i, kind, cap);
      }
    } else {
      FilledBeyond(m, i, m.At(i).(kind := kind), cap);
    }
  }
}
