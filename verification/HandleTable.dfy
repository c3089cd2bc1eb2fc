/**
 The handle store as the core keeps it: four parallel arrays, a free stack and two
 counters, updated in place. Every method is tied to a step of `HandleSpec`.
 */
module HandleTable {
  import opened HandleSpec
  import opened HandleImage
  import opened HandleProperties

  class SlotTable {
    const cap: nat
    const handles: array<Ptr>
    const kinds: array<int>
    const extra: array<Ptr>
    const dependent: array<Ptr>
    const freeStack: array<int>
    var count: int
    var freeCount: int

    /** The arrays are separate and have the capacity of the store. */
    ghost predicate WellShaped() {
      && handles.Length == kinds.Length == extra.Length == dependent.Length == freeStack.Length == cap
      && handles != extra && handles != dependent && extra != dependent && kinds != freeStack
      && handles as object != kinds && handles as object != freeStack
      && extra as object != kinds && extra as object != freeStack
      && dependent as object != kinds && dependent as object != freeStack
    }

    ghost function Contents(): Image
      reads this, handles, kinds, extra, dependent, freeStack
    {
      Image(handles[..], kinds[..], extra[..], dependent[..], freeStack[..], count, freeCount)
    }

    ghost predicate Valid()
      reads this, handles, kinds, extra, dependent, freeStack
    {
      WellShaped() && Rep(Contents(), cap)
    }

    /** The partial map, free list and count that the arrays stand for. */
    ghost function Abs(): (s: Store)
      requires Valid()
      reads this, handles, kinds, extra, dependent, freeStack
      ensures s.count == count
    {
      Denote(Contents(), cap)
    }

    /** Every `Valid` table is consistent as a map. */
    lemma AbsInv()
      requires Valid()
      ensures Inv(Abs(), cap)
    {
      DenoteInv(Contents(), cap);
    }

    /** What the object slot at any index holds, in terms of the map. */
    lemma SlotIs(idx: int)
      requires Valid() && 0 <= idx < cap
      ensures idx in Abs().live ==> Abs().live[idx].target == handles[idx]
      ensures idx >= count ==> handles[idx] == NULL && idx !in Abs().live
    {
      if idx < count {
        DenoteAt(Contents(), idx, cap);
      } else {
        FilledBeyond(Contents(), idx, RESET, cap);
        assert Contents().handles[idx] == NULL;
      }
    }

    constructor (capacity: nat)
      ensures Valid() && cap == capacity && Abs() == EMPTY
      ensures fresh(handles) && fresh(kinds) && fresh(extra) && fresh(dependent) && fresh(freeStack)
    {
      cap := capacity;
      handles := new Ptr[capacity](_ => NULL);
      kinds := new int[capacity](_ => 0);
      extra := new Ptr[capacity](_ => NULL);
      dependent := new Ptr[capacity](_ => NULL);
      freeStack := new int[capacity](_ => 0);
      count, freeCount := 0, 0;
    }

    method SlotAcquire() returns (idx: int)
      requires Valid()
      modifies this
      ensures idx == Acquired(old(Abs()), cap)
      ensures old(freeCount) > 0 ==>
                && 0 <= idx < cap && idx == old(freeStack[..freeCount][freeCount - 1])
                && freeCount == old(freeCount) - 1 && count == old(count)
      ensures old(freeCount) <= 0 ==>
                && freeCount == old(freeCount)
                && (if old(count) < cap then idx == old(count) && count == old(count) + 1
                    else idx == -1 && count == old(count))
    {
      if freeCount > 0 {
        assert freeStack[..freeCount][freeCount - 1] in freeStack[..freeCount];
        freeCount := freeCount - 1;
        return freeStack[freeCount];
      }
      if count < cap {
        count := count + 1;
        return count - 1;
      }
      return -1;
    }

    method Create(target: Ptr, kind: int) returns (idx: int)
      requires Valid() && kind >= 0
      modifies this, handles, kinds, extra, dependent
      ensures Valid() && idx == Acquired(old(Abs()), cap)
      ensures Abs() == Step(old(Abs()), HandleSpec.Create(Record(target, kind, NULL, NULL)), cap)
    {
      assert 0 <= freeCount && 0 <= count;
      hide Rep, Denote, Created;
      ghost var was := Contents();
      TakenDenotesCreate(was, Record(target, kind, NULL, NULL), cap);
      idx := SlotAcquire();
      if idx < 0 {
        return;
      }
      handles[idx] := target;
      kinds[idx] := kind;
      extra[idx] := NULL;
      dependent[idx] := NULL;
      assert Contents() == Taken(was, Record(target, kind, NULL, NULL), cap);
    }

    method CreateWithExtra(target: Ptr, kind: int, info: Ptr) returns (idx: int)
      requires Valid() && kind >= 0
      modifies this, handles, kinds, extra, dependent
      ensures Valid() && idx == Acquired(old(Abs()), cap)
      ensures Abs() == Step(old(Abs()), HandleSpec.Create(Record(target, kind, info, NULL)), cap)
    {
      assert 0 <= freeCount && 0 <= count;
      hide Rep, Denote, Created;
      ghost var was := Contents();
      TakenDenotesCreate(was, Record(target, kind, info, NULL), cap);
      idx := SlotAcquire();
      if idx < 0 {
        return;
      }
      handles[idx] := target;
      kinds[idx] := kind;
      extra[idx] := info;
      dependent[idx] := NULL;
      assert Contents() == Taken(was, Record(target, kind, info, NULL), cap);
    }

    method CreateDependent(primary: Ptr, secondary: Ptr, kind: int) returns (idx: int)
      requires Valid() && kind >= 0
      modifies this, handles, kinds, extra, dependent
      ensures Valid() && idx == Acquired(old(Abs()), cap)
      ensures Abs() == Step(old(Abs()), HandleSpec.Create(Record(primary, kind, NULL, secondary)), cap)
    {
      assert 0 <= freeCount && 0 <= count;
      hide Rep, Denote, Created;
      ghost var was := Contents();
      TakenDenotesCreate(was, Record(primary, kind, NULL, secondary), cap);
      idx := SlotAcquire();
      if idx < 0 {
        return;
      }
      handles[idx] := primary;
      kinds[idx] := kind;
      extra[idx] := NULL;
      dependent[idx] := secondary;
      assert Contents() == Taken(was, Record(primary, kind, NULL, secondary), cap);
    }

    /**
     Destroying scrubs a live slot and pushes it; a slot that is free already stays as it is.
     The store stays consistent exactly when a create has handed the slot out.
     */
    method DestroyAt(idx: int)
      requires Valid() && 0 <= idx < cap
      modifies this, handles, kinds, extra, dependent, freeStack
      ensures Valid() <==> idx < count
      ensures count == old(count)
      ensures idx < count ==> Abs() == Step(old(Abs()), Destroy(idx), cap)
      ensures old(kinds[idx]) < 0 ==> Contents() == old(Contents())
      ensures old(kinds[idx]) >= 0 ==>
                old(freeCount) < cap && Contents() == old(Contents()).Filled(idx, SCRUBBED).Pushed(idx)
    {
      ghost var was := Contents();
      if idx >= count {
        PushedBeyond(was, idx, cap);
      } else if kinds[idx] >= 0 {
        PushedDenotesDestroy(was, idx, cap);
      }
      hide Rep, Denote;
      if kinds[idx] < 0 || freeCount == cap {
        return;
      }
      handles[idx] := NULL;
      kinds[idx] := KIND_FREE;
      extra[idx] := NULL;
      dependent[idx] := NULL;
      freeStack[freeCount] := idx;
      freeCount := freeCount + 1;
      assert Contents() == was.Filled(idx, SCRUBBED).Pushed(idx);
    }

    /** A slot from the count on has to keep its reset contents; writing null to it changes nothing. */
    method SetDependentAt(idx: int, secondary: Ptr)
      requires Valid() && 0 <= idx < cap
      modifies dependent
      ensures Valid() <==> idx < count || secondary == NULL
      ensures Valid() ==> Abs() == Step(old(Abs()), SetSecondary(idx, secondary), cap)
      ensures dependent[..] == old(dependent[..][idx := secondary])
    {
      hide Rep, Denote, Step, Put, Image.Filled;
      ghost var was := Contents();
      FieldWrite(was, SetSecondary(idx, secondary), cap);
      FilledOneField(was, idx, secondary, 0);
      dependent[idx] := secondary;
      assert Contents() == was.(dependent := was.dependent[idx := secondary]);
    }

    method GetDependentAt(idx: int) returns (secondary: Ptr)
      requires Valid() && 0 <= idx < cap
      ensures secondary == dependent[idx]
      ensures idx in Abs().live ==> secondary == Abs().live[idx].secondary
    {
      secondary := dependent[idx];
    }

    method GetKindAt(idx: int) returns (kind: int)
      requires Valid() && 0 <= idx < cap
      ensures kind == kinds[idx]
      ensures idx in Abs().live ==> kind == Abs().live[idx].kind
      ensures idx < count ==> (kind < 0 <==> idx !in Abs().live)
    {
      kind := kinds[idx];
    }

    /**
     The type setter has no guard of its own. It keeps the store consistent exactly when it
     gives a live slot a live type, a free slot a free one, and an unused slot the type zero.
     */
    method SetKindAt(idx: int, kind: int)
      requires Valid() && 0 <= idx < cap
      modifies kinds
      ensures Valid() <==> GoodKind(old(Abs()), idx, kind)
      ensures Valid() ==> Abs() == Step(old(Abs()), SetKind(idx, kind), cap)
      ensures kinds[..] == old(kinds[..][idx := kind])
    {
      hide Rep, Denote, Step;
      ghost var was := Contents();
      RetagKeepsRep(was, idx, kind, cap);
      kinds[idx] := kind;
      assert Contents() == was.Filled(idx, was.At(idx).(kind := kind));
    }

    method GetExtraAt(idx: int) returns (info: Ptr)
      requires Valid() && 0 <= idx < cap
      ensures info == extra[idx]
      ensures idx in Abs().live ==> info == Abs().live[idx].extra
    {
      info := extra[idx];
    }

    method SetExtraAt(idx: int, info: Ptr)
      requires Valid() && 0 <= idx < cap
      modifies extra
      ensures Valid() <==> idx < count || info == NULL
      ensures Valid() ==> Abs() == Step(old(Abs()), SetExtra(idx, info), cap)
      ensures extra[..] == old(extra[..][idx := info])
    {
      hide Rep, Denote, Step, Put, Image.Filled;
      ghost var was := Contents();
      FieldWrite(was, SetExtra(idx, info), cap);
      FilledOneField(was, idx, info, 0);
      extra[idx] := info;
      assert Contents() == was.(extra := was.extra[idx := info]);
    }

    method Reset()
      requires WellShaped()
      modifies this, handles, kinds, extra, dependent, freeStack
      ensures Valid() && Abs() == EMPTY
    {
      for i := 0 to cap
        invariant forall k :: 0 <= k < i ==>
                    && handles[k] == extra[k] == dependent[k] == NULL
                    && kinds[k] == freeStack[k] == 0
      {
        handles[i] := NULL;
        kinds[i] := 0;
        extra[i] := NULL;
        dependent[i] := NULL;
        freeStack[i] := 0;
      }
      count := 0;
      freeCount := 0;
    }

    method SlotLoad(idx: int) returns (target: Ptr)
      requires Valid() && 0 <= idx < cap
      ensures target == handles[idx]
      ensures idx in Abs().live ==> target == Abs().live[idx].target
    {
      target := handles[idx];
    }

    method SlotStore(idx: int, target: Ptr)
      requires Valid() && 0 <= idx < cap
      modifies handles
      ensures Valid() <==> idx < count || target == NULL
      ensures Valid() ==> Abs() == Step(old(Abs()), StoreTarget(idx, target), cap)
      ensures handles[..] == old(handles[..][idx := target])
    {
      hide Rep, Denote, Step, Put, Image.Filled;
      ghost var was := Contents();
      FieldWrite(was, StoreTarget(idx, target), cap);
      FilledOneField(was, idx, target, 0);
      handles[idx] := target;
      assert Contents() == was.(handles := was.handles[idx := target]);
    }

    method SlotStoreIfNull(idx: int, target: Ptr) returns (stored: bool)
      requires Valid() && 0 <= idx < cap
      modifies handles
      ensures Valid() <==> idx < count || target == NULL
      ensures Valid() ==> Abs() == Step(old(Abs()), StoreIfNull(idx, target), cap)
      ensures stored <==> old(handles[idx]) == NULL
      ensures handles[..] == if stored then old(handles[..][idx := target]) else old(handles[..])
    {
      SlotIs(idx);
      ConditionalWrite(Abs(), idx, target, NULL, cap);
      hide Rep, Denote, Step;
      if handles[idx] == NULL {
        SlotStore(idx, target);
        return true;
      }
      return false;
    }

    /** Returns what the slot holds afterwards. */
    method SlotCas(idx: int, target: Ptr, comparand: Ptr) returns (value: Ptr)
      requires Valid() && 0 <= idx < cap
      modifies handles
      ensures Valid() <==> idx < count || target == NULL || comparand != NULL
      ensures Valid() ==> Abs() == Step(old(Abs()), CompareExchange(idx, target, comparand), cap)
      ensures value == if old(handles[idx]) == comparand then target else old(handles[idx])
      ensures handles[..] == old(handles[..])[idx := value]
    {
      SlotIs(idx);
      ConditionalWrite(Abs(), idx, target, comparand, cap);
      hide Rep, Denote, Step;
      if handles[idx] == comparand {
        SlotStore(idx, target);
      }
      return handles[idx];
    }
  }
}
