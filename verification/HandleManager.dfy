/**
 The handle manager and the store wrapper over the core: every operation takes the handle
 as an address, and acts on the slot the address names.
 */
module HandleManager {
  import opened HandleSpec
  import opened HandleAddress
  import opened HandleImage
  import opened HandleProperties
  import opened HandleTable

  /** The type every dependent handle records. */
  const KIND_DEPENDENT := 6

  class Manager {
    const layout: Layout
    const table: SlotTable

    ghost predicate Valid()
      reads this, table, table.handles, table.kinds, table.extra, table.dependent, table.freeStack
    {
      Placed() && table.Valid()
    }

    /** The array of slots fits the address space, its end included. */
    ghost predicate Placed() {
      layout.Fits() && layout.start + layout.Bytes() < layout.words && layout.cap == table.cap
    }

    ghost function Abs(): (s: Store)
      requires Valid()
      reads this, table, table.handles, table.kinds, table.extra, table.dependent, table.freeStack
      ensures s.count == table.count
    {
      table.Abs()
    }

    /** `h` is an address that some create handed out since the last reset. */
    ghost predicate Issued(h: int)
      reads this, table
    {
      exists i :: 0 <= i < table.count && h == layout.SlotAddress(i)
    }

    ghost predicate Live(h: int)
      requires Valid()
      reads this, table, table.handles, table.kinds, table.extra, table.dependent, table.freeStack
    {
      Issued(h) && Slot(h) in Abs().live
    }

    /** The slot an issued handle names. */
    ghost function Slot(h: int): int
      requires layout.Fits()
    {
      layout.Index(h)
    }

    ghost function RecordOf(h: int): Record
      requires Valid() && Live(h)
      reads this, table, table.handles, table.kinds, table.extra, table.dependent, table.freeStack
    {
      Abs().live[Slot(h)]
    }

    lemma IssuedSlot(h: int)
      requires Placed() && table.count <= table.cap && Issued(h)
      ensures 0 <= Slot(h) < table.count && layout.Contains(h)
    {
      var i :| 0 <= i < table.count && h == layout.SlotAddress(i);
      IndexUndoesSlotAddress(layout, i);
      Resolve(layout, h);
    }

    /** The object pointer in the slot of an issued handle: a live one's object. */
    ghost function Held(h: int): (p: Ptr)
      requires Valid() && Issued(h)
      reads this, table, table.handles, table.kinds, table.extra, table.dependent, table.freeStack
      ensures Live(h) ==> p == RecordOf(h).target
    {
      IssuedSlot(h);
      table.SlotIs(Slot(h));
      table.handles[Slot(h)]
    }

    constructor (layout: Layout)
      requires layout.Fits() && layout.start + layout.Bytes() < layout.words
      ensures Valid() && this.layout == layout && Abs() == EMPTY
      ensures fresh(table) && fresh(table.handles) && fresh(table.kinds) && fresh(table.extra)
      ensures fresh(table.dependent) && fresh(table.freeStack)
    {
      this.layout := layout;
      table := new SlotTable(layout.cap);
    }

    /** The address of the slot a create returned, or the null handle. */
    function HandleAt(idx: int): int {
      if idx < 0 then 0 else layout.SlotAddress(idx)
    }

    lemma HandleOfSlot(i: int)
      requires Placed() && 0 <= i < table.count <= table.cap
      ensures var h := HandleAt(i);
              Issued(h) && Slot(h) == i && h != 0 && layout.IsWord(h) && layout.InSlot(h, i) && layout.InSomeSlot(h)
    {
      IndexUndoesSlotAddress(layout, i);
    }

    /**
     What a create promises: null, with nothing changed, exactly when every slot was live;
     otherwise a handle that was not live before and now has exactly the given record.
     */
    ghost predicate IsNewHandle(h: int, was: Store, rec: Record)
      requires Valid()
      reads this, table, table.handles, table.kinds, table.extra, table.dependent, table.freeStack
    {
      if h == 0 then |was.live| == table.cap && Abs() == was
      else
        && |was.live| < table.cap && Live(h) && Slot(h) !in was.live
        && Abs().live == was.live[Slot(h) := rec]
    }

    lemma CreateGivesHandle(was: Store, rec: Record, idx: int)
      requires Valid() && Inv(was, table.cap) && rec.kind >= 0 && idx == Acquired(was, table.cap)
      requires Abs() == Step(was, Create(rec), table.cap)
      ensures IsNewHandle(HandleAt(idx), was, rec)
    {
      hide Rep, Denote;
      AcquireInv(was, table.cap);
      NullExactlyWhenFull(was, Create(rec), table.cap);
      LiveAndFree(was, table.cap);
      assert idx >= 0 ==> idx < table.count by {
        if |was.free| > 0 {
          assert was.free[|was.free| - 1] in was.free;
        }
      }
      table.AbsInv();
      if idx >= 0 {
        HandleOfSlot(idx);
      }
    }

    method CreateGlobalHandleOfType(target: Ptr, kind: int) returns (h: int)
      requires Valid() && kind >= 0
      modifies table, table.handles, table.kinds, table.extra, table.dependent
      ensures Valid() && Abs() == Step(old(Abs()), Create(Record(target, kind, NULL, NULL)), table.cap)
      ensures h == HandleAt(Acquired(old(Abs()), table.cap))
      ensures IsNewHandle(h, old(Abs()), Record(target, kind, NULL, NULL))
    {
      table.AbsInv();
      var idx := table.Create(target, kind);
      h := HandleAt(idx);
      CreateGivesHandle(old(Abs()), Record(target, kind, NULL, NULL), idx);
    }

    method CreateHandleWithExtraInfo(target: Ptr, kind: int, info: Ptr) returns (h: int)
      requires Valid() && kind >= 0
      modifies table, table.handles, table.kinds, table.extra, table.dependent
      ensures Valid() && Abs() == Step(old(Abs()), Create(Record(target, kind, info, NULL)), table.cap)
      ensures h == HandleAt(Acquired(old(Abs()), table.cap))
      ensures IsNewHandle(h, old(Abs()), Record(target, kind, info, NULL))
    {
      table.AbsInv();
      var idx := table.CreateWithExtra(target, kind, info);
      h := HandleAt(idx);
      CreateGivesHandle(old(Abs()), Record(target, kind, info, NULL), idx);
    }

    method CreateDependentHandle(primary: Ptr, secondary: Ptr) returns (h: int)
      requires Valid()
      modifies table, table.handles, table.kinds, table.extra, table.dependent
      ensures Valid()
      ensures Abs() == Step(old(Abs()), Create(Record(primary, KIND_DEPENDENT, NULL, secondary)), table.cap)
      ensures h == HandleAt(Acquired(old(Abs()), table.cap))
      ensures IsNewHandle(h, old(Abs()), Record(primary, KIND_DEPENDENT, NULL, secondary))
    {
      table.AbsInv();
      var idx := table.CreateDependent(primary, secondary, KIND_DEPENDENT);
      h := HandleAt(idx);
      CreateGivesHandle(old(Abs()), Record(primary, KIND_DEPENDENT, NULL, secondary), idx);
    }

    /** The duplicate keeps object and type, and loses extra info and secondary. */
    method CreateDuplicateHandle(h: int) returns (d: int)
      requires Valid() && (h == 0 || Live(h))
      modifies table, table.handles, table.kinds, table.extra, table.dependent
      ensures Valid()
      ensures h == 0 ==> d == 0 && Abs() == old(Abs())
      ensures h != 0 ==>
                && d == HandleAt(Acquired(old(Abs()), table.cap))
                && Abs() == Step(old(Abs()), Duplicate(Slot(h)), table.cap)
                && IsNewHandle(d, old(Abs()), Record(old(RecordOf(h)).target, old(RecordOf(h)).kind, NULL, NULL))
    {
      if h == 0 {
        return 0;
      }
      IssuedSlot(h);
      var i := layout.Index(h);
      table.AbsInv();
      var target := table.SlotLoad(i);
      var kind := table.GetKindAt(i);
      var idx := table.Create(target, kind);
      d := HandleAt(idx);
      CreateGivesHandle(old(Abs()), Record(target, kind, NULL, NULL), idx);
    }

    /**
     Acts on the slot the address lies in, or does nothing. The range test also accepts slots
     that no create has handed out, and destroying one of those breaks the store.
     */
    method DestroyHandle(h: int)
      requires Valid() && layout.IsWord(h)
      modifies table, table.handles, table.kinds, table.extra, table.dependent, table.freeStack
      ensures !layout.InSomeSlot(h) ==> Valid() && Abs() == old(Abs())
      ensures forall i :: layout.InSlot(h, i) ==>
                && (Valid() <==> i < old(table.count))
                && (i < old(table.count) ==> Abs() == Step(old(Abs()), Destroy(i), table.cap))
    {
      Resolve(layout, h);
      if !layout.Contains(h) {
        return;
      }
      table.DestroyAt(layout.Index(h));
    }

    method SetExtraInfoForHandle(h: int, kind: int, info: Ptr)
      requires Valid() && Live(h) && kind >= 0
      modifies table.kinds, table.extra
      ensures Valid()
      ensures Abs() == Run(old(Abs()), [SetKind(Slot(h), kind), SetExtra(Slot(h), info)], table.cap)
      ensures Live(h) && RecordOf(h) == old(RecordOf(h)).(kind := kind, extra := info)
      ensures Abs() == old(Abs()).(live := old(Abs()).live[Slot(h) := RecordOf(h)])
    {
      IssuedSlot(h);
      hide Rep, Denote, Step, Run, Layout.Fits, Layout.Bytes;
      ghost var s, ops := Abs(), [SetKind(Slot(h), kind), SetExtra(Slot(h), info)];
      WritesSpelledOut(s, Slot(h), info, kind, table.cap);
      table.SetKindAt(layout.Index(h), kind);
      WritesSpelledOut(Abs(), Slot(h), info, kind, table.cap);
      table.SetExtraAt(layout.Index(h), info);
      TwoSteps(s, ops[0], ops[1], table.cap);
    }

    method GetExtraInfoFromHandle(h: int) returns (info: Ptr)
      requires Valid() && Live(h)
      ensures info == RecordOf(h).extra
    {
      IssuedSlot(h);
      info := table.GetExtraAt(layout.Index(h));
    }

    method StoreObjectInHandle(h: int, target: Ptr)
      requires Valid() && Issued(h)
      modifies table.handles
      ensures Valid() && Abs() == Step(old(Abs()), StoreTarget(Slot(h), target), table.cap)
      ensures old(Live(h)) ==> Live(h) && RecordOf(h) == old(RecordOf(h)).(target := target)
    {
      IssuedSlot(h);
      if Live(h) {
        WritesSpelledOut(Abs(), Slot(h), target, 0, table.cap);
      }
      table.SlotStore(layout.Index(h), target);
    }

    method StoreObjectInHandleIfNull(h: int, target: Ptr) returns (stored: bool)
      requires Valid() && Issued(h)
      modifies table.handles
      ensures Valid() && Abs() == Step(old(Abs()), StoreIfNull(Slot(h), target), table.cap)
      ensures stored <==> old(Held(h)) == NULL
      ensures Held(h) == if stored then target else old(Held(h))
    {
      IssuedSlot(h);
      stored := table.SlotStoreIfNull(layout.Index(h), target);
      assert table.handles[Slot(h)] == table.handles[..][Slot(h)];
    }

    method SetDependentHandleSecondary(h: int, secondary: Ptr)
      requires Valid() && Issued(h)
      modifies table.dependent
      ensures Valid() && Abs() == Step(old(Abs()), SetSecondary(Slot(h), secondary), table.cap)
      ensures old(Live(h)) ==> Live(h) && RecordOf(h) == old(RecordOf(h)).(secondary := secondary)
    {
      IssuedSlot(h);
      if Live(h) {
        WritesSpelledOut(Abs(), Slot(h), secondary, 0, table.cap);
      }
      table.SetDependentAt(layout.Index(h), secondary);
    }

    method GetDependentHandleSecondary(h: int) returns (secondary: Ptr)
      requires Valid() && Live(h)
      ensures secondary == RecordOf(h).secondary
    {
      IssuedSlot(h);
      secondary := table.GetDependentAt(layout.Index(h));
    }

    /** Unlike the usual primitive, returns the value the slot holds afterwards. */
    method InterlockedCompareExchangeObjectInHandle(h: int, target: Ptr, comparand: Ptr) returns (value: Ptr)
      requires Valid() && Issued(h)
      modifies table.handles
      ensures Valid() && Abs() == Step(old(Abs()), CompareExchange(Slot(h), target, comparand), table.cap)
      ensures value == Held(h) == if old(Held(h)) == comparand then target else old(Held(h))
    {
      IssuedSlot(h);
      value := table.SlotCas(layout.Index(h), target, comparand);
      assert table.handles[Slot(h)] == table.handles[..][Slot(h)];
    }

    method HandleFetchType(h: int) returns (kind: int)
      requires Valid() && Live(h)
      ensures kind == RecordOf(h).kind
    {
      IssuedSlot(h);
      kind := table.GetKindAt(layout.Index(h));
    }
  }

  /** The first create takes slot 0, a duplicate of it slot 1. */
  lemma TwoCreates(rec: Record, cap: nat)
    requires cap >= 2
    ensures Acquired(EMPTY, cap) == 0
    ensures var one := Step(EMPTY, Create(rec), cap);
            var two := Step(one, Duplicate(0), cap);
            && one == Store(map[0 := rec], [], 1) && Acquired(one, cap) == 1
            && two.live == map[0 := rec, 1 := Record(rec.target, rec.kind, NULL, NULL)] && two.count == 2
  {
  }

  /**
   A client: from a new manager, a handle and its duplicate are different, and the duplicate
   has the type but no extra info.
   */
  method CreateAndDuplicate(layout: Layout, target: Ptr, kind: int, info: Ptr)
    returns (h: int, d: int, dupKind: int, dupExtra: Ptr)
    requires layout.Fits() && layout.start + layout.Bytes() < layout.words && layout.cap >= 2 && kind >= 0
    ensures h != d && h != 0 && d != 0
    ensures dupKind == kind && dupExtra == NULL
  {
    var m := new Manager(layout);
    TwoCreates(Record(target, kind, info, NULL), m.table.cap);
    hide Rep, Denote, Manager.Issued, Manager.Slot, Layout.Fits, Step, Acquired;
    h := m.CreateHandleWithExtraInfo(target, kind, info);
    m.HandleOfSlot(0);
    d := m.CreateDuplicateHandle(h);
    m.HandleOfSlot(0);
    m.HandleOfSlot(1);
    dupKind := m.HandleFetchType(d);
    dupExtra := m.GetExtraInfoFromHandle(d);
  }
}
