/**
 Handles are addresses of slots of one array. The range test and the index computation,
 in unsigned arithmetic that wraps around at `words`.
 */
module HandleAddress {

  /** An array of `cap` slots of `slotSize` bytes at `start`, in an address space of `words` bytes. */
  datatype Layout = Layout(start: nat, slotSize: nat, cap: nat, words: nat) {
    ghost predicate Fits() {
      0 < start < words && 0 < slotSize && Bytes() <= words - start
    }

    function Bytes(): nat { cap * slotSize }

    predicate IsWord(a: int) { 0 <= a < words }

    function Add(a: int, b: int): int
      requires words > 0
    {
      (a + b) % words
    }

    function Sub(a: int, b: int): int
      requires words > 0
    {
      (a - b) % words
    }

    /** The range test: at or after the first slot and before the end. */
    predicate Contains(a: int)
      requires words > 0
    {
      a >= start && a < Add(start, Bytes())
    }

    function Index(a: int): int
      requires words > 0 && slotSize > 0
    {
      Sub(a, start) / slotSize
    }

    function SlotAddress(i: int): int { start + i * slotSize }

    ghost predicate InSlot(a: int, i: int) {
      0 <= i < cap && SlotAddress(i) <= a < SlotAddress(i) + slotSize
    }

    ghost predicate InSomeSlot(a: int) {
      exists i :: InSlot(a, i)
    }
  }

  lemma {:induction false} SlotEnds(i: nat, n: nat, d: nat)
    requires i < n
    ensures 0 <= i * d <= i * d + d <= n * d
  {
    if i + 1 < n {
      SlotEnds(i, n - 1, d);
    }
  }

  lemma Quotient(x: nat, i: nat, d: nat)
    requires d > 0 && i * d <= x < i * d + d
    ensures x / d == i
  {
    var q := x / d;
    assert q * d <= x < q * d + d;
    if q < i {
      SlotEnds(q, i, d);
    } else if q > i {
      SlotEnds(i, q, d);
    }
  }

  lemma DivisionBounds(x: nat, d: nat, n: nat)
    requires d > 0 && x < n * d
    ensures 0 <= x / d < n && x / d * d <= x < x / d * d + d
  {
    var q := x / d;
    assert q * d <= x < q * d + d;
    if n < q {
      SlotEnds(n, q, d);
    }
  }

  lemma SlotWithinArray(l: Layout, i: int)
    requires l.Fits() && 0 <= i < l.cap
    ensures l.start <= l.SlotAddress(i) && l.SlotAddress(i) + l.slotSize <= l.start + l.Bytes()
  {
    SlotEnds(i, l.cap, l.slotSize);
  }

  lemma SmallMod(x: nat, m: nat)
    requires x < m
    ensures x % m == x
  {
  }

  /** Any address inside slot `i`, its first byte in particular, has index `i`. */
  lemma IndexInSlot(l: Layout, a: int, i: int)
    requires l.Fits() && l.InSlot(a, i)
    ensures l.IsWord(a) && l.Index(a) == i
  {
    SlotWithinArray(l, i);
    assert l.start + l.Bytes() <= l.words;
    hide Layout.Bytes, Layout.Fits;
    SmallMod(a - l.start, l.words);
    Quotient(a - l.start, i, l.slotSize);
  }

  lemma IndexUndoesSlotAddress(l: Layout, i: int)
    requires l.Fits() && 0 <= i < l.cap
    ensures l.IsWord(l.SlotAddress(i)) && l.SlotAddress(i) > 0 && l.Index(l.SlotAddress(i)) == i
    ensures l.InSlot(l.SlotAddress(i), i)
  {
    SlotWithinArray(l, i);
    IndexInSlot(l, l.SlotAddress(i), i);
  }

  lemma InSomeSlotIffInArray(l: Layout, a: int)
    requires l.Fits()
    ensures l.InSomeSlot(a) <==> l.start <= a < l.start + l.Bytes()
  {
    if l.InSomeSlot(a) {
      var i :| l.InSlot(a, i);
      SlotWithinArray(l, i);
    }
    if l.start <= a < l.start + l.Bytes() {
      var q := (a - l.start) / l.slotSize;
      DivisionBounds(a - l.start, l.slotSize, l.cap);
      assert l.InSlot(a, q);
    }
  }

  /**
   The range test says exactly which addresses lie in a slot, for every address, if and only
   if the end of the array is itself an address: at the very top of the address space the
   computed end wraps to zero and the test refuses every handle.
   */
  lemma ContainsIsExact(l: Layout)
    requires l.Fits() && l.cap > 0
    ensures (forall a :: l.IsWord(a) ==> (l.Contains(a) <==> l.InSomeSlot(a))) <==> l.start + l.Bytes() < l.words
  {
    forall a ensures l.InSomeSlot(a) <==> l.start <= a < l.start + l.Bytes() {
      InSomeSlotIffInArray(l, a);
    }
    if l.start + l.Bytes() == l.words {
      assert l.words % l.words == 0;
      SlotWithinArray(l, 0);
      assert l.IsWord(l.start) && l.InSomeSlot(l.start) && !l.Contains(l.start);
    }
  }

  /** When the end is an address: the test accepts exactly the slots, and the index names the slot. */
  lemma Resolve(l: Layout, a: int)
    requires l.Fits() && l.IsWord(a) && l.start + l.Bytes() < l.words
    ensures l.Contains(a) <==> l.InSlot(a, l.Index(a))
    ensures forall i :: l.InSlot(a, i) ==> l.Contains(a) && i == l.Index(a)
  {
    hide Layout.InSlot, Layout.Index, Layout.Bytes;
    InSomeSlotIffInArray(l, a);
    forall i | l.InSlot(a, i) ensures i == l.Index(a) {
      IndexInSlot(l, a, i);
    }
  }
}
