/**
  `LayoutBuilder` and `BlockLayout` (src/lib.rs:55-152): fields are
  registered one at a time under consecutive slots; `finish` sorts them into
  packing order (alignment descending, then slot ascending), records where
  each slot ended up and checks the element layout with
  `Layout::from_size_align`.
 */
module Builder {
  import opened Bits
  import opened Layouts

  /** One `(LayoutSlot, Layout)` entry of the builder's `layouts` vector. */
  datatype Registration = Registration(slot: nat, layout: Layout)

  // ---------------------------------------------------------------------------
  // Registrations and the builder's invariant

  function LayoutsOf(regs: seq<Registration>): (ls: seq<Layout>)
    ensures |ls| == |regs|
    ensures forall i :: 0 <= i < |regs| ==> ls[i] == regs[i].layout
  {
    seq(|regs|, i requires 0 <= i < |regs| => regs[i].layout)
  }

  /** What `build` and repeated `add` keep true of the builder's fields:
      entry `i` was registered under slot `i` with the layout of a Rust type,
      `max_alignment` is the maximum of 1 and every alignment so far and
      `element_size` the sum of every size so far. */
  ghost predicate BuilderInvariant(layouts: seq<Registration>, maxAlignment: nat, elementSize: nat)
  {
    && (forall i :: 0 <= i < |layouts| ==> layouts[i].slot == i)
    && (forall i :: 0 <= i < |layouts| ==> IsTypeLayout(layouts[i].layout))
    && maxAlignment == AlignMax(LayoutsOf(layouts))
    && elementSize == SizeSum(LayoutsOf(layouts))
  }

  class LayoutBuilder {
    var layouts: seq<Registration>
    var maxAlignment: nat
    var elementSize: nat

    ghost predicate Valid()
      reads this
    {
      BuilderInvariant(layouts, maxAlignment, elementSize)
    }

    /** `BlockLayout::build()`: no fields, alignment 1, size 0. */
    constructor Build()
      ensures Valid()
      ensures layouts == [] && maxAlignment == 1 && elementSize == 0
    {
      layouts := [];
      maxAlignment := 1;
      elementSize := 0;
    }

    /** `add::<T>()`, with `Layout::new::<T>()` passed in as `layout`: the new
        slot is the number of fields registered before, so the same layout
        added twice gets two slots. */
    method Add(layout: Layout) returns (slot: nat)
      requires Valid()
      requires IsTypeLayout(layout)
      modifies this
      ensures Valid()
      ensures slot == |old(layouts)|
      ensures layouts == old(layouts) + [Registration(slot, layout)]
      ensures maxAlignment == if old(maxAlignment) < layout.align then layout.align else old(maxAlignment)
      ensures elementSize == old(elementSize) + layout.size
    {
      ghost var before := LayoutsOf(layouts);
      maxAlignment := if maxAlignment < layout.align then layout.align else maxAlignment;
      elementSize := elementSize + layout.size;
      slot := |layouts|;
      layouts := layouts + [Registration(slot, layout)];
      assert LayoutsOf(layouts)[..|layouts| - 1] == before;
    }
  }

  // ---------------------------------------------------------------------------
  // Packing order: the comparator of `finish` and a sort by it

  /** `a` may stand before `b` under the comparator at src/lib.rs:104-109:
      larger alignment first, then smaller slot. */
  predicate InPackingOrder(a: Registration, b: Registration)
  {
    a.layout.align > b.layout.align || (a.layout.align == b.layout.align && a.slot <= b.slot)
  }

  ghost predicate Sorted(s: seq<Registration>)
  {
    forall i, j :: 0 <= i < j < |s| ==> InPackingOrder(s[i], s[j])
  }

  ghost predicate SlotsDistinct(s: seq<Registration>)
  {
    forall i, j :: 0 <= i < j < |s| ==> s[i].slot != s[j].slot
  }

  function Insert(x: Registration, s: seq<Registration>): seq<Registration>
  {
    if s == [] || InPackingOrder(x, s[0]) then [x] + s
    else [s[0]] + Insert(x, s[1..])
  }

  /** The registrations in packing order (the in-place `sort_by` of
      `finish`). */
  function PackingOrder(s: seq<Registration>): seq<Registration>
  {
    if s == [] then [] else Insert(s[0], PackingOrder(s[1..]))
  }

  lemma {:induction false} InsertPermutes(x: Registration, s: seq<Registration>)
    ensures multiset(Insert(x, s)) == multiset(s) + multiset{x}
    ensures |Insert(x, s)| == |s| + 1
  {
    if !(s == [] || InPackingOrder(x, s[0])) {
      InsertPermutes(x, s[1..]);
      assert s == [s[0]] + s[1..];
    }
  }

  lemma {:induction false} InsertSorted(x: Registration, s: seq<Registration>)
    requires Sorted(s)
    ensures Sorted(Insert(x, s))
  {
    if s == [] || InPackingOrder(x, s[0]) {
      forall j | 0 <= j < |s| ensures InPackingOrder(x, s[j]) {
        if j > 0 {
          assert InPackingOrder(s[0], s[j]);
        }
      }
      SortedCons(x, s);
    } else {
      var rest := s[1..];
      assert Sorted(rest);
      InsertSorted(x, rest);
      InsertPermutes(x, rest);
      var u := Insert(x, rest);
      forall j | 0 <= j < |u| ensures InPackingOrder(s[0], u[j]) {
        assert u[j] in multiset(u);
        if u[j] != x {
          var m :| 0 <= m < |rest| && rest[m] == u[j];
          assert s[m + 1] == u[j];
        }
      }
      SortedCons(s[0], u);
    }
  }

  /** A registration that goes before every element of a sorted sequence
      can head it. */
  lemma SortedCons(h: Registration, u: seq<Registration>)
    requires Sorted(u)
    requires forall j :: 0 <= j < |u| ==> InPackingOrder(h, u[j])
    ensures Sorted([h] + u)
  {
    var t := [h] + u;
    forall i, j | 0 <= i < j < |t| ensures InPackingOrder(t[i], t[j]) {
      assert t[j] == u[j - 1];
      if i > 0 {
        assert t[i] == u[i - 1];
      }
    }
  }

  lemma {:induction false} InsertDistinct(x: Registration, s: seq<Registration>)
    requires SlotsDistinct(s)
    requires forall k :: 0 <= k < |s| ==> s[k].slot != x.slot
    ensures SlotsDistinct(Insert(x, s))
  {
    if s == [] || InPackingOrder(x, s[0]) {
      var t := [x] + s;
      forall i, j | 0 <= i < j < |t| ensures t[i].slot != t[j].slot {
        assert t[j] == s[j - 1];
        if i > 0 {
          assert t[i] == s[i - 1];
        }
      }
    } else {
      var rest := s[1..];
      assert forall k :: 0 <= k < |rest| ==> rest[k] == s[k + 1];
      InsertDistinct(x, rest);
      InsertPermutes(x, rest);
      var u := Insert(x, rest);
      var t := [s[0]] + u;
      forall i, j | 0 <= i < j < |t| ensures t[i].slot != t[j].slot {
        assert t[j] == u[j - 1];
        if i > 0 {
          assert t[i] == u[i - 1];
        } else if u[j - 1] != x {
          assert u[j - 1] in multiset(u);
          var m :| 0 <= m < |rest| && rest[m] == u[j - 1];
        }
      }
    }
  }

  /** The packing order is a permutation of the registrations. */
  lemma {:induction false} PackingOrderPermutes(s: seq<Registration>)
    ensures |PackingOrder(s)| == |s|
    ensures multiset(PackingOrder(s)) == multiset(s)
  {
    if s != [] {
      assert s == [s[0]] + s[1..];
      PackingOrderPermutes(s[1..]);
      InsertPermutes(s[0], PackingOrder(s[1..]));
    }
  }

  /** The packing order is sorted by (alignment descending, slot ascending). */
  lemma {:induction false} PackingOrderSorted(s: seq<Registration>)
    ensures Sorted(PackingOrder(s))
  {
    if s != [] {
      PackingOrderSorted(s[1..]);
      InsertSorted(s[0], PackingOrder(s[1..]));
    }
  }

  /** Distinct slots stay distinct, so each appears exactly once. */
  lemma {:induction false} PackingOrderDistinct(s: seq<Registration>)
    requires SlotsDistinct(s)
    ensures SlotsDistinct(PackingOrder(s))
  {
    if s != [] {
      var rest := s[1..];
      assert forall k :: 0 <= k < |rest| ==> rest[k] == s[k + 1];
      PackingOrderDistinct(rest);
      PackingOrderPermutes(rest);
      var p := PackingOrder(rest);
      forall k | 0 <= k < |p| ensures p[k].slot != s[0].slot {
        assert p[k] in multiset(rest);
        var m :| 0 <= m < |rest| && rest[m] == p[k];
      }
      InsertDistinct(s[0], p);
    }
  }

  /** The packing order is a sorted permutation of the registrations, and it
      keeps distinct slots distinct. */
  lemma PackingOrderCorrect(s: seq<Registration>)
    ensures |PackingOrder(s)| == |s|
    ensures multiset(PackingOrder(s)) == multiset(s)
    ensures Sorted(PackingOrder(s))
    ensures SlotsDistinct(s) ==> SlotsDistinct(PackingOrder(s))
  {
    PackingOrderPermutes(s);
    PackingOrderSorted(s);
    if SlotsDistinct(s) {
      PackingOrderDistinct(s);
    }
  }

  /** Sorting input that is already in packing order changes nothing. */
  lemma {:induction false} PackingOrderOfSorted(s: seq<Registration>)
    requires Sorted(s)
    ensures PackingOrder(s) == s
  {
    if s != [] {
      var rest := s[1..];
      assert Sorted(rest);
      PackingOrderOfSorted(rest);
      assert s == [s[0]] + rest;
      assert rest == [] || InPackingOrder(s[0], rest[0]);
    }
  }

  /** With distinct slots the comparator is a strict total order, so there
      is only one sorted arrangement: whatever algorithm `sort_by` runs, its
      result is `PackingOrder`. */
  lemma SortIsUnique(s: seq<Registration>, t: seq<Registration>)
    requires SlotsDistinct(s) && Sorted(t) && multiset(t) == multiset(s)
    ensures t == PackingOrder(s)
  {
    PackingOrderCorrect(s);
    SortedPermutationsEqual(PackingOrder(s), t);
  }

  lemma {:induction false} SortedPermutationsEqual(a: seq<Registration>, b: seq<Registration>)
    requires SlotsDistinct(a) && Sorted(a) && Sorted(b) && multiset(a) == multiset(b)
    ensures a == b
    decreases |a|
  {
    assert |a| == |multiset(a)| == |b|;
    if a != [] {
      SortedHeadsEqual(a, b);
      assert a == [a[0]] + a[1..] && b == [b[0]] + b[1..];
      assert multiset(a[1..]) == multiset(b[1..]) by {
        assert multiset(a) == multiset([a[0]]) + multiset(a[1..]);
        assert multiset(b) == multiset([b[0]]) + multiset(b[1..]);
        assert multiset(a[1..]) == multiset(a) - multiset{a[0]};
        assert multiset(b[1..]) == multiset(b) - multiset{b[0]};
      }
      SortedTail(a);
      SortedTail(b);
      assert SlotsDistinct(a[1..]) by {
        forall i, j | 0 <= i < j < |a| - 1 ensures a[1..][i].slot != a[1..][j].slot {
          assert a[1..][i] == a[i + 1] && a[1..][j] == a[j + 1];
        }
      }
      SortedPermutationsEqual(a[1..], b[1..]);
    }
  }

  /** Two sorted permutations start with the same registration. */
  lemma SortedHeadsEqual(a: seq<Registration>, b: seq<Registration>)
    requires SlotsDistinct(a) && Sorted(a) && Sorted(b) && multiset(a) == multiset(b)
    requires a != []
    ensures b != [] && a[0] == b[0]
  {
    assert a[0] in multiset(b);
    assert b != [] && b[0] in multiset(a);
    var i :| 0 <= i < |a| && a[i] == b[0];
    var j :| 0 <= j < |b| && b[j] == a[0];
    HeadFirst(a, i);
    HeadFirst(b, j);
    assert a[i].slot == a[0].slot;
  }

  /** The head of a sorted sequence may stand before each of its elements. */
  lemma HeadFirst(s: seq<Registration>, k: nat)
    requires Sorted(s) && k < |s|
    ensures InPackingOrder(s[0], s[k])
  {
  }

  lemma SortedTail(s: seq<Registration>)
    requires Sorted(s) && s != []
    ensures Sorted(s[1..])
  {
    forall i, j | 0 <= i < j < |s| - 1 ensures InPackingOrder(s[1..][i], s[1..][j]) {
      assert s[1..][i] == s[i + 1] && s[1..][j] == s[j + 1];
    }
  }

  lemma {:induction false} SizeSumOfInsert(x: Registration, s: seq<Registration>)
    ensures SizeSum(LayoutsOf(Insert(x, s))) == x.layout.size + SizeSum(LayoutsOf(s))
  {
    if s == [] || InPackingOrder(x, s[0]) {
      assert LayoutsOf([x] + s) == [x.layout] + LayoutsOf(s);
      SizeSumCons(x.layout, LayoutsOf(s));
    } else {
      var u := Insert(x, s[1..]);
      SizeSumOfInsert(x, s[1..]);
      assert LayoutsOf([s[0]] + u) == [s[0].layout] + LayoutsOf(u);
      SizeSumCons(s[0].layout, LayoutsOf(u));
      assert LayoutsOf(s) == [s[0].layout] + LayoutsOf(s[1..]);
      SizeSumCons(s[0].layout, LayoutsOf(s[1..]));
    }
  }

  /** Reordering does not change the total size. */
  lemma {:induction false} SizeSumOfPackingOrder(s: seq<Registration>)
    ensures SizeSum(LayoutsOf(PackingOrder(s))) == SizeSum(LayoutsOf(s))
  {
    if s != [] {
      SizeSumOfPackingOrder(s[1..]);
      SizeSumOfInsert(s[0], PackingOrder(s[1..]));
      assert LayoutsOf(s) == [s[0].layout] + LayoutsOf(s[1..]);
      SizeSumCons(s[0].layout, LayoutsOf(s[1..]));
    }
  }

  // ---------------------------------------------------------------------------
  // The baked layout

  /** `slot_map`: each slot paired with its position in packing order, in
      packing order (the insertion order of the `IndexMap`). */
  function SlotMapOf(packed: seq<Registration>): (m: seq<(nat, nat)>)
    ensures |m| == |packed|
    ensures forall i :: 0 <= i < |packed| ==> m[i] == (packed[i].slot, i)
  {
    seq(|packed|, i requires 0 <= i < |packed| => (packed[i].slot, i))
  }

  /** `IndexMap::get` on a map kept as its insertion-ordered entries. */
  function Lookup(m: seq<(nat, nat)>, key: nat): (r: Option<nat>)
    ensures r.None? <==> forall k :: 0 <= k < |m| ==> m[k].0 != key
    ensures r.Some? ==> exists k :: 0 <= k < |m| && m[k] == (key, r.value)
  {
    if m == [] then None
    else if m[0].0 == key then Some(m[0].1)
    else
      var r := Lookup(m[1..], key);
      assert forall k :: 1 <= k < |m| ==> m[1..][k - 1] == m[k];
      r
  }

  /** `BlockLayout`: the slot map, the element layout and the field layouts
      in packing order. */
  datatype BlockLayout = BlockLayout(slotMap: seq<(nat, nat)>, layout: Layout, subLayouts: seq<Layout>)
  {
    /** What `finish` guarantees and `apply` relies on. */
    ghost predicate Valid()
    {
      && |slotMap| == |subLayouts|
      && (forall k :: 0 <= k < |slotMap| ==> slotMap[k].1 == k)
      && (forall k :: 0 <= k < |subLayouts| ==> IsTypeLayout(subLayouts[k]))
      && (forall k :: 0 <= k < |subLayouts| ==> subLayouts[k].align <= layout.align)
      && (forall i, j :: 0 <= i < j < |subLayouts| ==> subLayouts[i].align >= subLayouts[j].align)
      && IsPow2(layout.align)
      && layout.size == SizeSum(subLayouts)
    }

    /** Every slot `0 .. n-1` has an entry in the slot map. */
    ghost predicate CoversSlots()
    {
      forall s :: 0 <= s < |slotMap| ==> Lookup(slotMap, s).Some? && Lookup(slotMap, s).value < |subLayouts|
    }
  }

  /** `slot_map` built from the packing order holds every slot exactly once,
      at the position where that slot's own registration stands. */
  lemma SlotMapOfPackingOrder(layouts: seq<Registration>, s: nat)
    requires forall i :: 0 <= i < |layouts| ==> layouts[i].slot == i
    requires s < |layouts|
    ensures var packed := PackingOrder(layouts);
            var m := SlotMapOf(packed);
            && Lookup(m, s).Some?
            && Lookup(m, s).value < |packed|
            && packed[Lookup(m, s).value] == layouts[s]
            && forall k :: 0 <= k < |m| && m[k].0 == s ==> k == Lookup(m, s).value
  {
    var packed := PackingOrder(layouts);
    var m := SlotMapOf(packed);
    PackingOrderCorrect(layouts);
    assert SlotsDistinct(layouts);
    assert layouts[s] in multiset(packed);
    var p :| 0 <= p < |packed| && packed[p] == layouts[s];
    assert m[p] == (s, p);
    forall k | 0 <= k < |m| && m[k].0 == s ensures k == p {
      assert packed[k].slot == packed[p].slot;
    }
    var q :| 0 <= q < |m| && m[q] == (s, Lookup(m, s).value);
  }

  lemma SlotMapCoversAll(layouts: seq<Registration>)
    requires forall i :: 0 <= i < |layouts| ==> layouts[i].slot == i
    ensures var packed := PackingOrder(layouts);
            var m := SlotMapOf(packed);
            forall s :: 0 <= s < |layouts| ==>
              Lookup(m, s).Some? && Lookup(m, s).value < |packed| && packed[Lookup(m, s).value] == layouts[s]
  {
    forall s | 0 <= s < |layouts| {
      SlotMapOfPackingOrder(layouts, s);
    }
  }

  /** The packed layouts form a layout `apply` can use: fields sorted by
      non-increasing alignment, none more aligned than the element, sizes
      summing to the element size. */
  lemma PackedLayoutValid(layouts: seq<Registration>, maxAlignment: nat, elementSize: nat)
    requires BuilderInvariant(layouts, maxAlignment, elementSize)
    ensures var packed := PackingOrder(layouts);
            BlockLayout(SlotMapOf(packed), Layout(elementSize, maxAlignment), LayoutsOf(packed)).Valid()
  {
    var packed := PackingOrder(layouts);
    PackingOrderCorrect(layouts);
    SizeSumOfPackingOrder(layouts);
    AlignMaxIsMax(LayoutsOf(layouts));
    AlignMaxPow2(LayoutsOf(layouts));
    forall k | 0 <= k < |packed|
      ensures IsTypeLayout(packed[k].layout) && packed[k].layout.align <= maxAlignment
    {
      assert packed[k] in multiset(layouts);
      var m :| 0 <= m < |layouts| && layouts[m] == packed[k];
      assert LayoutsOf(layouts)[m] == packed[k].layout;
    }
  }

  /** `finish`, applied to the builder's fields (it consumes the builder).
      `None` is the panic of `Layout::from_size_align(..).unwrap()`. On
      success the element layout is (sum of sizes, max of 1 and the
      alignments), the result is valid for `apply`, and looking up slot `s`
      in the slot map finds the layout registered under `s`. */
  function Finish(layouts: seq<Registration>, maxAlignment: nat, elementSize: nat): (r: Option<BlockLayout>)
    requires BuilderInvariant(layouts, maxAlignment, elementSize)
    ensures r.Some? <==> elementSize + maxAlignment - 1 <= UsizeMax
    ensures r.Some? ==> r.value.layout == Layout(SizeSum(LayoutsOf(layouts)), AlignMax(LayoutsOf(layouts)))
    ensures r.Some? ==> r.value.Valid() && r.value.CoversSlots()
    ensures r.Some? ==> |r.value.subLayouts| == |r.value.slotMap| == |layouts|
    ensures r.Some? ==> forall s :: 0 <= s < |layouts| ==>
              r.value.subLayouts[Lookup(r.value.slotMap, s).value] == layouts[s].layout
  {
    var packed := PackingOrder(layouts);
    var slotMap := SlotMapOf(packed);
    var subLayouts := LayoutsOf(packed);
    PackingOrderCorrect(layouts);
    AlignMaxPow2(LayoutsOf(layouts));
    PackedLayoutValid(layouts, maxAlignment, elementSize);
    SlotMapCoversAll(layouts);
    match FromSizeAlign(elementSize, maxAlignment)
    case None => None
    case Some(layout) => Some(BlockLayout(slotMap, layout, subLayouts))
  }
}
