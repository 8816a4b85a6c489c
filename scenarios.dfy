/**
  The crate's own usage (the documentation examples and the unit tests of
  src/lib.rs), replayed on the model, and what `as_slice` returns for a
  slot when registration order and packing order differ.
 */
module Scenarios {
  import opened Bits
  import opened Layouts
  import opened Builder
  import opened Blocks

  // ---------------------------------------------------------------------------
  // Documentation examples

  /** `add` hands out 0, 1, 2 for `Foo` (a `usize` and a `[f32; 2]`) and two
      `u8`: the two `u8` handles differ (src/lib.rs:83-88). */
  method DistinctHandles() returns (fooId: nat, u8Id0: nat, u8Id1: nat)
    ensures fooId == 0 && u8Id0 == 1 && u8Id1 == 2
    ensures u8Id0 != u8Id1
  {
    var builder := new LayoutBuilder.Build();
    fooId := builder.Add(Layout(16, 8));
    u8Id0 := builder.Add(Layout(1, 1));
    u8Id1 := builder.Add(Layout(1, 1));
  }

  /** The crate example (src/lib.rs:12-43): a `[[f32; 4]; 4]` and a
      `[f32; 3]` field, memory for 128 elements from an allocator that honours
      the element alignment: the block holds exactly 128 elements, and both
      slices have that length. */
  method CrateExample(memory: nat) returns (b: Block)
    requires memory % 4 == 0
    ensures b.len == 128
    ensures |b.slices| == 2 && b.AsSlice(0).len == b.AsSlice(1).len == 128
  {
    var builder := new LayoutBuilder.Build();
    var transformId := builder.Add(Layout(64, 4));
    var velocityId := builder.Add(Layout(12, 4));
    assert builder.maxAlignment == 4 && builder.elementSize == 76;
    var blockLayout := Finish(builder.layouts, builder.maxAlignment, builder.elementSize);
    var layout := blockLayout.value.layout;
    assert layout == Layout(76, 4);
    AlignedRegion(memory, 76 * 128, 4);
    ExampleCount();
    var r := Apply(blockLayout.value, memory, layout.size * 128);
    b := r.value;
  }

  lemma ExampleCount()
    ensures ElementCount(76 * 128, 76) == 128
  {
  }

  // ---------------------------------------------------------------------------
  // Unit tests

  /** Test `empty` (src/lib.rs:243-247): no fields gives the element layout
      (0, 1) and the empty block. */
  method EmptyTest(base: nat) returns (layout: Layout, b: Option<Block>)
    ensures layout == Layout(0, 1)
    ensures b == Some(Block(Range(0, 0), 0, []))
  {
    var builder := new LayoutBuilder.Build();
    var blockLayout := Finish(builder.layouts, builder.maxAlignment, builder.elementSize);
    layout := blockLayout.value.layout;
    b := Apply(blockLayout.value, base, 32);
  }

  /** Test `single_zst` (src/lib.rs:250-265): one zero-sized field gives the
      all-ones element count, and the field's slice starts at the base. */
  method SingleZstTest(base: nat) returns (b: Block, foo: Slice)
    ensures b.len == UsizeMax
    ensures b.slices == [base]
    ensures foo == Slice(base, UsizeMax)
  {
    var builder := new LayoutBuilder.Build();
    var fooId := builder.Add(Layout(0, 1));
    var blockLayout := Finish(builder.layouts, builder.maxAlignment, builder.elementSize);
    var r := Apply(blockLayout.value, base, 32);
    assert AlignUp(base, 1) == base;
    b := r.value;
    foo := b.AsSlice(fooId);
  }

  /** Test `ordering` (src/lib.rs:268-305), on a 512-byte array at any
      address: the element layout has the larger alignment and the summed
      size, and six elements fit whether or not the array is 8-aligned. */
  method OrderingTest(data: nat) returns (layout: Layout, b: Block, small: nat, large: nat)
    ensures layout == Layout(3 + 72, 8)
    ensures small == 0 && large == 1
    ensures b.len == 6 && |b.slices| == 2
  {
    var builder := new LayoutBuilder.Build();
    small := builder.Add(Layout(3, 1));
    large := builder.Add(Layout(72, 8));
    assert builder.layouts == [Registration(0, Layout(3, 1)), Registration(1, Layout(72, 8))];
    assert builder.maxAlignment == 8 && builder.elementSize == 75;
    OrderingFinish();
    var blockLayout := Finish(builder.layouts, builder.maxAlignment, builder.elementSize);
    layout := blockLayout.value.layout;
    OrderingRegion(data);
    var r := Apply(blockLayout.value, data, 512);
    b := r.value;
  }

  // ---------------------------------------------------------------------------
  // Slots and packing positions

  /** When the fields were registered already in packing order, the address
      `as_slice(s)` returns for slot `s` starts a sub-array that is aligned
      for the field registered as `s` and holds `len` of its elements inside
      the occupied range. */
  lemma PresortedSlotsMatch(layouts: seq<Registration>, maxAlignment: nat, elementSize: nat,
                            base: nat, size: nat, s: nat)
    requires BuilderInvariant(layouts, maxAlignment, elementSize)
    requires Sorted(layouts)
    requires Finish(layouts, maxAlignment, elementSize).Some?
    requires Carve(Finish(layouts, maxAlignment, elementSize).value, base, size).Some?
    requires s < |layouts|
    ensures var b := Carve(Finish(layouts, maxAlignment, elementSize).value, base, size).value;
            var field := layouts[s].layout;
            && s < |b.slices|
            && b.AsSlice(s).addr % field.align == 0
            && base + b.range.start <= b.AsSlice(s).addr
            && b.AsSlice(s).addr + field.size * b.AsSlice(s).len <= base + b.range.end
  {
    var bl := Finish(layouts, maxAlignment, elementSize).value;
    PackingOrderOfSorted(layouts);
    assert bl.subLayouts[s] == layouts[s].layout;
    CarveFieldPlacement(bl, base, size, s);
  }

  /** The `ordering` test as written, on an 8-aligned array: `Large` is
      packed first, so `slices == [start, start + 432]`, and `as_slice(large)`
      (slot 1) returns the address of `Small`'s sub-array; six `Large`
      elements from there end 352 bytes past the occupied range. */
  lemma OrderingSliceOverrun(base: nat)
    requires base % 8 == 0
    ensures var layouts := [Registration(0, Layout(3, 1)), Registration(1, Layout(72, 8))];
            && BuilderInvariant(layouts, 8, 75)
            && Finish(layouts, 8, 75).Some?
            && Carve(Finish(layouts, 8, 75).value, base, 512).Some?
            && var b := Carve(Finish(layouts, 8, 75).value, base, 512).value;
               && b.range == Range(0, 512) && b.len == 6
               && b.slices == [base, base + 432]
               && b.AsSlice(1) == Slice(base + 432, 6)
               && b.AsSlice(1).addr + 72 * b.AsSlice(1).len == base + b.range.end + 352
  {
    OrderingFinish();
    OrderingCarve(base);
  }

  /** The block layout `finish` builds for the `ordering` test. */
  lemma OrderingFinish()
    ensures var layouts := [Registration(0, Layout(3, 1)), Registration(1, Layout(72, 8))];
            && BuilderInvariant(layouts, 8, 75)
            && Finish(layouts, 8, 75) == Some(BlockLayout([(1, 0), (0, 1)], Layout(75, 8), [Layout(72, 8), Layout(3, 1)]))
  {
    var small, large := Registration(0, Layout(3, 1)), Registration(1, Layout(72, 8));
    var layouts := [small, large];
    assert LayoutsOf(layouts) == [Layout(3, 1), Layout(72, 8)];
    assert [Layout(3, 1), Layout(72, 8)][..1] == [Layout(3, 1)];
    assert [Layout(3, 1)][..0] == [];
    assert BuilderInvariant(layouts, 8, 75);
    assert layouts[1..] == [large] && [large][1..] == [];
    assert PackingOrder([large]) == [large];
    assert Insert(small, [large]) == [large] + Insert(small, []);
    assert PackingOrder(layouts) == [large, small];
    assert SlotMapOf([large, small]) == [(1, 0), (0, 1)];
    assert LayoutsOf([large, small]) == [Layout(72, 8), Layout(3, 1)];
  }

  /** Six 75-byte elements fit in a 512-byte array once its ends are
      rounded to 8 (504 or 512 bytes remain); with an 8-aligned base nothing
      is cut. */
  lemma OrderingRegion(data: nat)
    ensures AlignUp(data, 8) <= AlignDown(data + 512, 8)
    ensures ElementCount(AlignDown(data + 512, 8) - AlignUp(data, 8), 75) == 6
    ensures data % 8 == 0 ==> AlignUp(data, 8) == data && AlignDown(data + 512, 8) == data + 512
  {
    if data % 8 == 0 {
      AlignedRegion(data, 512, 8);
      OrderingCount(512);
    } else {
      var r := data % 8;
      assert (data + 8 - r) % 8 == 0 && (data + 512 - r) % 8 == 0;
      AlignUpUnique(data, 8, data + 8 - r);
      AlignDownUnique(data + 512, 8, data + 512 - r);
      OrderingCount(504);
    }
  }

  lemma OrderingCount(room: nat)
    requires room == 512 || room == 504
    ensures ElementCount(room, 75) == 6
  {
  }

  lemma OrderingCarve(base: nat)
    requires base % 8 == 0
    ensures var bl := BlockLayout([(1, 0), (0, 1)], Layout(75, 8), [Layout(72, 8), Layout(3, 1)]);
            bl.Valid() && Carve(bl, base, 512) == Some(Block(Range(0, 512), 6, [base, base + 432]))
  {
    var subs := [Layout(72, 8), Layout(3, 1)];
    var bl := BlockLayout([(1, 0), (0, 1)], Layout(75, 8), subs);
    assert subs[..1] == [Layout(72, 8)] && subs[..0] == [] && [Layout(72, 8)][..0] == [];
    assert subs[..|subs| - 1] == [Layout(72, 8)];
    assert SizeSum(subs) == 75;
    assert bl.Valid();
    OrderingRegion(base);
    var b := Carve(bl, base, 512).value;
    assert b.range == Range(0, 512) && b.len == 6;
    assert PackedOffset(subs, 6, 0) == 0 && PackedOffset(subs, 6, 1) == 432;
    assert b.slices[0] == base && b.slices[1] == base + 432;
    assert b.slices == [base, base + 432];
  }

  // ---------------------------------------------------------------------------
  // Start addresses indexed by slot

  /** The block with its start addresses reordered by slot, looking each slot
      up in `slot_map` (`offsets[slot_map[&slot]]` for `slot` in
      `0..n`), so that `as_slice(slot)` finds the sub-array of the field
      registered as `slot`. */
  function CarveBySlot(bl: BlockLayout, base: nat, size: nat): (r: Option<Block>)
    requires bl.Valid() && bl.CoversSlots()
    ensures r.Some? <==> Carve(bl, base, size).Some?
    ensures r.Some? ==> |r.value.slices| == |bl.slotMap|
  {
    match Carve(bl, base, size)
    case None => None
    case Some(b) =>
      Some(b.(slices := seq(|bl.slotMap|, s requires 0 <= s < |bl.slotMap| =>
                              b.slices[Lookup(bl.slotMap, s).value])))
  }

  /** With slices indexed by slot, every slot's slice is aligned for the
      field registered under it, holds `len` of its elements inside the
      occupied range, and the slices of two different slots do not overlap,
      whatever order the fields were registered in. */
  lemma CarveBySlotPlacesEachSlot(layouts: seq<Registration>, maxAlignment: nat, elementSize: nat,
                                  base: nat, size: nat, s: nat, t: nat)
    requires BuilderInvariant(layouts, maxAlignment, elementSize)
    requires Finish(layouts, maxAlignment, elementSize).Some?
    requires CarveBySlot(Finish(layouts, maxAlignment, elementSize).value, base, size).Some?
    requires s < |layouts| && t < |layouts| && s != t
    ensures var b := CarveBySlot(Finish(layouts, maxAlignment, elementSize).value, base, size).value;
            var fs, ft := layouts[s].layout, layouts[t].layout;
            && b.AsSlice(s).addr % fs.align == 0
            && base + b.range.start <= b.AsSlice(s).addr
            && b.AsSlice(s).addr + fs.size * b.len <= base + b.range.end
            && (b.AsSlice(s).addr + fs.size * b.len <= b.AsSlice(t).addr
                || b.AsSlice(t).addr + ft.size * b.len <= b.AsSlice(s).addr)
  {
    var bl := Finish(layouts, maxAlignment, elementSize).value;
    var p, q := Lookup(bl.slotMap, s).value, Lookup(bl.slotMap, t).value;
    SlotMapOfPackingOrder(layouts, s);
    SlotMapOfPackingOrder(layouts, t);
    assert p != q;
    CarveFieldPlacement(bl, base, size, p);
    if p < q {
      CarveFieldsDisjoint(bl, base, size, p, q);
    } else {
      CarveFieldsDisjoint(bl, base, size, q, p);
    }
  }
}
