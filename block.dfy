/**
  `BlockLayout::apply` and `Block` (src/lib.rs:154-236): carve a memory
  region, given by its base address and byte count, into one sub-array per
  field. Addresses are natural numbers.
 */
module Blocks {
  import opened Bits
  import opened Layouts
  import opened Builder

  /** `Range<usize>`: `start..end`. */
  datatype Range = Range(start: nat, end: nat)

  /** What `as_slice` hands out: a start address and an element count. */
  datatype Slice = Slice(addr: nat, len: nat)

  /** `Block`: the byte range it occupies (as offsets from the region's base),
      the element count of every sub-array, and one start address per field.
      `Block::range` and `Block::len` are the fields `range` and `len`. */
  datatype Block = Block(range: Range, len: nat, slices: seq<nat>)
  {
    /** `as_raw::<T>(slot)`: the address stored at index `slot`, with `len`. */
    function AsRaw(slot: nat): (nat, nat)
      requires slot < |slices|
    {
      (slices[slot], len)
    }

    /** `as_slice::<T>(slot)`: the same address and count, as a slice. */
    function AsSlice(slot: nat): Slice
      requires slot < |slices|
    {
      Slice(slices[slot], len)
    }
  }

  // ---------------------------------------------------------------------------
  // Element count and offsets (src/lib.rs:173-186)

  /** `len`: how many whole elements of `elementSize` bytes fit in
      `sizeAligned` bytes; `!0` when elements take no space. */
  function ElementCount(sizeAligned: nat, elementSize: nat): (len: nat)
    ensures elementSize == 0 ==> len == UsizeMax
    ensures elementSize > 0 ==> elementSize * len <= sizeAligned < elementSize * (len + 1)
  {
    if elementSize == 0 then UsizeMax else sizeAligned / elementSize
  }

  /** Byte offset of the sub-array at packing position `k`: the sizes of
      the `k` fields before it, each times `len`. */
  function PackedOffset(subLayouts: seq<Layout>, len: nat, k: nat): nat
    requires k <= |subLayouts|
  {
    SizeSum(subLayouts[..k]) * len
  }

  /** The offsets are the prefix sums of `size * len`: they start at 0 and
      each one is the previous plus the previous field's `size * len`. */
  lemma PackedOffsetIsPrefixSum(subLayouts: seq<Layout>, len: nat, k: nat)
    requires k < |subLayouts|
    ensures PackedOffset(subLayouts, len, 0) == 0
    ensures PackedOffset(subLayouts, len, k + 1) == PackedOffset(subLayouts, len, k) + subLayouts[k].size * len
  {
    assert subLayouts[..k + 1][..k] == subLayouts[..k];
    assert subLayouts[..0] == [];
    assert (SizeSum(subLayouts[..k]) + subLayouts[k].size) * len
        == SizeSum(subLayouts[..k]) * len + subLayouts[k].size * len;
  }

  /** The padding-free packing invariant: in non-increasing alignment order,
      with every size a multiple of its power-of-two alignment, each field's
      offset is a multiple of that field's alignment, so the `assert_eq!` in
      the loop of `apply` never fires. */
  lemma OffsetAligned(bl: BlockLayout, len: nat, k: nat)
    requires bl.Valid()
    requires k < |bl.subLayouts|
    ensures PackedOffset(bl.subLayouts, len, k) % bl.subLayouts[k].align == 0
  {
    var subs := bl.subLayouts;
    var a := subs[k].align;
    var prefix := subs[..k];
    forall j | 0 <= j < |prefix| ensures prefix[j].size % a == 0 {
      assert prefix[j] == subs[j];
      Pow2Divides(a, subs[j].align);
      DividesTransitive(a, subs[j].align, subs[j].size);
    }
    SizeSumDivisible(prefix, a);
    DividesProduct(a, SizeSum(prefix), len);
  }

  // ---------------------------------------------------------------------------
  // apply

  /** The block `apply` returns, or `None` where, with overflow checks on, it
      panics because the aligned end precedes the aligned start (`end -
      start` underflows). A
      layout without fields gives the empty block whatever the region. Start
      addresses are in packing order. */
  function Carve(bl: BlockLayout, base: nat, size: nat): (r: Option<Block>)
    requires bl.Valid()
    ensures bl.subLayouts == [] ==> r == Some(Block(Range(0, 0), 0, []))
    ensures bl.subLayouts != [] ==>
      (r.None? <==> AlignDown(base + size, bl.layout.align) < AlignUp(base, bl.layout.align))
    ensures bl.subLayouts != [] && r.Some? ==>
      var start, end := AlignUp(base, bl.layout.align), AlignDown(base + size, bl.layout.align);
      && r.value.range == Range(start - base, end - base)
      && r.value.range.start < bl.layout.align
      && r.value.range.start <= r.value.range.end <= size
      && r.value.len == ElementCount(end - start, bl.layout.size)
      && |r.value.slices| == |bl.subLayouts|
  {
    if bl.subLayouts == [] then Some(Block(Range(0, 0), 0, []))
    else
      var align := bl.layout.align;
      var start := AlignUp(base, align);
      var end := AlignDown(base + size, align);
      if end < start then None
      else
        var initialOffset := start - base;
        var sizeAligned := end - start;
        var len := ElementCount(sizeAligned, bl.layout.size);
        var slices := seq(|bl.subLayouts|, k requires 0 <= k < |bl.subLayouts| =>
                            start + PackedOffset(bl.subLayouts, len, k));
        Some(Block(Range(initialOffset, initialOffset + sizeAligned), len, slices))
  }

  /** The first loop of `apply`: the offset of every sub-array, in packing
      order, as running sums of `size * len`; each offset passes the
      `assert_eq!` that it is a multiple of its field's alignment. */
  method PackOffsets(bl: BlockLayout, len: nat) returns (offsets: seq<nat>)
    requires bl.Valid()
    ensures |offsets| == |bl.subLayouts|
    ensures forall k :: 0 <= k < |offsets| ==> offsets[k] == PackedOffset(bl.subLayouts, len, k)
    ensures forall k :: 0 <= k < |offsets| ==> offsets[k] % bl.subLayouts[k].align == 0
  {
    var offset := 0;
    offsets := [];
    for i := 0 to |bl.subLayouts|
      invariant |offsets| == i
      invariant offset == PackedOffset(bl.subLayouts, len, i)
      invariant forall k :: 0 <= k < i ==> offsets[k] == PackedOffset(bl.subLayouts, len, k)
    {
      var layout := bl.subLayouts[i];
      OffsetAligned(bl, len, i);
      assert offset % layout.align == 0;
      offsets := offsets + [offset];
      PackedOffsetIsPrefixSum(bl.subLayouts, len, i);
      offset := offset + layout.size * len;
    }
    forall k | 0 <= k < |offsets| ensures offsets[k] % bl.subLayouts[k].align == 0 {
      OffsetAligned(bl, len, k);
    }
  }

  /** The second loop of `apply`: one start address per entry of
      `slot_map.values()`, taken in the map's order. */
  method SliceStarts(slotMap: seq<(nat, nat)>, start: nat, offsets: seq<nat>) returns (slices: seq<nat>)
    requires forall k :: 0 <= k < |slotMap| ==> slotMap[k].1 < |offsets|
    ensures |slices| == |slotMap|
    ensures forall k :: 0 <= k < |slotMap| ==> slices[k] == start + offsets[slotMap[k].1]
  {
    slices := [];
    for k := 0 to |slotMap|
      invariant |slices| == k
      invariant forall j :: 0 <= j < k ==> slices[j] == start + offsets[slotMap[j].1]
    {
      var position := slotMap[k].1;
      slices := slices + [start + offsets[position]];
    }
  }

  /** `BlockLayout::apply`: align the region's ends to the element alignment,
      count the elements that fit, then run the two loops. */
  method Apply(bl: BlockLayout, base: nat, size: nat) returns (r: Option<Block>)
    requires bl.Valid()
    ensures r == Carve(bl, base, size)
  {
    if |bl.subLayouts| == 0 {
      return Some(Block(Range(0, 0), 0, []));
    }

    var align := bl.layout.align;
    PowerOfTwoTest(align);
    assert And(align, align - 1) == 0;

    var start := ClearLow(base + align - 1, align);
    var end := ClearLow(base + size, align);
    assert start == AlignUp(base, align) && end == AlignDown(base + size, align);

    var initialOffset := start - base;
    if end < start {
      // `end - start` underflows: with overflow checks on, the Rust code panics here.
      return None;
    }
    var sizeAligned := end - start;
    var len := ElementCount(sizeAligned, bl.layout.size);

    var offsets := PackOffsets(bl, len);
    var slices := SliceStarts(bl.slotMap, start, offsets);

    ghost var want := seq(|bl.subLayouts|, k requires 0 <= k < |bl.subLayouts| =>
                            start + PackedOffset(bl.subLayouts, len, k));
    forall k | 0 <= k < |slices| ensures slices[k] == want[k] {
      assert bl.slotMap[k].1 == k;
    }
    assert slices == want;
    assert Carve(bl, base, size) == Some(Block(Range(initialOffset, initialOffset + sizeAligned), len, want));
    r := Some(Block(Range(initialOffset, initialOffset + sizeAligned), len, slices));
  }

  // ---------------------------------------------------------------------------
  // What a block promises

  /** With a non-empty element, the fields' sub-arrays together take exactly
      `size * len` bytes, and that fits in the aligned region. */
  lemma CarveFootprint(bl: BlockLayout, base: nat, size: nat)
    requires bl.Valid()
    requires bl.subLayouts != [] && Carve(bl, base, size).Some?
    ensures var b := Carve(bl, base, size).value;
            PackedOffset(bl.subLayouts, b.len, |bl.subLayouts|) == bl.layout.size * b.len
            && bl.layout.size * b.len <= b.range.end - b.range.start
  {
    var b := Carve(bl, base, size).value;
    assert bl.subLayouts[..|bl.subLayouts|] == bl.subLayouts;
    if bl.layout.size == 0 {
      assert bl.layout.size * b.len == 0;
    }
  }

  /** The sub-array at packing position `k` starts at an address that is a
      multiple of that field's alignment and, with its `len` elements, lies
      inside the aligned region. */
  lemma CarveFieldPlacement(bl: BlockLayout, base: nat, size: nat, k: nat)
    requires bl.Valid()
    requires Carve(bl, base, size).Some? && k < |bl.subLayouts|
    ensures var b := Carve(bl, base, size).value;
            var f := bl.subLayouts[k];
            && b.slices[k] % f.align == 0
            && base + b.range.start <= b.slices[k]
            && b.slices[k] + f.size * b.len <= base + b.range.end
  {
    var b := Carve(bl, base, size).value;
    var subs := bl.subLayouts;
    var f := subs[k];
    var align := bl.layout.align;
    var start := AlignUp(base, align);
    var end := AlignDown(base + size, align);
    var len := b.len;
    var offset := PackedOffset(subs, len, k);
    assert b.slices[k] == start + offset;
    // alignment: start is a multiple of the element alignment, which f's divides
    Pow2Divides(f.align, align);
    DividesTransitive(f.align, align, start);
    OffsetAligned(bl, len, k);
    DividesSum(f.align, start, offset);
    // extent: the prefix through k is at most the whole element
    var room := end - start;
    assert len == ElementCount(room, bl.layout.size) && bl.layout.size == SizeSum(subs);
    FieldEnd(subs, len, k, room);
  }

  /** The field at position `k` ends within the first `size * len` bytes. */
  lemma FieldEnd(subs: seq<Layout>, len: nat, k: nat, room: nat)
    requires k < |subs|
    requires SizeSum(subs) == 0 || SizeSum(subs) * len <= room
    ensures PackedOffset(subs, len, k) + subs[k].size * len <= room
  {
    SizeSumBounds(subs, k);
    var upTo := SizeSum(subs[..k]) + subs[k].size;
    MulDistrib(SizeSum(subs[..k]), subs[k].size, len);
    if SizeSum(subs) == 0 {
      assert upTo == 0;
    } else {
      MulMonoRight(upTo, SizeSum(subs), len);
    }
  }

  lemma MulDistrib(a: nat, b: nat, c: nat)
    ensures (a + b) * c == a * c + b * c
  {
  }

  lemma MulMonoRight(m: nat, n: nat, c: nat)
    requires m <= n
    ensures m * c <= n * c
  {
  }

  /** Sub-arrays follow one another in packing order without overlapping:
      the one at position `i` ends no later than the one at `j > i` starts. */
  lemma CarveFieldsDisjoint(bl: BlockLayout, base: nat, size: nat, i: nat, j: nat)
    requires bl.Valid()
    requires Carve(bl, base, size).Some? && i < j < |bl.subLayouts|
    ensures var b := Carve(bl, base, size).value;
            b.slices[i] + bl.subLayouts[i].size * b.len <= b.slices[j]
  {
    var b := Carve(bl, base, size).value;
    var subs := bl.subLayouts;
    PackedOffsetIsPrefixSum(subs, b.len, i);
    SizeSumPrefixMono(subs, i + 1, j);
    MulMonoRight(SizeSum(subs[..i + 1]), SizeSum(subs[..j]), b.len);
  }
}
