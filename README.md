# norse-billow: a verified model of the SoA block layout

`norse-billow` lays out one memory region as a structure of arrays. The caller
registers the fields of an element with a `LayoutBuilder`. `finish` sorts the
fields into packing order: alignment descending, then registration slot
ascending. It records for each slot its packing position in a `slot_map`, and
checks the element layout (sum of sizes, largest alignment).
`BlockLayout::apply` takes a region (base address and byte count) and does
the following:

- rounds its start up and its end down to the element alignment;
- counts how many elements fit;
- computes one sub-array offset per field as running sums of `size * len`;
- returns a `Block` holding the occupied range, the element count and one
  start address per field.

The model is in five modules:

- `Bits` (`bits.dfy`): the bitwise forms the code uses, as arithmetic on
  naturals.
  - `And` is a bitwise AND, and `Not` the complement on an `n`-bit word.
  - `ClearLow` is `x & !(a - 1)`, proved equal to the masked form on a word.
  - It has lemmas saying that `a & (a - 1) == 0` is the power-of-two test and
    that the mask rounds down to a multiple.
  - `AlignUp` and `AlignDown` round to a power-of-two alignment.
- `Layouts` (`layout.dfy`): `std::alloc::Layout` as a `(size, align)` pair,
  plus:
  - `Layout::from_size_align` with its failure cases;
  - sums and maxima over lists of layouts.
- `Builder` (`builder.dfy`):
  - the builder as a class whose `Add` updates its three fields in place;
  - the comparator and a sort by it, with lemmas saying it is a sorted
    permutation and the only one;
  - the slot map;
  - `Finish`, and the `BlockLayout` it produces.
- `Blocks` (`block.dfy`):
  - `Carve`, the specification of `apply` as a function;
  - the method `Apply`, with the two loops of `apply` (`PackOffsets` and
    `SliceStarts`), proved equal to `Carve`;
  - lemmas on what a block promises: every sub-array is aligned, lies in the
    occupied range, and does not overlap the others.
- `Scenarios` (`scenarios.dfy`):
  - the crate's documentation examples and unit tests, replayed on the model;
  - the mismatch between registration slots and packing positions in
    `as_slice` (see "## Findings").

Addresses and sizes are unbounded naturals. `usize::MAX` is the constant
`UsizeMax`, used where the code uses `!0`. Each panic of the code is an
`Option` result, always `None`:

- `from_size_align(..).unwrap()` in `finish`;
- the underflow of `end - start` in `apply` (src/lib.rs:172), which panics
  when overflow checks are enabled (the default debug profile). With them
  off it wraps; see "## Left out".

## Model

| member | source | states |
|---|---|---|
| `Builder.LayoutBuilder.Build` | src/lib.rs:138-145 | `build` starts with no fields, alignment 1 and size 0, and the builder invariant holds. |
| `Builder.LayoutBuilder.Add` | src/lib.rs:90-98 | The new slot is the number of fields registered before. The entry `(slot, layout)` is appended. `max_alignment` becomes the max of itself and the new alignment, and `element_size` grows by the new size. The invariant is kept: slots are indices, the maximum covers every registered alignment, the size is their sum. |
| `Scenarios.DistinctHandles` | src/lib.rs:83-88 | Adding `Foo`, `u8` and `u8` hands out 0, 1, 2, so the two `u8` handles differ. |
| `Builder.PackingOrderCorrect` | src/lib.rs:103-110 | The packing order is a permutation of the registrations, sorted by alignment descending then slot ascending, and it keeps distinct slots distinct. |
| `Builder.SortIsUnique` | src/lib.rs:103-110 | With distinct slots, every sorted permutation of the registrations equals the packing order. So the model's sort yields exactly what `sort_by` yields. |
| `Builder.PackingOrderOfSorted` | src/lib.rs:103-110 | Registrations already in packing order are left as they are. |
| `Builder.SizeSumOfPackingOrder` | src/lib.rs:103-110 | Sorting does not change the sum of the field sizes. |
| `Builder.SlotMapOfPackingOrder` | src/lib.rs:112-117 | In the slot map built from the packing order, every slot has exactly one entry. Its value is the packing position that holds that slot's own registration. |
| `Builder.PackedLayoutValid` | src/lib.rs:101-127 | The packed field layouts are what `apply` relies on. They are in non-increasing alignment order. None is more aligned than the element (whose alignment is a power of two). Their sizes sum to the element size. |
| `Builder.Finish` | src/lib.rs:101-127 | Succeeds exactly when `from_size_align(element_size, max_alignment)` does, and panics (`None`) otherwise. On success: the element layout is `(sum of sizes, max of 1 and the alignments)`; the result is valid for `apply`; every slot is in the slot map; and the entry found for slot `s` indexes the layout registered as `s`. |
| `Layouts.FromSizeAlignRoundsUp` | src/lib.rs:120 | For a power-of-two alignment that fits in `usize`, `Layout::from_size_align` succeeds exactly when the size rounded up to the alignment is at most `usize::MAX`. |
| `Layouts.AlignMaxIsMax` | src/lib.rs:92 | The running `max_alignment` is at least 1 and at least every alignment. It is 1 or one of the alignments. |
| `Layouts.AlignMaxPow2` | src/lib.rs:92 | The maximum of power-of-two alignments is a power of two. |
| `Bits.PowerOfTwoTest` | src/lib.rs:164 | For `a >= 1`, `a & (a - 1) == 0` exactly when `a` is a power of two. So the `assert_eq!` in `apply` never fires on a finished layout. |
| `Bits.AndLowMask` | src/lib.rs:168-169 | For a power of two `a`, `x & (a - 1)` is `x % a`. |
| `Bits.ClearLowIsMask` | src/lib.rs:168-169 | On an `n`-bit word holding `x` and the alignment `a`, `x & !(a - 1)` equals `ClearLow(x, a)`, that is `x - (x & (a - 1))`. |
| `Bits.ClearLowIsRoundDown` | src/lib.rs:168-169 | `x & !(a - 1)` is `x - x % a`: a multiple of `a`, at most `x` and more than `x - a`. |
| `Bits.Pow2Divides` | src/lib.rs:179-186 | A smaller power of two divides a larger one. This is the fact the padding-free packing rests on. |
| `Bits.AlignUp` | src/lib.rs:168 | The rounded-up start is a multiple of the alignment in `[x, x + a)`. |
| `Bits.AlignUpUnique` | src/lib.rs:168 | The rounded-up start is the only multiple of the alignment in `[x, x + a)`. |
| `Bits.AlignDown` | src/lib.rs:169 | The rounded-down end is a multiple of the alignment in `(x - a, x]`. |
| `Bits.AlignDownUnique` | src/lib.rs:169 | The rounded-down end is the only multiple of the alignment in `(x - a, x]`. |
| `Bits.AlignedRegion` | src/lib.rs:168-169 | A region whose base and length are multiples of the alignment is left whole. |
| `Blocks.ElementCount` | src/lib.rs:173-177 | For a zero-sized element the count is `!0`. Otherwise it is the greatest `len` with `len * size <= size_aligned`. |
| `Blocks.PackedOffsetIsPrefixSum` | src/lib.rs:179-186 | The offsets start at 0, and each is the previous one plus the previous field's `size * len`. |
| `Blocks.OffsetAligned` | src/lib.rs:182-186 | Every field's offset is a multiple of that field's alignment. |
| `Blocks.PackOffsets` | src/lib.rs:179-186 | The first loop of `apply` yields the prefix-sum offset of every field, and each offset passes the loop's `assert_eq!` (it is a multiple of its field's alignment). |
| `Blocks.SliceStarts` | src/lib.rs:188-192 | The second loop yields one address per slot-map entry, in map order: `start + offsets[value]`. |
| `Blocks.Carve` | src/lib.rs:155-199 | A layout without fields gives the empty block. Otherwise the result is `None` exactly when the aligned end precedes the aligned start (the underflow, which panics with overflow checks on). A block has range `start - base .. end - base`, starting below the alignment and ending within `size`. Its `len` is the element count of the aligned region, and it has one address per field. |
| `Blocks.Apply` | src/lib.rs:155-199 | The method with the steps and loops of `apply` returns exactly `Carve`. |
| `Blocks.CarveFootprint` | src/lib.rs:172-186 | The sub-arrays together take `size * len` bytes, and these fit in the occupied range. |
| `Blocks.CarveFieldPlacement` | src/lib.rs:179-197 | The sub-array at packing position `k` starts at a multiple of its field's alignment, and its `len` elements lie inside the occupied range. |
| `Blocks.CarveFieldsDisjoint` | src/lib.rs:179-186 | Sub-arrays follow one another in packing order without overlapping. |
| `Scenarios.CrateExample` | src/lib.rs:12-43 | The crate example: 128 elements of `[[f32; 4]; 4]` plus `[f32; 3]` fit exactly, and both slices have length 128. |
| `Scenarios.EmptyTest` | src/lib.rs:243-247 | No fields gives the element layout `(0, 1)` and the empty block. |
| `Scenarios.SingleZstTest` | src/lib.rs:250-265 | One zero-sized field gives `len == !0` and a slice at the base. |
| `Scenarios.OrderingTest` | src/lib.rs:268-305 | Fields of 3/1 and 72/8 bytes give the element layout `(75, 8)`. Six elements fit in a 512-byte array at any address. |
| `Scenarios.OrderingRegion` | src/lib.rs:287-288 | A 512-byte array rounded to 8 keeps 504 or 512 bytes, and six 75-byte elements fit in either. |
| `Scenarios.OrderingFinish` | src/lib.rs:280-285 | The `ordering` test's layout packs `Large` first: slot map `[(1, 0), (0, 1)]`. |
| `Scenarios.PresortedSlotsMatch` | src/lib.rs:226-235 | When fields were registered in packing order, `as_slice(s)` points at the sub-array of the field registered as `s`: aligned, and inside the occupied range. |
| `Scenarios.OrderingSliceOverrun` | src/lib.rs:188-192 | As written, on the `ordering` test at an 8-aligned base, `as_slice(large)` returns `Small`'s sub-array, and six `Large` elements from there run 352 bytes past the range. |
| `Scenarios.OrderingCarve` | src/lib.rs:155-199 | The block for the `ordering` test at an 8-aligned base: range `0..512`, six elements, addresses `[base, base + 432]`. |
| `Scenarios.CarveBySlot` | src/lib.rs:188-192 | With addresses looked up through the slot map, there is a block exactly when `apply` gives one, with one address per slot. |
| `Scenarios.CarveBySlotPlacesEachSlot` | src/lib.rs:188-192 | With addresses looked up through the slot map, every slot's slice is aligned for its own field, lies inside the occupied range, and does not overlap any other slot's, whatever the registration order. |

## Left out

- `dbg!` output is not modelled: it prints and does not change results.
- `*mut T`, `NonNull` and `slice::from_raw_parts_mut` become natural
  addresses and an `(address, length)` pair. Aliasing and lifetimes are not
  modelled.
- `Blocks.Block.AsRaw`, `Blocks.Block.AsSlice`: these accessors have no
  `ensures`. Their one precondition, `slot < |slices|`, stands for the
  indexing panic of `self.slices[slot]` (src/lib.rs:227, 233). The type `T`
  the caller names is not checked against the registered layout in the Rust
  code either. What their results mean is stated by
  `PresortedSlotsMatch`, `OrderingSliceOverrun` and
  `CarveBySlotPlacesEachSlot`.
- `Block::range`, `Block::len` and `BlockLayout::layout` are the datatype
  fields `range`, `len` and `layout`.
- Machine-word overflow is not modelled, because addresses and sizes are
  unbounded naturals. This covers `ptr + align - 1` and `ptr + size` in
  `apply`, `element_size +=` in `add` and `size * len` in the offset loop.
  `add` takes layouts of Rust types, whose sizes are bounded by `isize::MAX`.
- Wrap-around of `end - start` (src/lib.rs:172) in a build without overflow
  checks is not modelled. There `size_aligned` wraps to a huge value, `len`
  follows from it, and the slices point far past the region; the model gives
  `None`, the panic of a build with overflow checks.
- A 64-bit target is assumed: `UsizeMax` is 2^64 - 1, and the scenarios use
  the 64-bit layouts of `Foo` (16, 8) and `Large` (72, 8).
- `Layout::new::<T>()` becomes a parameter of `Add`, restricted to the
  layouts a Rust type can have: a power-of-two alignment of at most 2^63, a
  size that is a multiple of it and at most `isize::MAX`.
- `Layouts.FromSizeAlign` uses the bound of the standard library's
  `LayoutErr` era, size rounded up to the alignment at most `usize::MAX`. The
  current library bounds it by `isize::MAX` instead.
- The allocation in the crate example (`std::alloc::alloc`) becomes a base
  address parameter, assumed aligned to the element layout as the allocator
  promises.
- `sort_by` and `IndexMap` are replaced by their specifications. The sort is
  modelled as an insertion sort, and `SortIsUnique` shows any sort by the same
  comparator gives the same result. The map is its insertion-ordered list of
  entries.
- The two loops of `apply` are the methods `PackOffsets` and `SliceStarts`,
  which `Apply` calls in the order `apply` runs them.

## Findings

| source | as written | input that shows it | evidently intended | confidence | as-written member | corrected member |
|---|---|---|---|---|---|---|
| src/lib.rs:188-192 | `slices` is filled in slot-map order, which is packing order. `as_slice(slot)` indexes it by registration slot, so when a less-aligned field was registered first, a slot gets another field's address. | The `ordering` test: `Small` (3 bytes, align 1) is slot 0 and `Large` (72 bytes, align 8) is slot 1. On 512 bytes at an 8-aligned base, `len == 6` and `slices == [base, base + 432]`. `as_slice::<Large>(large)` returns `base + 432`, and 6 elements of 72 bytes end 352 bytes past the block. | `slices[slot] = start + offsets[slot_map[slot]]` for each slot in `0..n`, so that `as_slice(slot)` finds the field registered as `slot`. | high; not executed | `Scenarios.OrderingSliceOverrun` | `Scenarios.CarveBySlot` (placement and disjointness proved in `Scenarios.CarveBySlotPlacesEachSlot`) |
