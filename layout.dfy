/**
  The part of Rust's `std::alloc::Layout` the block layout needs: a
  `(size, align)` pair, the constructor `Layout::from_size_align` with its
  failure cases, and sums and maxima over lists of layouts.
 */
module Layouts {
  import opened Bits

  datatype Option<T> = None | Some(value: T)

  /** `usize::MAX` on a 64-bit target; `!0` in the source. */
  const UsizeMax: nat := 0xFFFF_FFFF_FFFF_FFFF

  /** `isize::MAX`: no Rust type is larger than this. */
  const IsizeMax: nat := 0x7FFF_FFFF_FFFF_FFFF

  datatype Layout = Layout(size: nat, align: nat)

  /** What `Layout::new::<T>()` can return for a Rust type `T`: a power-of-two
      alignment that fits in `usize`, a size that is a multiple of it, and a
      size no larger than `isize::MAX`. */
  predicate IsTypeLayout(l: Layout)
  {
    IsPow2(l.align) && l.align <= IsizeMax + 1 && l.size % l.align == 0 && l.size <= IsizeMax
  }

  /** `usize` is a 64-bit word. */
  lemma UsizeIsWord()
    ensures UsizeMax + 1 == Exp2(64)
  {
    HalfWord();
    Exp2Add(32, 32);
  }

  lemma HalfWord()
    ensures Exp2(32) == 0x1_0000_0000
  {
    assert Exp2(8) == 0x100;
    Exp2Add(8, 8);
    Exp2Add(16, 16);
  }

  /** `Layout::from_size_align(size, align)`: refuses an alignment that is not
      a power of two and a size that overflows `usize` when rounded up to the
      alignment. */
  function FromSizeAlign(size: nat, align: nat): (r: Option<Layout>)
    ensures r.Some? <==> IsPow2(align) && size + align - 1 <= UsizeMax
    ensures r.Some? ==> r.value.size == size && r.value.align == align
  {
    if !IsPow2(align) || size > UsizeMax - (align - 1) then None
    else Some(Layout(size, align))
  }

  /** The condition `from_size_align` documents: the size, rounded up to the
      (power-of-two, `usize`) alignment, does not exceed `usize::MAX`. */
  lemma FromSizeAlignRoundsUp(size: nat, align: nat)
    requires IsPow2(align) && align <= UsizeMax
    ensures FromSizeAlign(size, align).Some? <==> AlignUp(size, align) <= UsizeMax
  {
    var r := AlignUp(size, align);
    UsizeIsWord();
    Exp2IsPow2(64);
    Pow2Divides(align, UsizeMax + 1);
    if r <= UsizeMax {
      MultiplesGap(r, UsizeMax + 1, align);
    }
  }

  /** Sum of the sizes of a list of layouts. */
  function SizeSum(ls: seq<Layout>): nat
  {
    if ls == [] then 0 else SizeSum(ls[..|ls| - 1]) + ls[|ls| - 1].size
  }

  /** Maximum of 1 and the alignments of a list of layouts. */
  function AlignMax(ls: seq<Layout>): nat
  {
    if ls == [] then 1
    else
      var m := AlignMax(ls[..|ls| - 1]);
      if m < ls[|ls| - 1].align then ls[|ls| - 1].align else m
  }

  lemma {:induction false} SizeSumAppend(a: seq<Layout>, b: seq<Layout>)
    ensures SizeSum(a + b) == SizeSum(a) + SizeSum(b)
    decreases |b|
  {
    if b != [] {
      assert (a + b)[..|a + b| - 1] == a + b[..|b| - 1];
      SizeSumAppend(a, b[..|b| - 1]);
    } else {
      assert a + b == a;
    }
  }

  lemma SizeSumCons(l: Layout, ls: seq<Layout>)
    ensures SizeSum([l] + ls) == l.size + SizeSum(ls)
  {
    SizeSumAppend([l], ls);
    assert [l][..0] == [];
  }

  /** No single size exceeds the sum. */
  lemma {:induction false} SizeSumBounds(ls: seq<Layout>, k: nat)
    requires k < |ls|
    ensures SizeSum(ls[..k]) + ls[k].size <= SizeSum(ls)
    decreases |ls|
  {
    if k < |ls| - 1 {
      assert ls[..|ls| - 1][..k] == ls[..k];
      SizeSumBounds(ls[..|ls| - 1], k);
    } else {
      assert ls[..|ls| - 1] == ls[..k];
    }
  }

  /** Sums of prefixes grow with the prefix. */
  lemma {:induction false} SizeSumPrefixMono(ls: seq<Layout>, i: nat, j: nat)
    requires i <= j <= |ls|
    ensures SizeSum(ls[..i]) <= SizeSum(ls[..j])
    decreases j - i
  {
    if i < j {
      SizeSumPrefixMono(ls, i, j - 1);
      assert ls[..j][..j - 1] == ls[..j - 1];
    }
  }

  /** A sum of sizes that are all multiples of `d` is a multiple of `d`. */
  lemma {:induction false} SizeSumDivisible(ls: seq<Layout>, d: nat)
    requires d > 0
    requires forall j :: 0 <= j < |ls| ==> ls[j].size % d == 0
    ensures SizeSum(ls) % d == 0
    decreases |ls|
  {
    if ls != [] {
      SizeSumDivisible(ls[..|ls| - 1], d);
      DividesSum(d, SizeSum(ls[..|ls| - 1]), ls[|ls| - 1].size);
    }
  }

  /** The running maximum is at least 1 and every alignment, and it is 1 or
      one of the alignments. */
  lemma {:induction false} AlignMaxIsMax(ls: seq<Layout>)
    ensures AlignMax(ls) >= 1
    ensures forall j :: 0 <= j < |ls| ==> ls[j].align <= AlignMax(ls)
    ensures AlignMax(ls) == 1 || exists j :: 0 <= j < |ls| && ls[j].align == AlignMax(ls)
    decreases |ls|
  {
    if ls != [] {
      var p := ls[..|ls| - 1];
      AlignMaxIsMax(p);
      forall j | 0 <= j < |ls| - 1 ensures ls[j].align <= AlignMax(ls) {
        assert ls[j] == p[j];
      }
      if AlignMax(ls) != 1 && AlignMax(ls) != ls[|ls| - 1].align {
        var j :| 0 <= j < |p| && p[j].align == AlignMax(p);
        assert ls[j] == p[j];
      }
    }
  }

  /** The maximum of power-of-two alignments is a power of two. */
  lemma AlignMaxPow2(ls: seq<Layout>)
    requires forall j :: 0 <= j < |ls| ==> IsPow2(ls[j].align)
    ensures IsPow2(AlignMax(ls))
  {
    AlignMaxIsMax(ls);
    if AlignMax(ls) != 1 {
      var j :| 0 <= j < |ls| && ls[j].align == AlignMax(ls);
    }
  }
}
