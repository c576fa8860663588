/**
 The arithmetic of one allocation: how many bytes a layout takes together with the info header in
 front of it, and where in a free block the pointer goes.
 */
module HeapLayout {
  import opened Arithmetic
  import opened HeapTiles

  /** Size and alignment of a request; alignments are powers of two. */
  datatype Layout = Layout(size: nat, align: nat)

  const INFO_SIZE: nat := 32
  const INFO_ALIGN: nat := 16

  predicate PowerOfTwo(a: nat) {
    a == 1 || (a > 1 && a % 2 == 0 && PowerOfTwo(a / 2))
  }

  /** Of two powers of two the smaller divides the larger. */
  lemma {:induction false} PowersDivide(a: nat, b: nat)
    requires PowerOfTwo(a) && PowerOfTwo(b) && a <= b
    ensures b % a == 0
  {
    if a > 1 {
      PowersDivide(a / 2, b / 2);
      var k := (b / 2) / (a / 2);
      DivBounds(b / 2, a / 2);
      assert b == k * a + 0 by {
        assert b / 2 == k * (a / 2);
        assert k * (a / 2) * 2 == k * (a / 2 * 2);
      }
      DivModOfSum(k, a, 0);
    }
  }

  function AlignUp(x: nat, a: nat): int
    requires a > 0
  {
    (x + a - 1) / a * a
  }

  lemma AlignUpBounds(x: nat, a: nat)
    requires a > 0
    ensures x <= AlignUp(x, a) < x + a && AlignUp(x, a) % a == 0
  {
    DivBounds(x + a - 1, a);
    var q := (x + a - 1) / a;
    assert (q + 1) * a == q * a + a;
    DivModOfSum(q, a, 0);
  }

  lemma AlignedAlready(x: nat, a: nat)
    requires a > 0 && x % a == 0
    ensures AlignUp(x, a) == x
  {
    DivBounds(x, a);
    assert (x / a + 1) * a == x / a * a + a;
    DivUnique(x + a - 1, a, x / a);
  }

  /** Multiples of a multiple of 16 are multiples of 16. */
  lemma MultipleOfGrain(x: nat, a: nat)
    requires a > 0 && a % GRAIN == 0 && x % a == 0
    ensures x % GRAIN == 0
  {
    DivBounds(x, a);
    var (q, k) := (x / a, a / GRAIN);
    assert x == q * (k * GRAIN) == (q * k) * GRAIN;
  }

  lemma ModSum(x: nat, y: nat, a: nat)
    requires a > 0 && x % a == 0 && y % a == 0
    ensures (x + y) % a == 0
    ensures x >= y ==> (x - y) % a == 0
  {
    DivBounds(x, a);
    DivBounds(y, a);
    var (p, q) := (x / a, y / a);
    assert x + y == (p + q) * a + 0;
    DivModOfSum(p + q, a, 0);
    assert x - y == (p - q) * a + 0;
    DivModOfSum(p - q, a, 0);
  }

  // ---------------------------------------------------------------------------
  // What `alloc` computes

  /** The alignment of header and request together. */
  function WholeAlign(l: Layout): nat {
    if l.align < INFO_ALIGN then INFO_ALIGN else l.align
  }

  /** `Layout::extend`: where the request goes after a header at an aligned address. */
  function OffsetFromHeader(l: Layout): int {
    AlignUp(INFO_SIZE, WholeAlign(l))
  }

  /** The size asked of the free list. */
  function RequestSize(l: Layout): int
    requires OffsetFromHeader(l) >= 0
  {
    AlignUp(OffsetFromHeader(l) + l.size, WholeAlign(l))
  }

  /** Where the pointer goes in a block at `base`. */
  function PointerOffset(base: nat, l: Layout): int
    requires l.align > 0
  {
    var next := AlignUp(base, l.align) - base;
    if next < INFO_SIZE then next + (if l.align < INFO_SIZE then INFO_SIZE else l.align) else next
  }

  /** The size taken from a block at `base`. */
  function SizeAt(base: nat, l: Layout): int
    requires l.align > 0 && OffsetFromHeader(l) >= 0
  {
    var (offset, expected) := (PointerOffset(base, l), OffsetFromHeader(l));
    RequestSize(l) + if offset > expected then offset - expected else 0
  }

  lemma WholeAlignOk(l: Layout)
    requires PowerOfTwo(l.align)
    ensures PowerOfTwo(WholeAlign(l)) && WholeAlign(l) >= INFO_ALIGN && WholeAlign(l) % GRAIN == 0
  {
    assert PowerOfTwo(16) by {
      assert PowerOfTwo(2) && PowerOfTwo(4) && PowerOfTwo(8);
    }
    PowersDivide(16, WholeAlign(l));
  }

  lemma RequestOk(l: Layout)
    requires PowerOfTwo(l.align)
    ensures INFO_SIZE <= OffsetFromHeader(l) && OffsetFromHeader(l) % GRAIN == 0
    ensures RequestSize(l) >= OffsetFromHeader(l) + l.size && RequestSize(l) % GRAIN == 0
    ensures l.align <= INFO_ALIGN ==> OffsetFromHeader(l) == INFO_SIZE
  {
    WholeAlignOk(l);
    AlignUpBounds(INFO_SIZE, WholeAlign(l));
    MultipleOfGrain(OffsetFromHeader(l), WholeAlign(l));
    AlignUpBounds(OffsetFromHeader(l) + l.size, WholeAlign(l));
    MultipleOfGrain(RequestSize(l), WholeAlign(l));
  }

  lemma SmallPowers(a: nat)
    requires PowerOfTwo(a)
    ensures a < 16 ==> a == 1 || a == 2 || a == 4 || a == 8
    ensures a >= 16 ==> a % 16 == 0
    ensures a < 32 ==> a <= 16
    ensures a >= 32 ==> a % 32 == 0
  {
    assert PowerOfTwo(16) && PowerOfTwo(32) by {
      assert PowerOfTwo(2) && PowerOfTwo(4) && PowerOfTwo(8) && PowerOfTwo(16);
    }
    if a >= 16 {
      PowersDivide(16, a);
    }
    if a >= 32 {
      PowersDivide(32, a);
    }
  }

  /** The pointer is aligned, leaves room for the header, and stays on the grain. */
  lemma PointerOk(base: nat, l: Layout)
    requires PowerOfTwo(l.align) && base % GRAIN == 0
    ensures PointerOffset(base, l) >= INFO_SIZE && PointerOffset(base, l) % GRAIN == 0
    ensures (base + PointerOffset(base, l)) % l.align == 0
    ensures PointerOffset(base, l) < 32 + l.align
    ensures l.align <= INFO_ALIGN ==> PointerOffset(base, l) == INFO_SIZE
  {
    hide AlignUp;
    SmallPowers(l.align);
    if l.align <= 16 {
      GrainMultiple(base, l.align);
      AlignedAlready(base, l.align);
      GrainMultiple(base + 32, l.align);
    } else {
      LargePointer(base, l);
    }
  }

  lemma GrainMultiple(x: nat, a: nat)
    requires x % GRAIN == 0 && (a == 1 || a == 2 || a == 4 || a == 8 || a == 16)
    ensures x % a == 0
  {
    var k := x / GRAIN;
    DivModOfSum(8 * k, 2, 0);
    DivModOfSum(4 * k, 4, 0);
    DivModOfSum(2 * k, 8, 0);
    DivModOfSum(k, 16, 0);
  }

  lemma LargePointer(base: nat, l: Layout)
    requires l.align >= 32 && l.align % GRAIN == 0 && base % GRAIN == 0
    ensures PointerOffset(base, l) >= INFO_SIZE && PointerOffset(base, l) % GRAIN == 0
    ensures (base + PointerOffset(base, l)) % l.align == 0
    ensures PointerOffset(base, l) < 32 + l.align
  {
    hide AlignUp;
    var up := AlignUp(base, l.align);
    AlignUpBounds(base, l.align);
    MultipleOfGrain(up, l.align);
    ModSum(up, base, GRAIN);
    ModSelf(l.align);
    ModSum(up, l.align, l.align);
    ModSum(up - base, l.align, GRAIN);
    if up - base < INFO_SIZE {
      assert base + PointerOffset(base, l) == up + l.align;
    } else {
      assert base + PointerOffset(base, l) == up;
    }
  }

  lemma ModSelf(a: nat)
    requires a > 0
    ensures a % a == 0
  {
    DivModOfSum(1, a, 0);
  }

  /** What is taken holds the header and the request, and is what was asked for when small alignments are. */
  lemma SizeOk(base: nat, l: Layout)
    requires PowerOfTwo(l.align) && base % GRAIN == 0 && OffsetFromHeader(l) >= 0
    ensures SizeAt(base, l) % GRAIN == 0 && SizeAt(base, l) >= RequestSize(l) && SizeAt(base, l) >= MIN_BLOCK
    ensures PointerOffset(base, l) + l.size <= SizeAt(base, l)
    ensures l.align <= INFO_ALIGN ==> SizeAt(base, l) == RequestSize(l)
  {
    hide AlignUp, RequestSize, PointerOffset, OffsetFromHeader;
    RequestOk(l);
    PointerOk(base, l);
    if PointerOffset(base, l) > OffsetFromHeader(l) {
      ModSum(PointerOffset(base, l), OffsetFromHeader(l), GRAIN);
      ModSum(RequestSize(l), PointerOffset(base, l) - OffsetFromHeader(l), GRAIN);
    }
  }

  /** How much is asked for: header and request, rounded up to 16 bytes or to a larger alignment. */
  lemma RequestExact(l: Layout)
    requires PowerOfTwo(l.align)
    ensures l.align <= 16 ==> Request(l) % 16 == 0 && 32 + l.size <= Request(l) < 32 + l.size + 16
    ensures l.align > 16 ==> Request(l) % l.align == 0 && l.align + l.size <= Request(l) < l.align + l.size + l.align
  {
    SmallPowers(l.align);
    RequestOk(l);
    var a := WholeAlign(l);
    AlignUpBounds(OffsetFromHeader(l) + l.size, a);
    if l.align > 16 {
      DivUnique(INFO_SIZE + a - 1, a, 1);
    }
    hide AlignUp;
  }

  /** How much is taken at an address: what was asked for, and what the pointer is further in than was counted on. */
  lemma SizeExact(base: nat, l: Layout)
    requires PowerOfTwo(l.align) && base % GRAIN == 0
    ensures var (offset, expected) := (PointerOffset(base, l), if l.align <= 16 then 32 else l.align);
      SizeFor(base, l) == Request(l) + if offset > expected then offset - expected else 0
  {
    SmallPowers(l.align);
    RequestOk(l);
    if l.align > 16 {
      DivUnique(INFO_SIZE + l.align - 1, l.align, 1);
    }
    hide AlignUp, PointerOffset;
  }

  /** What is asked of the free list for a layout. */
  function Request(l: Layout): (n: nat)
    requires PowerOfTwo(l.align)
    ensures n >= MIN_BLOCK
  {
    RequestOk(l);
    RequestSize(l)
  }

  /** What a layout takes from a block at `addr`. */
  function SizeFor(addr: nat, l: Layout): int
    requires PowerOfTwo(l.align)
  {
    RequestOk(l);
    SizeAt(addr, l)
  }
}
