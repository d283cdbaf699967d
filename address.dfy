/** Address decomposition and translation of sim.c (`process_address`):
    the offset is `vaddr & mask`, the virtual page number `vaddr >> page_bits`,
    and the physical address `((uint64_t)marco << page_bits) | offset`. */
module Address {
  import opened Bits

  /** `vaddr >> page_bits` */
  function PageNumber(vaddr: nat, pageBits: nat): (r: nat) {
    Shr(vaddr, pageBits)
  }

  /** `vaddr & mask`, with `mask == 2^page_bits - 1` */
  function Offset(vaddr: nat, pageBits: nat): (r: nat) {
    BitAnd(vaddr, Mask(pageBits))
  }

  /** `((uint64_t)frame << page_bits) | offset` */
  function Translate(frame: nat, vaddr: nat, pageBits: nat): (r: nat) {
    BitOr(Shl(frame, pageBits), Offset(vaddr, pageBits))
  }

  lemma MaskStep(b: nat)
    requires b > 0
    ensures Mask(b) == 2 * Mask(b - 1) + 1
  {
  }

  /** Masking with `2^b - 1` keeps the lowest bit and masks the rest with `2^(b-1) - 1`. */
  lemma AndMaskStep(v: nat, b: nat)
    requires b > 0
    ensures BitAnd(v, Mask(b)) == 2 * BitAnd(v / 2, Mask(b - 1)) + v % 2
  {
    var m := Mask(b);
    MaskStep(b);
    assert m % 2 == 1 && m / 2 == Mask(b - 1);
    if v != 0 {
      assert BitAnd(v, m) == 2 * BitAnd(v / 2, m / 2) + (if v % 2 == 1 then 1 else 0);
    }
  }

  /** Or-ing an even number with another number splits into the upper bits
      and the other number's lowest bit. */
  lemma OrStep(x: nat, y: nat, r: nat)
    requires r < 2
    ensures BitOr(2 * x, 2 * y + r) == 2 * BitOr(x, y) + r
  {
  }

  /** Translation, one bit at a time: the lowest bit comes from the virtual
      address, the rest is the translation of the upper bits. */
  lemma TranslateStep(frame: nat, vaddr: nat, b: nat)
    requires b > 0
    ensures Translate(frame, vaddr, b) == 2 * Translate(frame, vaddr / 2, b - 1) + vaddr % 2
  {
    AndMaskStep(vaddr, b);
    OrStep(Shl(frame, b - 1), Offset(vaddr / 2, b - 1), vaddr % 2);
  }

  /** Translation keeps the offset bits of the virtual address and puts the
      frame number in the page-number bits:
      `paddr & mask == vaddr & mask` and `paddr >> page_bits == frame`. */
  lemma {:induction false} TranslatePreservesOffset(frame: nat, vaddr: nat, b: nat)
    ensures Offset(Translate(frame, vaddr, b), b) == Offset(vaddr, b)
    ensures PageNumber(Translate(frame, vaddr, b), b) == frame
  {
    if b > 0 {
      TranslatePreservesOffset(frame, vaddr / 2, b - 1);
      var t := Translate(frame, vaddr, b);
      TranslateStep(frame, vaddr, b);
      AndMaskStep(t, b);
      AndMaskStep(vaddr, b);
      assert t / 2 == Translate(frame, vaddr / 2, b - 1);
    }
  }

  /** Decomposing an address and translating it with its own page number gives
      the address back: page number and offset together lose nothing. */
  lemma {:induction false} DecomposeRecompose(vaddr: nat, b: nat)
    ensures Translate(PageNumber(vaddr, b), vaddr, b) == vaddr
  {
    if b > 0 {
      DecomposeRecompose(vaddr / 2, b - 1);
      TranslateStep(PageNumber(vaddr, b), vaddr, b);
    }
  }

  /** The offset is below the page size `2^b`. */
  lemma {:induction false} OffsetBelowPageSize(vaddr: nat, b: nat)
    ensures Offset(vaddr, b) < Pow2(b)
  {
    if b > 0 {
      OffsetBelowPageSize(vaddr / 2, b - 1);
      AndMaskStep(vaddr, b);
    }
  }

  /** The physical address lies in the frame's page: below `(frame + 1) << b`. */
  lemma {:induction false} TranslateBelowNextFrame(frame: nat, vaddr: nat, b: nat)
    ensures Translate(frame, vaddr, b) < Shl(frame + 1, b)
  {
    if b > 0 {
      TranslateBelowNextFrame(frame, vaddr / 2, b - 1);
      TranslateStep(frame, vaddr, b);
    }
  }

  lemma {:induction false} ShlMonotone(a: nat, k: nat, a': nat, k': nat)
    requires a <= a' && k <= k'
    ensures Shl(a, k) <= Shl(a', k')
  {
    if k' > k {
      ShlMonotone(a, k, a', k' - 1);
    } else if k > 0 {
      ShlMonotone(a, k - 1, a', k' - 1);
    }
  }

  /** With a frame number that fits a C `int` and at most 30 offset bits (the
      most `log2_int` returns for an `int` page size), the shift in the
      physical-address formula never overflows 64 bits. */
  lemma PhysicalAddressFits(frame: nat, vaddr: nat, b: nat)
    requires frame < Two31 && b <= 30
    ensures Translate(frame, vaddr, b) < Two64
  {
    TranslateBelowNextFrame(frame, vaddr, b);
    ShlMonotone(frame + 1, b, Two31, 30);
    assert Pow2(10) == 1024;
    Pow2Add(10, 10);
    Pow2Add(20, 10);
    ShlIsProduct(Two31, 30);
  }
}
