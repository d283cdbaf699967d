/** The simulator of sim.c (`simulator_t` and the functions that update it):
    a page table indexed by virtual page number, a frame table mapping each
    physical frame to the page it holds (or `Free`), the Clock hand, and the
    reference and fault counters. */
module Simulator {
  import opened Bits
  import opened Address
  import opened Tables
  import opened Wrappers
  import opened Trace

  class Simulator {
    /** `num_marcos` */
    const numFrames: int
    /** `page_size` */
    const pageSize: int
    /** `page_bits = log2_int(page_size)` */
    const pageBits: nat
    /** `mask = (1ULL << page_bits) - 1` */
    const mask: nat
    /** `page_table`, `MAX_PAGES` entries */
    const pageTable: array<Entry>
    /** `marcos`: frame -> virtual page number, `Free` (-1) when free */
    const frames: array<int>
    /** `clock_hand` */
    var clockHand: int
    /** `referencias` */
    var references: nat
    /** `fallos` */
    var faults: nat

    /** The simulator's invariant: table sizes, the hand on the dial, no more
        faults than references, and page table and frame table in agreement. */
    ghost predicate Valid()
      reads this, pageTable, frames
    {
      && 0 < numFrames < Two31
      && 0 < pageSize < Two31
      && Pow2(pageBits) <= pageSize < Pow2(pageBits + 1)
      && pageBits <= 30
      && mask == Mask(pageBits)
      && pageTable.Length == MaxPages
      && frames.Length == numFrames
      && 0 <= clockHand < numFrames
      && faults <= references
      && Consistent(pageTable[..], frames[..])
    }

    /** `sim_init`: every page absent, every frame free, hand and counters at 0. */
    constructor (numFrames: int, pageSize: int)
      requires 0 < numFrames < Two31 && 0 < pageSize < Two31
      ensures Valid() && fresh(pageTable) && fresh(frames)
      ensures this.numFrames == numFrames && this.pageSize == pageSize
      ensures IsPowerOfTwo(pageSize) ==> Pow2(pageBits) == pageSize
      ensures clockHand == 0 && references == 0 && faults == 0
      ensures forall p :: 0 <= p < MaxPages ==> pageTable[p] == Unmapped
      ensures forall f :: 0 <= f < numFrames ==> frames[f] == Free
    {
      this.numFrames := numFrames;
      this.pageSize := pageSize;
      var bits := Log2Int(pageSize);
      PageBitsFitInt(pageSize, bits);
      pageBits := bits;
      ShlOneIsPow2(bits);
      mask := Shl(1, bits) - 1;
      clockHand := 0;
      references := 0;
      faults := 0;
      pageTable := new Entry[MaxPages](_ => Unmapped);
      var fr := new int[numFrames];
      for i := 0 to numFrames
        modifies fr
        invariant forall k :: 0 <= k < i ==> fr[k] == Free
      {
        fr[i] := Free;
      }
      frames := fr;
    }

    /** `find_free_frame`: the lowest free frame, or `Free` (-1) when every
        frame is occupied. Changes nothing. */
    method FindFreeFrame() returns (f: int)
      requires frames.Length == numFrames
      ensures f == Free || 0 <= f < numFrames
      ensures f == Free <==> forall i :: 0 <= i < numFrames ==> frames[i] != Free
      ensures f != Free ==> frames[f] == Free && forall i :: 0 <= i < f ==> frames[i] != Free
    {
      for i := 0 to numFrames
        invariant forall k :: 0 <= k < i ==> frames[k] != Free
      {
        if frames[i] == Free {
          return i;
        }
      }
      return Free;
    }

    /** `clock_evict`: the second-chance scan. From the hand on, a free frame
        or a frame whose page has a clear reference bit is the victim; a page
        whose bit is set loses it and the hand moves on. The ghost result
        `passed` counts the frames passed over; it never exceeds the number of
        frames, so the scan inspects at most `numFrames + 1` frames. */
    method ClockEvict() returns (victim: int, ghost passed: nat)
      requires Valid()
      modifies this`clockHand, pageTable
      ensures Valid()
      ensures 0 <= victim < numFrames && clockHand == (victim + 1) % numFrames
      ensures ScanResult(old(pageTable[..]), pageTable[..], frames[..], old(clockHand), victim, passed)
    {
      ghost var h0 := clockHand;
      ghost var pt0, fr := pageTable[..], frames[..];
      passed := 0;
      // `pt` is the page table as the scan has left it
      ghost var pt := pt0;
      while true
        invariant pageTable[..] == pt && frames[..] == fr
        invariant 0 <= clockHand < numFrames && Consistent(pt, fr)
        invariant Sweeping(pt0, pt, fr, h0, clockHand, passed)
        decreases numFrames - passed
      {
        var npv := frames[clockHand];
        // a free frame, or a page without a second chance, is the victim
        if npv == Free || !pageTable[npv].refBit {
          break;
        }
        pageTable[npv] := pageTable[npv].(refBit := false);
        ghost var hand := clockHand;
        clockHand := (clockHand + 1) % numFrames;
        SweepStep(pt0, pt, pageTable[..], fr, h0, hand, clockHand, passed);
        pt := pageTable[..];
        passed := passed + 1;
      }
      ScanStops(pt0, pt, fr, h0, clockHand, passed);
      victim := clockHand;
      clockHand := (clockHand + 1) % numFrames;
    }

    /** `process_address` without its printing: one reference to `vaddr`.
        Returns whether it hit, the frame that now holds the page, and the
        physical address. When the reference made the Clock hand scan, the
        ghost results are the number of frames it passed over and the page
        table as the scan left it, before the victim was replaced. */
    method ProcessAddress(vaddr: uint64) returns (hit: bool, frame: int, paddr: uint64, ghost passed: nat, ghost scanned: seq<Entry>)
      requires Valid()
      requires PageNumber(vaddr, pageBits) < MaxPages
      modifies this`clockHand, this`references, this`faults, pageTable, frames
      ensures Valid()
      ensures references == old(references) + 1
      ensures hit == old(pageTable[PageNumber(vaddr, pageBits)].valid)
      ensures faults == if hit then old(faults) else old(faults) + 1
      // the translation: the page's frame in the high bits, the offset kept
      ensures 0 <= frame < numFrames
      ensures paddr == Translate(frame, vaddr, pageBits)
      ensures Offset(paddr, pageBits) == Offset(vaddr, pageBits) && PageNumber(paddr, pageBits) == frame
      // afterwards the page is resident in `frame`, with its reference bit set
      ensures frames[..] == old(frames[..])[frame := PageNumber(vaddr, pageBits)]
      // a hit changes nothing but the page's reference bit
      ensures hit ==>
                && frame == old(pageTable[PageNumber(vaddr, pageBits)].frame)
                && clockHand == old(clockHand)
                && pageTable[..] == old(pageTable[..])[PageNumber(vaddr, pageBits) := Entry(true, frame, true)]
      // a fault takes the lowest free frame when there is one ...
      ensures !hit && Free in old(frames[..]) ==>
                && old(frames[frame]) == Free && Free !in old(frames[..frame])
                && clockHand == old(clockHand)
                && pageTable[..] == old(pageTable[..])[PageNumber(vaddr, pageBits) := Entry(true, frame, true)]
      // ... and otherwise the Clock victim, whose page is evicted
      ensures !hit && Free !in old(frames[..]) ==>
                && ScanResult(old(pageTable[..]), scanned, old(frames[..]), old(clockHand), frame, passed)
                && clockHand == (frame + 1) % numFrames
                && pageTable[..] == EvictOccupant(scanned, old(frames[..]), frame)[PageNumber(vaddr, pageBits) := Entry(true, frame, true)]
    {
      ghost var pt0, fr0 := pageTable[..], frames[..];
      references := references + 1;
      var offset := BitAnd(vaddr, mask);
      var npv := Shr(vaddr, pageBits);
      passed, scanned := 0, pageTable[..];
      if pageTable[npv].valid {
        hit := true;
        frame := pageTable[npv].frame;
        TouchKeepsConsistent(pageTable[..], frames[..], npv, true);
        pageTable[npv] := pageTable[npv].(refBit := true);
      } else {
        hit := false;
        faults := faults + 1;
        frame := FindFreeFrame();
        if frame == Free {
          assert Free !in fr0;
          frame, passed := ClockEvict();
          scanned := pageTable[..];
          // the page in the victim's frame leaves memory
          var oldNpv := frames[frame];
          if oldNpv != Free {
            pageTable[oldNpv] := pageTable[oldNpv].(valid := false);
          }
        } else {
          assert fr0[frame] == Free && fr0[..frame] == frames[..frame];
        }
        FaultKeepsConsistent(scanned, fr0, npv, frame);
        frames[frame] := npv;
        pageTable[npv] := Entry(true, frame, true);
        assert pageTable[..] == EvictOccupant(scanned, fr0, frame)[npv := Entry(true, frame, true)];
      }
      PhysicalAddressFits(frame, vaddr, pageBits);
      TranslatePreservesOffset(frame, vaddr, pageBits);
      paddr := BitOr(Shl(frame, pageBits), offset);
    }

    /** `process_trace_file` once the file has been read into `lines`: each
        line is classified; a skipped line changes nothing, every other line
        is one reference to the address the caller's conversion (`sscanf`
        with `%llx` or `%llu`) gives its text. */
    method ProcessTrace(lines: seq<string>, parseHex: string -> uint64, parseDec: string -> uint64)
      requires Valid()
      requires forall i :: 0 <= i < |lines| && LineAddress(lines[i], parseHex, parseDec).Some? ==>
                 PageNumber(LineAddress(lines[i], parseHex, parseDec).value, pageBits) < MaxPages
      modifies this`clockHand, this`references, this`faults, pageTable, frames
      ensures Valid()
      ensures references == old(references) + |TraceAddresses(lines, parseHex, parseDec)|
      ensures old(faults) <= faults <= old(faults) + |TraceAddresses(lines, parseHex, parseDec)|
    {
      for i := 0 to |lines|
        invariant Valid()
        invariant references == old(references) + |TraceAddresses(lines[..i], parseHex, parseDec)|
        invariant old(faults) <= faults <= old(faults) + |TraceAddresses(lines[..i], parseHex, parseDec)|
      {
        assert lines[..i + 1][..i] == lines[..i] && lines[..i + 1][i] == lines[i];
        var c := ClassifyLine(lines[i]);
        assert TraceAddresses(lines[..i + 1], parseHex, parseDec) ==
               TraceAddresses(lines[..i], parseHex, parseDec)
               + match LineAddress(lines[i], parseHex, parseDec) case None => [] case Some(a) => [a];
        if !c.Skip? {
          var vaddr := if c.Hex? then parseHex(c.text) else parseDec(c.text);
          var hit, frame, paddr, passed, scanned := ProcessAddress(vaddr);
        }
      }
      assert lines[..|lines|] == lines;
    }
  }

  /** The offset width of a C `int` page size is at most 30 bits. */
  lemma PageBitsFitInt(pageSize: int, bits: nat)
    requires 0 < pageSize < Two31 && Pow2(bits) <= pageSize
    ensures bits <= 30
  {
    Pow2ThirtyOne();
    Pow2Below(bits, 31);
  }
}
