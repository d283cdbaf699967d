/** Concrete runs of the simulator, derived from the contracts alone: what
    the Clock policy makes of a few small traces. */
module Scenarios {
  import opened Bits
  import opened Address
  import opened Tables
  import opened Statistics
  import opened Wrappers
  import opened Simulator

  /** A 4-byte page has 2 offset bits. */
  lemma FourBytePages(bits: nat)
    requires Pow2(bits) == 4
    ensures bits == 2
  {
    assert Pow2(2) == 4 && Pow2(3) == 8;
    FloorLog2Unique(4, bits, 2);
  }

  /** The first two references of the two-frame trace below: pages 0 and 1
      fault into the free frames 0 and 1. */
  method FillTwoFrames() returns (sim: Simulator, hits: seq<bool>)
    ensures fresh(sim) && fresh(sim.pageTable) && fresh(sim.frames)
    ensures sim.Valid() && sim.numFrames == 2 && sim.pageBits == 2
    ensures hits == [false, false]
    ensures sim.frames[..] == [0, 1] && sim.clockHand == 0
    ensures sim.pageTable[0] == Entry(true, 0, true) && sim.pageTable[1] == Entry(true, 1, true)
    ensures sim.references == 2 && sim.faults == 2
  {
    sim := new Simulator(2, 4);
    Pow2IsPowerOfTwo(2);
    FourBytePages(sim.pageBits);
    assert PageNumber(0, 2) == 0 && PageNumber(4, 2) == 1;
    assert sim.frames[..] == [Free, Free] && !sim.pageTable[0].valid;
    assert sim.frames[..1][0] == Free;
    var h0, f0, a0, n0, t0 := sim.ProcessAddress(0);
    assert f0 == 0 && sim.frames[..] == [0, Free];
    assert Free in sim.frames[..] && Free !in sim.frames[..1] && !sim.pageTable[1].valid;
    var h1, f1, a1, n1, t1 := sim.ProcessAddress(4);
    hits := [h0, h1];
  }

  /** On two frames whose pages both have their reference bit set, with the
      hand at frame 0, a reference to a third page makes the hand go all
      the way round, clearing both bits, and evict the page of frame 0. */
  method FullTurn(sim: Simulator, vaddr: uint64) returns (hit: bool)
    requires sim.Valid() && sim.numFrames == 2 && sim.clockHand == 0
    requires |sim.frames[..]| == 2 && sim.frames[0] != Free && sim.frames[1] != Free
    requires sim.pageTable[sim.frames[0]].refBit && sim.pageTable[sim.frames[1]].refBit
    requires PageNumber(vaddr, sim.pageBits) < MaxPages
    requires PageNumber(vaddr, sim.pageBits) != sim.frames[0] && PageNumber(vaddr, sim.pageBits) != sim.frames[1]
    modifies sim`clockHand, sim`references, sim`faults, sim.pageTable, sim.frames
    ensures sim.Valid() && sim.clockHand == 1 && !hit
    ensures sim.frames[..] == [PageNumber(vaddr, sim.pageBits), old(sim.frames[1])]
    ensures sim.pageTable[sim.frames[0]].refBit && !sim.pageTable[sim.frames[1]].refBit
    ensures sim.references == old(sim.references) + 1 && sim.faults == old(sim.faults) + 1
  {
    ghost var pt0, fr0 := sim.pageTable[..], sim.frames[..];
    assert Free !in fr0;
    assert pt0[fr0[0]].refBit && pt0[fr0[1]].refBit;
    var frame, paddr;
    ghost var passed, scanned;
    hit, frame, paddr, passed, scanned := sim.ProcessAddress(vaddr);
    assert Dist(0, 0, 2) == 0 && Dist(0, 1, 2) == 1;
    assert passed == 2 && frame == 0;
    assert scanned[fr0[1]] == SweptEntry(pt0[fr0[1]], 0, 2, 2);
  }

  /** On two frames, with the hand at frame 1 and the page there without its
      reference bit, a reference to a page not resident evicts that page
      at once; the page in frame 0 keeps its bit. */
  method SecondChanceSpent(sim: Simulator, vaddr: uint64) returns (hit: bool)
    requires sim.Valid() && sim.numFrames == 2 && sim.clockHand == 1
    requires |sim.frames[..]| == 2 && sim.frames[0] != Free && sim.frames[1] != Free
    requires sim.pageTable[sim.frames[0]].refBit && !sim.pageTable[sim.frames[1]].refBit
    requires PageNumber(vaddr, sim.pageBits) < MaxPages
    requires PageNumber(vaddr, sim.pageBits) != sim.frames[0] && PageNumber(vaddr, sim.pageBits) != sim.frames[1]
    modifies sim`clockHand, sim`references, sim`faults, sim.pageTable, sim.frames
    ensures sim.Valid() && sim.clockHand == 0 && !hit
    ensures sim.frames[..] == [old(sim.frames[0]), PageNumber(vaddr, sim.pageBits)]
    ensures sim.pageTable[sim.frames[0]].refBit && sim.pageTable[sim.frames[1]].refBit
    ensures sim.references == old(sim.references) + 1 && sim.faults == old(sim.faults) + 1
  {
    ghost var pt0, fr0 := sim.pageTable[..], sim.frames[..];
    assert Free !in fr0;
    assert !pt0[fr0[1]].refBit;
    var frame, paddr;
    ghost var passed, scanned;
    hit, frame, paddr, passed, scanned := sim.ProcessAddress(vaddr);
    assert Dist(1, 1, 2) == 0;
    assert passed == 0 && frame == 1;
    assert scanned[fr0[0]] == pt0[fr0[0]];
  }

  /** Two frames, 4-byte pages, the addresses 0, 4, 8, 0, 12 (pages 0, 1, 2,
      0, 3). Pages 0 and 1 fill the free frames; page 2 finds both reference
      bits set, so the hand clears both, comes round to frame 0 and evicts
      page 0; page 0 then evicts page 1, whose bit was cleared; page 3 again
      finds both bits set and evicts page 2 from frame 0. Every reference
      faults. */
  method TwoFrameTrace() returns (hits: seq<bool>, resident: seq<int>, references: nat, faults: nat)
    ensures hits == [false, false, false, false, false]
    ensures resident == [3, 0]
    ensures references == 5 && faults == 5
  {
    var sim, first := FillTwoFrames();
    assert PageNumber(8, 2) == 2 && PageNumber(0, 2) == 0 && PageNumber(12, 2) == 3;
    var h2 := FullTurn(sim, 8);
    var h3 := SecondChanceSpent(sim, 0);
    var h4 := FullTurn(sim, 12);
    hits := first + [h2, h3, h4];
    resident := sim.frames[..];
    references, faults := sim.references, sim.faults;
  }

  /** One frame, 4-byte pages, a trace alternating between pages 0 and 1
      `rounds` times: each reference evicts the page the previous one
      loaded, so every reference faults and the fault rate is 100%. */
  method AlternatingTrace(rounds: nat) returns (references: nat, faults: nat, rate: Option<real>)
    ensures references == faults == 2 * rounds
    ensures rounds > 0 ==> rate == Some(100.0)
  {
    var sim := new Simulator(1, 4);
    Pow2IsPowerOfTwo(2);
    FourBytePages(sim.pageBits);
    assert PageNumber(0, 2) == 0 && PageNumber(4, 2) == 1;
    for i := 0 to rounds
      invariant sim.Valid() && sim.numFrames == 1 && sim.pageBits == 2
      invariant sim.references == sim.faults == 2 * i
      invariant !sim.pageTable[0].valid
    {
      var hit0, f0, a0, n0, t0 := sim.ProcessAddress(0);
      var hit1, f1, a1, n1, t1 := sim.ProcessAddress(4);
    }
    references, faults := sim.references, sim.faults;
    rate := FaultRate(references, faults);
  }

  /** Any number of frames, 4-byte pages, a trace that references page 0
      `rounds` times. `sim_init` leaves every page invalid, so the first
      reference faults; every later one hits. The fault rate is therefore
      `100 / rounds` percent, never 0. */
  method SinglePageTrace(numFrames: int, rounds: nat) returns (references: nat, faults: nat, rate: Option<real>)
    requires 0 < numFrames < Two31
    ensures references == rounds
    ensures faults == if rounds == 0 then 0 else 1
    ensures rounds > 0 ==> rate == Some(100.0 / rounds as real)
  {
    var sim := new Simulator(numFrames, 4);
    Pow2IsPowerOfTwo(2);
    FourBytePages(sim.pageBits);
    assert PageNumber(0, 2) == 0;
    for i := 0 to rounds
      invariant sim.Valid() && sim.pageBits == 2
      invariant sim.references == i
      invariant sim.faults == if i == 0 then 0 else 1
      invariant sim.pageTable[0].valid <==> i > 0
    {
      var hit, frame, paddr, passed, scanned := sim.ProcessAddress(0);
      assert sim.pageTable[..][0] == Entry(true, frame, true);
    }
    references, faults := sim.references, sim.faults;
    rate := FaultRate(references, faults);
    if rounds > 0 {
      assert 1 as real / rounds as real * 100.0 == 100.0 / rounds as real;
    }
  }
}
