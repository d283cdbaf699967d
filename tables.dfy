/** The page table and the frame table of sim.c as values, with the invariant
    that ties them together (the two tables are a bijection between resident
    pages and occupied frames) and the sweep of the Clock hand. */
module Tables {

  /** `MAX_PAGES`: the number of entries the page table is allocated with. */
  const MaxPages: nat := 1000000

  /** The frame-table value of a free frame. */
  const Free: int := -1

  /** `page_table_entry_t`: `valid`, `marco` and `ref_bit`; the C fields are
      `int`s used as flags, modelled as booleans for `valid` and `ref_bit`. */
  datatype Entry = Entry(valid: bool, frame: int, refBit: bool)

  /** A zero-filled entry, as `calloc` leaves it. */
  const Unmapped: Entry := Entry(false, 0, false)

  /** Every valid page sits in a frame that names it back, and every occupied
      frame names a valid page whose entry names that frame. */
  ghost predicate Consistent(pt: seq<Entry>, fr: seq<int>) {
    && (forall p :: 0 <= p < |pt| && pt[p].valid ==> 0 <= pt[p].frame < |fr| && fr[pt[p].frame] == p)
    && (forall f :: 0 <= f < |fr| && fr[f] != Free ==> 0 <= fr[f] < |pt|)
    && (forall f {:trigger pt[fr[f]]} :: 0 <= f < |fr| && fr[f] != Free ==> pt[fr[f]].valid && pt[fr[f]].frame == f)
  }

  /** The pages resident in memory. */
  ghost function ResidentPages(pt: seq<Entry>): set<int> {
    set p | 0 <= p < |pt| && pt[p].valid
  }

  /** The pages the frame table says occupy some frame. */
  ghost function Occupants(fr: seq<int>): set<int> {
    set f | 0 <= f < |fr| && fr[f] != Free :: fr[f]
  }

  /** The number of steps the Clock hand takes from frame `from` to frame `to`
      on a dial of `n` frames. */
  function Dist(from: int, to: int, n: int): (r: int) {
    if from <= to then to - from else to + n - from
  }

  /** The frame the Clock hand reaches from `hand` after `steps` steps, for
      `steps` of at most one revolution. */
  function Advance(hand: int, steps: int, n: int): (r: int) {
    if hand + steps < n then hand + steps else hand + steps - n
  }

  /** `(hand + 1) % n`, the C hand update, is one more step of `Advance`. */
  lemma AdvanceStep(hand: int, passed: nat, n: nat)
    requires 0 <= hand < n && passed < n
    ensures (Advance(hand, passed, n) + 1) % n == Advance(hand, passed + 1, n)
  {
    var x := Advance(hand, passed, n);
    if x + 1 < n {
      assert (x + 1) % n == x + 1;
    } else {
      assert (x + 1) % n == 0;
    }
  }

  /** The entry after a Clock sweep that started at `hand` and passed over
      `passed` frames: an entry resident in one of those frames has lost its
      reference bit; every other entry is as it was. */
  function SweptEntry(e: Entry, hand: int, passed: nat, n: nat): (r: Entry)
    ensures r.valid == e.valid && r.frame == e.frame
    ensures r.refBit ==> e.refBit
  {
    if e.valid && 0 <= e.frame < n && Dist(hand, e.frame, n) < passed then e.(refBit := false) else e
  }

  /** `pt` is `pt0` after a sweep from `hand` over `passed` frames. */
  ghost predicate SweptFrom(pt0: seq<Entry>, pt: seq<Entry>, hand: int, passed: nat, n: nat) {
    |pt| == |pt0| && forall p :: 0 <= p < |pt| ==> pt[p] == SweptEntry(pt0[p], hand, passed, n)
  }

  /** Every frame among the first `passed` from `hand` held a page whose
      reference bit was set in `pt0`. */
  ghost predicate PassedReferenced(pt0: seq<Entry>, fr: seq<int>, hand: int, passed: nat, n: nat) {
    forall f {:trigger Dist(hand, f, n)} :: 0 <= f < |fr| && Dist(hand, f, n) < passed ==> fr[f] != Free && 0 <= fr[f] < |pt0| && pt0[fr[f]].refBit
  }

  /** The state of a Clock scan that started at `h0` in `pt0` and has passed
      over `passed` frames, at most one revolution: the hand is `passed`
      steps on, and the pages of those frames had their reference bit set
      and have lost it. */
  ghost predicate Sweeping(pt0: seq<Entry>, pt: seq<Entry>, fr: seq<int>, h0: int, hand: int, passed: nat) {
    && 0 <= h0 < |fr| && passed <= |fr|
    && hand == Advance(h0, passed, |fr|)
    && SweptFrom(pt0, pt, h0, passed, |fr|)
    && PassedReferenced(pt0, fr, h0, passed, |fr|)
  }

  /** One step of the Clock hand over a frame whose page has its reference
      bit set: the bit is cleared (`pt'`), the hand moves to the next frame
      (`(hand + 1) % n`), and the sweep covers one frame more. Such a step
      is never the `n`-th: after a full revolution every page has lost its
      bit, the one under the hand included. */
  lemma SweepStep(pt0: seq<Entry>, pt: seq<Entry>, pt': seq<Entry>, fr: seq<int>,
                  h0: int, hand: int, hand': int, passed: nat)
    requires Consistent(pt, fr)
    requires Sweeping(pt0, pt, fr, h0, hand, passed)
    requires fr[hand] != Free && pt[fr[hand]].refBit
    requires pt' == pt[fr[hand] := pt[fr[hand]].(refBit := false)]
    requires hand' == (hand + 1) % |fr|
    ensures passed < |fr|
    ensures Consistent(pt', fr)
    ensures Sweeping(pt0, pt', fr, h0, hand', passed + 1)
  {
    var n := |fr|;
    var q := fr[hand];
    assert pt[q] == SweptEntry(pt0[q], h0, passed, n);
    AdvanceStep(h0, passed, n);
    assert Dist(h0, hand, n) == passed;
    TouchKeepsConsistent(pt, fr, q, false);
    forall p | 0 <= p < |pt'| ensures pt'[p] == SweptEntry(pt0[p], h0, passed + 1, n) {
      if p != q && pt0[p].valid && 0 <= pt0[p].frame < n {
        assert pt0[p].frame != hand;
      }
    }
  }

  /** The outcome of a Clock scan from `h0` in `pt0` that stopped at frame
      `victim` after passing over `passed` frames (at most one revolution):
      the pages of the frames passed over had their reference bit set and
      have lost it, nothing else changed, and the victim is free or its
      page's bit is clear (and was already clear, unless the scan went all
      the way round). */
  ghost predicate ScanResult(pt0: seq<Entry>, pt: seq<Entry>, fr: seq<int>, h0: int, victim: int, passed: nat) {
    && 0 <= h0 < |fr| && passed <= |fr|
    && victim == Advance(h0, passed, |fr|) && 0 <= victim < |fr|
    && PassedReferenced(pt0, fr, h0, passed, |fr|)
    && SweptFrom(pt0, pt, h0, passed, |fr|)
    && (fr[victim] != Free ==> 0 <= fr[victim] < |pt| && !pt[fr[victim]].refBit)
    && (fr[victim] != Free && passed < |fr| ==> !pt0[fr[victim]].refBit)
  }

  /** A scan stops at the first frame that is free or whose page has a clear
      reference bit. Where the sweep has not yet passed, the bits are those
      of `pt0`, so short of a full revolution that bit was clear on entry. */
  lemma ScanStops(pt0: seq<Entry>, pt: seq<Entry>, fr: seq<int>, h0: int, hand: int, passed: nat)
    requires Consistent(pt, fr)
    requires Sweeping(pt0, pt, fr, h0, hand, passed)
    requires 0 <= hand < |fr| && (fr[hand] == Free || !pt[fr[hand]].refBit)
    ensures ScanResult(pt0, pt, fr, h0, hand, passed)
  {
    if passed < |fr| {
      assert Dist(h0, hand, |fr|) == passed;
    }
  }

  /** The page-table update of a fault that takes frame `f`: the page `f`
      held, if any, becomes invalid. */
  function EvictOccupant(pt: seq<Entry>, fr: seq<int>, f: int): (r: seq<Entry>)
    requires 0 <= f < |fr|
    requires fr[f] != Free ==> 0 <= fr[f] < |pt|
    ensures |r| == |pt|
  {
    if fr[f] == Free then pt else pt[fr[f] := pt[fr[f]].(valid := false)]
  }

  /** The frame table names at most one page per frame. */
  lemma {:induction false} OccupantsBounded(fr: seq<int>)
    ensures |Occupants(fr)| <= |fr|
  {
    if fr != [] {
      var k := |fr| - 1;
      OccupantsBounded(fr[..k]);
      var last := if fr[k] != Free then {fr[k]} else {};
      assert Occupants(fr) == Occupants(fr[..k]) + last by {
        forall x | x in Occupants(fr) ensures x in Occupants(fr[..k]) + last {
          var f :| 0 <= f < |fr| && fr[f] != Free && fr[f] == x;
          if f < k {
            assert fr[..k][f] == x;
          }
        }
        forall x | x in Occupants(fr[..k]) ensures x in Occupants(fr) {
          var f :| 0 <= f < k && fr[..k][f] != Free && fr[..k][f] == x;
          assert fr[f] == x;
        }
      }
    }
  }

  /** In consistent tables the resident pages are exactly the occupants of the
      frame table, so there are never more resident pages than frames. */
  lemma ResidentPagesAreOccupants(pt: seq<Entry>, fr: seq<int>)
    requires Consistent(pt, fr)
    ensures ResidentPages(pt) == Occupants(fr)
    ensures |ResidentPages(pt)| <= |fr|
  {
    assert ResidentPages(pt) <= Occupants(fr) by {
      forall p | p in ResidentPages(pt) ensures p in Occupants(fr) {
        assert fr[pt[p].frame] == p;
      }
    }
    OccupantsBounded(fr);
  }

  /** Setting or clearing a reference bit keeps the tables consistent. */
  lemma TouchKeepsConsistent(pt: seq<Entry>, fr: seq<int>, p: int, b: bool)
    requires Consistent(pt, fr) && 0 <= p < |pt|
    ensures Consistent(pt[p := pt[p].(refBit := b)], fr)
  {
  }

  /** A fault of page `npv` that takes frame `f` changes the set of resident
      pages by exactly the page `f` held, which leaves, and `npv`, which
      enters; the entry of the page that leaves keeps its frame and bit. */
  lemma FaultResidents(pt: seq<Entry>, fr: seq<int>, npv: int, f: int)
    requires Consistent(pt, fr)
    requires 0 <= npv < |pt| && !pt[npv].valid
    requires 0 <= f < |fr|
    ensures var r := EvictOccupant(pt, fr, f)[npv := Entry(true, f, true)];
            && ResidentPages(r) == ResidentPages(pt) - {fr[f]} + {npv}
            && (fr[f] != Free ==> r[fr[f]] == pt[fr[f]].(valid := false))
  {
    var r := EvictOccupant(pt, fr, f)[npv := Entry(true, f, true)];
    forall p | 0 <= p < |pt| && p != npv && p != fr[f]
      ensures r[p] == pt[p]
    {
    }
    assert ResidentPages(r) == ResidentPages(pt) - {fr[f]} + {npv} by {
      forall p | p in ResidentPages(pt) - {fr[f]} + {npv} ensures p in ResidentPages(r) {
        if p != npv {
          assert r[p] == pt[p];
        }
      }
    }
  }

  /** A fault of page `npv` that takes frame `f` keeps the tables
      consistent: the page `f` held is invalidated, and `npv` is installed in
      `f`, which names `npv` back. */
  lemma FaultKeepsConsistent(pt: seq<Entry>, fr: seq<int>, npv: int, f: int)
    requires Consistent(pt, fr)
    requires 0 <= npv < |pt| && !pt[npv].valid
    requires 0 <= f < |fr|
    ensures Consistent(EvictOccupant(pt, fr, f)[npv := Entry(true, f, true)], fr[f := npv])
  {
    var pt', fr' := EvictOccupant(pt, fr, f)[npv := Entry(true, f, true)], fr[f := npv];
    forall p | 0 <= p < |pt'| && pt'[p].valid
      ensures 0 <= pt'[p].frame < |fr'| && fr'[pt'[p].frame] == p
    {
      if p != npv {
        assert pt[p].valid && pt[p].frame != f;
      }
    }
  }
}
