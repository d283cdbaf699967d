/** The fault rate of `print_statistics` (sim.c): faults as a percentage of
    references, reported only when there was at least one reference. */
module Statistics {
  import opened Wrappers

  /** `(double)fallos / referencias * 100.0`, guarded by `referencias > 0`;
      computed exactly rather than in floating point. */
  function FaultRate(references: nat, faults: nat): (r: Option<real>)
    ensures r.None? <==> references == 0
    ensures r.Some? && faults <= references ==> 0.0 <= r.value <= 100.0
    ensures r.Some? ==> (r.value == 0.0 <==> faults == 0)
    ensures r.Some? ==> (r.value == 100.0 <==> faults == references)
  {
    if references > 0 then Some(faults as real / references as real * 100.0) else None
  }
}
