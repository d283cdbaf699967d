/** The parameter validation of `main` (sim.c): both sizes must be positive,
    and the page size a power of two, before the simulator is built. */
module Config {
  import opened Bits
  import opened Wrappers

  datatype ConfigError =
    | NotPositive    // "Los parámetros deben ser positivos"
    | NotPowerOfTwo  // "El tamaño del marco debe ser potencia de 2"

  /** The accepted configuration: frame count and page size. */
  datatype SimConfig = SimConfig(numFrames: int32, pageSize: int32)

  /** `main`'s checks, in `main`'s order, on the values `atoi` produced. A
      configuration is accepted exactly when both sizes are positive and the
      page size is a power of two; a non-positive size is reported before the
      power-of-two test. */
  function ValidateConfig(numFrames: int32, pageSize: int32): (r: Result<SimConfig, ConfigError>)
    ensures r.Ok? <==> numFrames > 0 && pageSize > 0 && IsPowerOfTwo(pageSize)
    ensures r.Ok? ==> r.value == SimConfig(numFrames, pageSize)
    ensures r == Err(NotPositive) <==> numFrames <= 0 || pageSize <= 0
  {
    if numFrames <= 0 || pageSize <= 0 then Err(NotPositive)
    else
      PowerOfTwoTest(pageSize);
      if BitAnd(pageSize, pageSize - 1) != 0 then Err(NotPowerOfTwo)
      else Ok(SimConfig(numFrames, pageSize))
  }
}
