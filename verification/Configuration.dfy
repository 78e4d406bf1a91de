/** Compile-time limits, the delay states and the per-input settings the routers read. */
module Configuration {
  const MAX_INPUTS := 8
  const MAX_OUTPUTS := 8
  const MAX_DELAY := 60              // seconds
  const AUDIO_CHANNELS := 2
  const AUDIO_SAMPLE_RATE := 48000

  datatype DelayState = Unknown | Bypassed | Entered | Entering | Exited | Exiting

  /** The settings of one input. Delays are in seconds, as the configuration file gives them. */
  datatype InputConfig = InputConfig(fullDelay: nat, dumpDelay: nat, changePercent: int)
  {
    function FullMsec(): nat { 1000 * fullDelay }
    function DumpMsec(): nat { 1000 * dumpDelay }

    /** The program does not range-check its settings. Beyond 5592 seconds of dump delay
        the C expression 8*48*dump_delay leaves the range of a signed int. */
    predicate Sane() { fullDelay <= MAX_DELAY && dumpDelay <= 5592 }
  }
}
