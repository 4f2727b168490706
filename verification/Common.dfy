/** Return codes, 32-bit words and the answers of the timer library. */
module Common {
  const WORD_LIMIT: int := 0x1_0000_0000

  type uint32 = x: int | 0 <= x < 0x1_0000_0000

  const NRF_SUCCESS: uint32 := 0
  const NRF_ERROR_INVALID_PARAM: uint32 := 7

  datatype Option<+T> = None | Some(value: T)

  /** What the timer library answers to one start or stop call: a return code, and, for a stop
      that fails, whether the timer is left running. */
  datatype Answer = Answer(code: uint32, keeps: bool) {
    predicate Ok() { code == NRF_SUCCESS }

    /** A stop after which the timer is certainly not running. */
    predicate StopsTimer() { Ok() || !keeps }
  }

  /** The answers available to one call of the indication code: it stops at most one timer and
      starts at most one. */
  datatype Env = Env(stop: Answer, start: Answer)

  function AfterStart(running: bool, a: Answer): bool { running || a.Ok() }

  function AfterStop(running: bool, a: Answer): bool { running && !a.StopsTimer() }

  /** Milliseconds to timer ticks in 32-bit arithmetic, dividing before multiplying. */
  function MsToTicks(ticksPer100ms: uint32, ms: nat): uint32 {
    (ticksPer100ms * (ms / 100)) % 0x1_0000_0000
  }
}
