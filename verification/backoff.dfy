/**
 * What ends one monitoring cycle and what the loop does next: both monitors
 * sleep `poll_interval` after a normal cycle, a fixed 300 seconds after an
 * exception, and leave the loop on a keyboard interrupt.
 */
module Backoff {

  /** The fixed wait after a cycle that raised. */
  const ErrorBackoff: nat := 300

  /** How a cycle ended: normally, with an exception caught by the loop, or
      with the user's interrupt. */
  datatype Outcome = Completed | Raised | Interrupted

  /** What the loop does after a cycle: sleep that many seconds and run the
      next cycle, or stop for good. */
  datatype Step = Wait(seconds: nat) | Stop
}
