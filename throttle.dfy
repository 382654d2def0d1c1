/**
 * The admission limiter: the global `throttle` channel of capacity
 * `maxConcurrency` (cloudflare-in-alexa-top500.go:14-15). A send (`throttle <- 1`)
 * takes a token, a receive (`<-throttle`) gives one back. Only the number of
 * tokens held is modelled; a channel operation that would block is reported
 * instead of performed, and in the sequential schedule of this model a block
 * never ends.
 */
module Throttle {

  const MaxConcurrency: nat := 4

  /** How a phase that draws tokens from the limiter ends. */
  datatype Ending =
    | Finished            // every task was launched and ran
    | Deadlocked(at: nat) // the launcher blocked for good before task `at`
    | Aborted(at: nat)    // task `at` panicked, which ends the whole process

  class Limiter {
    /** Tokens currently in the channel's buffer, that is, taken and not given back. */
    var held: nat

    ghost predicate Valid()
      reads this
    {
      held <= MaxConcurrency
    }

    constructor ()
      ensures Valid() && held == 0
    {
      held := 0;
    }

    /** `throttle <- 1`: succeeds exactly when the buffer has room. */
    method Acquire() returns (admitted: bool)
      requires Valid()
      modifies this
      ensures Valid()
      ensures admitted <==> old(held) < MaxConcurrency
      ensures held == if admitted then old(held) + 1 else old(held)
    {
      admitted := held < MaxConcurrency;
      if admitted {
        held := held + 1;
      }
    }

    /** `<-throttle`: succeeds exactly when some token is held. */
    method Release() returns (released: bool)
      requires Valid()
      modifies this
      ensures Valid()
      ensures released <==> old(held) > 0
      ensures held == if released then old(held) - 1 else old(held)
    {
      released := held > 0;
      if released {
        held := held - 1;
      }
    }
  }
}
