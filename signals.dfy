/**
 * The two flags that button interrupts raise: `proceed` (the confirmation
 * button) and `hardRst` (the hard-reset button). An interrupt only ever
 * sets its flag; the flag keeps that value until some task clears it.
 */
module Signals {

  /**
   * A flag raised by an interrupt, observed at checks 0, 1, 2, ...:
   * `arrivals[i]` says the interrupt fired after check i - 1 and before
   * check i (arrivals beyond the sequence never happen), and `init` is the
   * value the flag had before check 0.
   */
  function Latched(init: bool, arrivals: seq<bool>, i: nat): bool
  {
    (i < |arrivals| && arrivals[i]) || (if i == 0 then init else Latched(init, arrivals, i - 1))
  }

  /** The flag is up at check i exactly when it started up or an interrupt fired by then. */
  lemma {:induction false} LatchedIff(init: bool, arrivals: seq<bool>, i: nat)
    ensures Latched(init, arrivals, i) <==> init || exists j :: 0 <= j <= i && j < |arrivals| && arrivals[j]
  {
    if i > 0 {
      LatchedIff(init, arrivals, i - 1);
    }
  }

  /** Nothing but the owner task lowers the flag: once up, it stays up. */
  lemma {:induction false} LatchedStays(init: bool, arrivals: seq<bool>, i: nat, j: nat)
    requires i <= j && Latched(init, arrivals, i)
    ensures Latched(init, arrivals, j)
    decreases j - i
  {
    if i < j {
      LatchedStays(init, arrivals, i, j - 1);
    }
  }

  /** The process-wide button flags. */
  class Buttons {
    var proceed: bool
    var hardRst: bool

    constructor ()
      ensures !proceed && !hardRst
    {
      proceed := false;
      hardRst := false;
    }

    /** The interrupt handler of the confirmation button. */
    method ProceedHandle()
      modifies this`proceed
      ensures proceed
    {
      proceed := true;
    }

    /** The interrupt handler of the hard-reset button. */
    method HardReset()
      modifies this`hardRst
      ensures hardRst
    {
      hardRst := true;
    }
  }
}
