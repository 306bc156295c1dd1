/** The status LED task: while not connected, it toggles the LED every poll. */
module Status {

  /** How many of the polls found the device not connected. */
  function DisconnectedPolls(connected: seq<bool>): nat
    decreases |connected|
  {
    if connected == [] then 0
    else DisconnectedPolls(connected[..|connected| - 1]) + (if connected[|connected| - 1] then 0 else 1)
  }

  /**
   * The LED task over a run of polls; `connected[i]` is the connected flag as
   * poll i reads it. It returns the final `toggle` and the levels written to
   * the LED, in order: they alternate 1, 0, 1, ... starting from 1.
   */
  method WifiStatus(connected: seq<bool>) returns (toggle: bv8, levels: seq<bv8>)
    ensures |levels| == DisconnectedPolls(connected)
    ensures forall i :: 0 <= i < |levels| ==> levels[i] == if i % 2 == 0 then 1 else 0
    ensures toggle == if |levels| % 2 == 0 then 0 else 1
  {
    toggle, levels := 0, [];
    var i := 0;
    while i < |connected|
      invariant 0 <= i <= |connected|
      invariant |levels| == DisconnectedPolls(connected[..i])
      invariant forall k :: 0 <= k < |levels| ==> levels[k] == if k % 2 == 0 then 1 else 0
      invariant toggle == if |levels| % 2 == 0 then 0 else 1
    {
      assert connected[..i + 1][..i] == connected[..i];
      if !connected[i] {
        toggle := toggle ^ 1;
        levels := levels + [toggle];
      }
      i := i + 1;
    }
    assert connected[..i] == connected;
  }
}
