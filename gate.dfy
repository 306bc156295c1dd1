/**
 * The confirmation gate in front of security operations: which commands
 * need a button press, the bounded wait for it, and the lockout response
 * written when the press does not come.
 */
module Gate {
  import opened Apdu
  import opened Signals

  /** The wait gives up after 30 polls of 2 x 250 ms, 15 seconds in all. */
  const MaxPolls: nat := 30

  /**
   * A command needs the button when it is an INTERNAL AUTHENTICATE or a
   * PERFORM SECURITY OPERATION that is not one part of a chain.
   */
  predicate IsSensitive(cmd: Command)
  {
    cmd.cla != ClaChained && (cmd.ins == InsInternalAuthenticate || cmd.ins == InsPerformSecurityOperation)
  }

  /** A C comparison as the int it yields, 1 or 0. */
  function CTruth(b: bool): bv32
  {
    if b then 1 else 0
  }

  /** The test as the firmware writes it: a bitwise `&` of two C comparisons. */
  predicate SensitiveAsWritten(cmd: Command)
  {
    (CTruth(cmd.cla != 0x10) & CTruth(cmd.ins == 0x88 || cmd.ins == 0x2A)) != 0
  }

  /** The bitwise form decides exactly as the logical one; chained commands never wait. */
  lemma SensitiveClassification(cmd: Command)
    ensures SensitiveAsWritten(cmd) <==> IsSensitive(cmd)
    ensures IsSensitive(cmd) ==> cmd.ins == 0x88 || cmd.ins == 0x2A
    ensures cmd.cla == 0x10 ==> !IsSensitive(cmd)
  {
  }

  /** Whether the button flag is up at poll check i, given the presses after the gate cleared it. */
  function Pressed(presses: seq<bool>, i: nat): bool
  {
    Latched(false, presses, i)
  }

  /**
   * The value of `time` when the wait loop, at check t, leaves: it goes on
   * while the flag is down and time < 30.
   */
  function WaitFrom(presses: seq<bool>, t: nat): (r: nat)
    requires t <= MaxPolls
    ensures t <= r <= MaxPolls
    decreases MaxPolls - t
  {
    if Pressed(presses, t) || t == MaxPolls then t else WaitFrom(presses, t + 1)
  }

  /** The number of polls the gate waits. */
  function WaitTime(presses: seq<bool>): nat
  {
    WaitFrom(presses, 0)
  }

  lemma {:induction false} WaitFromFirstPress(presses: seq<bool>, t: nat)
    requires t <= MaxPolls
    requires forall i :: 0 <= i < t ==> !Pressed(presses, i)
    ensures forall i :: 0 <= i < WaitFrom(presses, t) ==> !Pressed(presses, i)
    ensures WaitFrom(presses, t) < MaxPolls ==> Pressed(presses, WaitFrom(presses, t))
    decreases MaxPolls - t
  {
    if !(Pressed(presses, t) || t == MaxPolls) {
      WaitFromFirstPress(presses, t + 1);
    }
  }

  /**
   * The wait ends at the first check that sees the flag up, unless that is
   * the last check (time == 30): then it ends there too, locked out.
   */
  lemma WaitTimeFirstPress(presses: seq<bool>)
    ensures WaitTime(presses) <= MaxPolls
    ensures forall i :: 0 <= i < WaitTime(presses) ==> !Pressed(presses, i)
    ensures WaitTime(presses) < MaxPolls ==> Pressed(presses, WaitTime(presses))
  {
    WaitFromFirstPress(presses, 0);
  }

  /** Lockout happens exactly when no press reached the flag before any of the 30 checks. */
  lemma LockoutIff(presses: seq<bool>)
    ensures WaitTime(presses) == MaxPolls
      <==> forall j :: 0 <= j < MaxPolls && j < |presses| ==> !presses[j]
  {
    WaitTimeFirstPress(presses);
    if WaitTime(presses) == MaxPolls {
      forall j | 0 <= j < MaxPolls && j < |presses|
        ensures !presses[j]
      {
        assert !Pressed(presses, j);
      }
    } else {
      var t := WaitTime(presses);
      LatchedIff(false, presses, t);
    }
  }

  /** A press that arrives while the 30th poll is running is too late. */
  lemma LastPollPressLocksOut()
    ensures WaitTime(seq(MaxPolls + 1, i => i == MaxPolls)) == MaxPolls
  {
    LockoutIff(seq(MaxPolls + 1, i => i == MaxPolls));
  }

  /**
   * The wait loop. It clears the flag, then polls it; `presses[i]` is an
   * interrupt of the button that arrives before check i. A press from before
   * the gate started is discarded by the clearing.
   */
  method AwaitConfirmation(buttons: Buttons, presses: seq<bool>) returns (time: nat)
    modifies buttons`proceed
    ensures time == WaitTime(presses) && time <= MaxPolls
    ensures buttons.proceed == Pressed(presses, time)
  {
    buttons.proceed := false;
    time := 0;
    if 0 < |presses| && presses[0] {
      buttons.ProceedHandle();
    }
    while !buttons.proceed && time < MaxPolls
      invariant time <= MaxPolls
      invariant buttons.proceed == Pressed(presses, time)
      invariant WaitFrom(presses, time) == WaitTime(presses)
      decreases MaxPolls - time
    {
      time := time + 1;
      if time < |presses| && presses[time] {
        buttons.ProceedHandle();
      }
    }
  }

  /** Write the lockout status word into the response buffer. */
  method WriteLockout(output: Output)
    requires output.Valid()
    modifies output`length, output.data
    ensures output.Valid() && output.Bytes() == SwAuthenticationBlocked
    ensures output.data[2..] == old(output.data[2..])
  {
    output.data[0] := 0x69;
    output.data[1] := 0x83;
    output.length := 2;
  }

  /**
   * The gate as one step of the session: a sensitive command waits for the
   * button; if the wait runs out, the response is the lockout status word
   * and the command must not be processed.
   */
  method ConfirmationGate(buttons: Buttons, output: Output, cmd: Command, presses: seq<bool>)
    returns (gated: bool, locked: bool)
    requires output.Valid()
    modifies buttons`proceed, output`length, output.data
    ensures output.Valid()
    ensures gated == IsSensitive(cmd)
    ensures locked <==> gated && WaitTime(presses) == MaxPolls
    ensures locked ==> output.Bytes() == SwAuthenticationBlocked && output.data[2..] == old(output.data[2..])
    ensures !locked ==> output.length == old(output.length) && output.data[..] == old(output.data[..])
    ensures !gated ==> buttons.proceed == old(buttons.proceed)
  {
    gated := IsSensitive(cmd);
    locked := false;
    if gated {
      var time := AwaitConfirmation(buttons, presses);
      if time == MaxPolls {
        WriteLockout(output);
        locked := true;
      }
    }
  }
}
