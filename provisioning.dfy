/**
 * Provisioning: the boot-time choice between restoring and initialising
 * the device state, made on the result codes of the NVS namespace
 * "storage", and the reset monitor that erases the "initialized" key and
 * restarts once the hard-reset flag is up.
 */
module Provisioning {
  import opened Wrappers
  import opened Apdu
  import opened Signals

  /** The NVS key whose presence says that the device was initialised. */
  const InitializedKey: string := "initialized"

  /** ESP_OK, ESP_ERR_NVS_NOT_FOUND, or any other error code. */
  datatype EspErr = EspOk | EspErrNvsNotFound | EspFail(code: int)

  /** The outcome of the boot branch; a restart may first raise the hard-reset flag. */
  datatype Provision = Restored | Initialized | Reboot(raiseHardReset: bool)

  /**
   * The branch on the results of nvs_open, nvs_get_u8 and then of
   * restoreState() or initialize() (non-zero means failure).
   */
  function Decide(openErr: EspErr, readErr: EspErr, restoreRc: int, initRc: int): (d: Provision)
    ensures d.Reboot? || openErr == EspOk
    ensures d == Restored <==> openErr == EspOk && readErr == EspOk && restoreRc == 0
    ensures d == Initialized <==> openErr == EspOk && readErr == EspErrNvsNotFound && initRc == 0
    ensures d == Reboot(true) <==> openErr == EspOk && readErr == EspOk && restoreRc != 0
    ensures readErr.EspFail? ==> d == Reboot(false)
  {
    if openErr != EspOk then Reboot(false)
    else
      match readErr
      case EspOk => if restoreRc != 0 then Reboot(true) else Restored
      case EspErrNvsNotFound => if initRc != 0 then Reboot(false) else Initialized
      case EspFail(_) => Reboot(false)
  }

  /** The key/value pairs of the NVS namespace. */
  type Store = map<string, Byte>

  /** nvs_get_u8: the stored value, NOT_FOUND for a missing key, or a reported flash fault. */
  function GetU8(store: Store, key: string, fault: Option<int>): (r: (EspErr, Byte))
    ensures fault.None? ==> (r.0 == EspOk <==> key in store) && (r.0 == EspErrNvsNotFound <==> key !in store)
    ensures r.0 == EspOk ==> key in store && r.1 == store[key]
  {
    if fault.Some? then (EspFail(fault.value), 0)
    else if key in store then (EspOk, store[key])
    else (EspErrNvsNotFound, 0)
  }

  /** nvs_erase_key: removes a present key; a missing key gives NOT_FOUND. */
  function EraseKey(store: Store, key: string, fault: Option<int>): (r: (EspErr, Store))
    ensures r.0 == EspOk <==> fault.None? && key in store
    ensures r.0 == EspOk ==> key !in r.1 && r.1 == store - {key}
    ensures r.0 != EspOk ==> r.1 == store
  {
    if fault.Some? then (EspFail(fault.value), store)
    else if key in store then (EspOk, store - {key})
    else (EspErrNvsNotFound, store)
  }

  /** The boot branch on a given namespace. */
  function Boot(store: Store, openErr: EspErr, readFault: Option<int>, restoreRc: int, initRc: int): Provision
  {
    Decide(openErr, GetU8(store, InitializedKey, readFault).0, restoreRc, initRc)
  }

  /** The value stored under the key plays no part: only its presence does. */
  lemma BootIgnoresStoredValue(store: Store, v: Byte, openErr: EspErr, restoreRc: int, initRc: int)
    requires InitializedKey in store
    ensures Boot(store, openErr, None, restoreRc, initRc) == Boot(store[InitializedKey := v], openErr, None, restoreRc, initRc)
    ensures Boot(store, EspOk, None, restoreRc, initRc) != Initialized
  {
  }

  /**
   * One poll of the reset monitor: whether the hard-reset interrupt fired
   * since the previous poll, the namespace as this poll finds it (the boot
   * branch runs concurrently, and initialize() may create the key between
   * two polls), and what nvs_open and nvs_erase_key report.
   */
  datatype Poll = Poll(pressed: bool, seen: Store, openErr: EspErr, eraseFault: Option<int>)

  function Presses(polls: seq<Poll>): seq<bool>
  {
    seq(|polls|, i requires 0 <= i < |polls| => polls[i].pressed)
  }

  /** The hard-reset flag as poll i sees it. */
  function HardRstAt(hardRst: bool, polls: seq<Poll>, i: nat): bool
  {
    Latched(hardRst, Presses(polls), i)
  }

  /** Poll i finds the flag up, opens the namespace and erases the key. */
  predicate Fires(hardRst: bool, polls: seq<Poll>, i: nat)
    requires i < |polls|
  {
    HardRstAt(hardRst, polls, i)
      && polls[i].openErr == EspOk
      && EraseKey(polls[i].seen, InitializedKey, polls[i].eraseFault).0 == EspOk
  }

  /**
   * The reset monitor over the polls the environment allows. `hardRst` is
   * the flag as the first poll finds it (a failed restore raises it before
   * that). The monitor only reads the flag; it restarts at the first poll
   * that erases the key, and writes the namespace only then.
   */
  method CheckReset(hardRst: bool, polls: seq<Poll>) returns (restartAt: Option<nat>, after: Option<Store>)
    ensures restartAt.Some? <==> after.Some?
    ensures restartAt.Some? ==> restartAt.value < |polls| && Fires(hardRst, polls, restartAt.value)
    ensures restartAt.Some? ==> HardRstAt(hardRst, polls, restartAt.value)
    ensures restartAt.Some? ==> InitializedKey in polls[restartAt.value].seen
    ensures restartAt.Some? ==> after.value == polls[restartAt.value].seen - {InitializedKey}
    ensures forall j :: 0 <= j < |polls| && (restartAt.None? || j < restartAt.value) ==> !Fires(hardRst, polls, j)
  {
    var flag := hardRst;
    var i := 0;
    restartAt, after := None, None;
    while i < |polls| && restartAt.None?
      invariant 0 <= i <= |polls|
      invariant i == 0 ==> flag == hardRst
      invariant 0 < i ==> flag == HardRstAt(hardRst, polls, i - 1)
      invariant restartAt.Some? <==> after.Some?
      invariant restartAt.Some? ==> 0 < i && restartAt.value == i - 1 && Fires(hardRst, polls, i - 1)
      invariant restartAt.Some? ==> InitializedKey in polls[i - 1].seen
      invariant restartAt.Some? ==> after.value == polls[i - 1].seen - {InitializedKey}
      invariant forall j :: 0 <= j < i && (restartAt.None? || j < restartAt.value) ==> !Fires(hardRst, polls, j)
    {
      flag := polls[i].pressed || flag;
      if flag && polls[i].openErr == EspOk {
        var (err, erased) := EraseKey(polls[i].seen, InitializedKey, polls[i].eraseFault);
        if err == EspOk {
          restartAt, after := Some(i), Some(erased);
        }
      }
      i := i + 1;
    }
  }

  /**
   * A hard reset pressed while the key does not exist yet is not lost: the
   * erase fails with NOT_FOUND, the flag stays up, and a later poll that
   * finds the key (written by initialize() meanwhile) erases it.
   */
  lemma KeyCreatedLaterIsErased(hardRst: bool, polls: seq<Poll>, i: nat, j: nat)
    requires i < j < |polls| && polls[i].pressed
    requires InitializedKey !in polls[i].seen && InitializedKey in polls[j].seen
    requires polls[i].openErr == EspOk && polls[j].openErr == EspOk
    requires polls[i].eraseFault.None? && polls[j].eraseFault.None?
    ensures EraseKey(polls[i].seen, InitializedKey, None).0 == EspErrNvsNotFound
    ensures !Fires(hardRst, polls, i) && Fires(hardRst, polls, j)
  {
    LatchedStays(hardRst, Presses(polls), i, j);
  }

  /** After the monitor erased the key, the next boot cannot restore: it initialises or restarts. */
  lemma ResetForcesInitialize(hardRst: bool, polls: seq<Poll>, i: nat, restoreRc: int, initRc: int)
    requires i < |polls| && Fires(hardRst, polls, i)
    ensures var next := EraseKey(polls[i].seen, InitializedKey, polls[i].eraseFault).1;
      Boot(next, EspOk, None, restoreRc, initRc) == (if initRc == 0 then Initialized else Reboot(false))
  {
  }

  /**
   * A failed restore raises the flag; if the monitor's first poll finds the
   * namespace as the boot read it, opens it and the erase reports no fault,
   * that poll erases the key.
   */
  lemma FailedRestoreLeadsToErase(store: Store, restoreRc: int, initRc: int, polls: seq<Poll>)
    requires Boot(store, EspOk, None, restoreRc, initRc) == Reboot(true)
    requires 0 < |polls| && polls[0].seen == store
    requires polls[0].openErr == EspOk && polls[0].eraseFault.None?
    ensures Fires(true, polls, 0)
  {
  }
}
