# WiFi smart-card token: control core in Dafny

This project models the control core of the ESP32 firmware in `gpg/main/gpg.c`,
which turns the board into a smart card reachable over Wi-Fi. The firmware runs
three tasks and a Wi-Fi event handler. Interrupt handlers set the flags they share.

- **Connectivity** (`event_handler`): a round-robin choice over the `NUMOFNETS`
  candidate networks. It keeps the indices `currNet` and `nextNet`, the
  `connected` flag and the `CONNECTED_BIT` of the event group, and it calls
  `invalidate()` on every link transition. The pure specification is `Next`
  over `NetState`. The class `WifiManager` updates the same globals in place.
- **Gate**: the button confirmation in front of INTERNAL AUTHENTICATE (0x88)
  and PERFORM SECURITY OPERATION (0x2A) when the command is not chained
  (CLA 0x10). The gate clears `proceed` and polls it at most 30 times. When
  time runs out it writes the status word 0x6983 ("authentication method
  blocked", ISO/IEC 7816-4, section 5.1.3) into `output` in place, with length 2.
- **Session** (the loop of `taskConnect`): one pass allocates a socket,
  connects, zeroes the 1024-byte receive buffer and reads at most 1023 bytes
  into it. It then parses, runs the gate, processes and writes. A pass ends
  back at the wait for connectivity or at the controlled restart (`exit`).
  `Step` is the specification of a pass; `Session.ServeOnce` implements it
  over the real buffers, and `Session.Serve` repeats it.
- **Provisioning**: the boot branch on the NVS result codes (restore,
  initialise or restart), a small model of the NVS key, and the reset
  monitor `checkReset`.
- **Status**: the LED task `wifiStatus`, which XOR-toggles a one-bit state
  while the device is not connected.

Interrupts and the other tasks run concurrently with each loop. They are
modelled as oracle sequences. `presses[i]` says that the button interrupt
fired before check `i` of a loop. A flag set this way stays set until its
owner clears it (`Signals.Latched`).

Collaborators whose code is not part of this model are inputs:
- `parseAPDU` is a function parameter `parse`.
- `process` is a function parameter `process` that yields the response bytes.
- `restoreState()` and `initialize()` are return codes.
- `socket`, `connect`, `read` and `write` are success flags and the bytes read.
- `nvs_open` is a result code. `nvs_get_u8` and `nvs_erase_key` are the
  functions `Provisioning.GetU8` and `Provisioning.EraseKey`. They state the
  assumed behaviour of the NVS store: a fault is reported as an error; a
  present key is read or erased with ESP_OK; a missing key gives NOT_FOUND.
- `invalidate()` is counted (`invalidations`) or flagged (`Trace.invalidated`).
- A failed restore raises `hardRst` before restarting (gpg/main/gpg.c:192-194),
  so the reset monitor erases the `initialized` key and the next boot
  initialises again (`Provisioning.FailedRestoreLeadsToErase`).
- `NUMOFNETS`, `wifiConfig` and `IP` are not part of this model. The list
  size is the parameter `n >= 1`.

Where the code departs from the intended behaviour of the device, the model follows the code:
- A failed `write` goes to the controlled restart (gpg/main/gpg.c:324-328),
  not back to the wait for connectivity.
- A successful read of the `initialized` key leads to a restore whatever
  value was stored (gpg/main/gpg.c:190-196). Only the key's presence counts
  (`Provisioning.BootIgnoresStoredValue`).
- A button press that reaches the flag only at the 31st check (`time == 30`)
  is still a lockout (`Gate.LastPollPressLocksOut`).

## Model

| member | source | states |
|---|---|---|
| `Signals.Buttons.ProceedHandle` | gpg/main/gpg.c:62-64 | the confirmation interrupt sets `proceed` and touches nothing else |
| `Signals.Buttons.HardReset` | gpg/main/gpg.c:66-68 | the hard-reset interrupt sets `hardRst` and touches nothing else |
| `Signals.LatchedIff` | gpg/main/gpg.c:57-58 | an interrupt flag is up at check i iff it started up or an interrupt fired at some check j <= i |
| `Signals.LatchedStays` | gpg/main/gpg.c:57-68 | interrupts only set the flags, so a flag once up stays up at every later check |
| `Connectivity.Next` | gpg/main/gpg.c:122-155 | one event keeps both indices below n and `connected == CONNECTED_BIT`; Start leaves `connected` and CONNECTED_BIT alone; GotIp sets both and leaves both indices and the attempt list unchanged; Disconnected clears both; Start/Disconnected try the prepared network and advance nextNet to (nextNet + 1) mod n; other events change nothing; exactly the two link events invalidate |
| `Connectivity.WifiManager.constructor` | gpg/main/gpg.c:157-158 | after initialisation nextNet = 0, not connected, nothing tried |
| `Connectivity.WifiManager.SelectNext` | gpg/main/gpg.c:127-130 | currNet := nextNet, the network is tried, nextNet := (nextNet + 1) mod n, both stay below n |
| `Connectivity.WifiManager.HandleEvent` | gpg/main/gpg.c:122-155 | the in-place update of the globals equals `Next` on the old state, and keeps the invariant |
| `Connectivity.ModSucc` | gpg/main/gpg.c:130 | advancing a reduced index and reducing again equals reducing the successor: ((a mod n) + 1) mod n = (a + 1) mod n |
| `Connectivity.RoundRobin` | gpg/main/gpg.c:127-158 | from boot, after k Start/Disconnected events nextNet = k mod n, currNet = (k-1) mod n, the networks were tried in order 0, 1, ..., n-1, 0, ..., and invalidate ran once per link transition |
| `Connectivity.Failover` | gpg/main/gpg.c:140-150 | m link losses in a row try nextNet, nextNet+1, ... (mod n) in order and leave nextNet advanced by m mod n |
| `Connectivity.FailoverVisitsEveryNetwork` | gpg/main/gpg.c:140-150 | n link losses in a row make n attempts that try every network of the list exactly once (all covered, no two alike) |
| `Gate.SensitiveClassification` | gpg/main/gpg.c:256 | the bitwise `&` test equals the logical one; only INS 0x88/0x2A are gated; CLA 0x10 is never gated |
| `Gate.WaitFrom` | gpg/main/gpg.c:260-268 | the loop counter never exceeds 30 |
| `Gate.WaitFromFirstPress` | gpg/main/gpg.c:260-268 | the loop leaves at the first check that sees the flag up, or at time 30 |
| `Gate.WaitTimeFirstPress` | gpg/main/gpg.c:260-268 | the wait is at most 30 polls; no check before the exit saw the flag; an exit before 30 saw it |
| `Gate.LockoutIff` | gpg/main/gpg.c:260-270 | time reaches 30 iff no press reached the flag before any of the 30 checks |
| `Gate.LastPollPressLocksOut` | gpg/main/gpg.c:260-270 | a press arriving during the 30th poll still locks out |
| `Gate.AwaitConfirmation` | gpg/main/gpg.c:257-268 | the loop clears `proceed` first (a stale press is ignored) and ends with time = `WaitTime` of the presses, at most 30 |
| `Gate.WriteLockout` | gpg/main/gpg.c:271-273 | output holds exactly 0x69 0x83 with length 2; the rest of the buffer is untouched |
| `Gate.ConfirmationGate` | gpg/main/gpg.c:255-276 | only sensitive commands wait; lockout iff time ran out, and then output is 0x69 0x83; otherwise output is unchanged |
| `Session.ReadCount` | gpg/main/gpg.c:236 | the read count is -1 exactly on a read error, at most 1023 (never the full 1024), and the whole message when it is shorter than that |
| `Session.Frame` | gpg/main/gpg.c:235-236 | the buffer passed to the parser has 1024 bytes, starts with the bytes read, is zero after them (all zero on a read error) and so always ends in a zero byte |
| `Session.Step` | gpg/main/gpg.c:208-332 | a pass restarts iff the socket cannot be allocated or a write fails; nothing is written iff socket or connect fails or INS = 0; invalidate runs exactly on the no-write paths after a socket exists; a written command is gated iff it is sensitive; lockout holds iff the command is gated and no press came in time, and then it is not processed and 0x69 0x83 is written; a processed command's own response is written |
| `Session.ConfirmedInTimeIsProcessed` | gpg/main/gpg.c:255-286 | a sensitive command with a press before one of the first 30 checks is processed and its response written |
| `Session.UnconfirmedIsLockedOut` | gpg/main/gpg.c:255-275 | a sensitive command without a press in time is answered with exactly 0x69 0x83 and never processed |
| `Session.Session.Receive` | gpg/main/gpg.c:235-236 | zeroes the whole buffer, then copies at most 1023 bytes read; the buffer equals `Frame` |
| `Session.Session.Process` | gpg/main/gpg.c:286 | the command processor's response fills `output` in place |
| `Session.Session.ServeOnce` | gpg/main/gpg.c:208-331 | one pass over the real buffers does what `Step` says, and the bytes written are `output.data[..output.length]` |
| `Session.Session.Serve` | gpg/main/gpg.c:208-341 | the loop repeats passes until the first one that goes to the restart; every earlier pass returned to waiting |
| `Provisioning.Decide` | gpg/main/gpg.c:184-204 | open failure restarts; restore iff open and read succeed and restore succeeds; initialise iff the key is missing and initialize succeeds; a failed restore raises hardRst; any other read error restarts |
| `Provisioning.BootIgnoresStoredValue` | gpg/main/gpg.c:188-196 | with the key present the decision does not depend on its value, and never initialises |
| `Provisioning.CheckReset` | gpg/main/gpg.c:344-357 | the monitor restarts at the first poll where hardRst is up and open and erase succeed on the namespace as that poll finds it; it erases only then; no earlier poll could |
| `Provisioning.KeyCreatedLaterIsErased` | gpg/main/gpg.c:344-356 | for any initial flag and any polls i < j: a press at poll i while the key is missing makes the erase return NOT_FOUND so poll i does not fire, and poll j, which finds the key, fires (opens and erases with ESP_OK while hardRst is still up) |
| `Provisioning.ResetForcesInitialize` | gpg/main/gpg.c:184-204 | after the monitor erased the key, the next boot initialises (or restarts if initialize fails), never restores |
| `Provisioning.FailedRestoreLeadsToErase` | gpg/main/gpg.c:192-194 | a failed restore raises hardRst and leaves the key present, so a monitor poll that runs before the restart (the 3-second countdown at gpg/main/gpg.c:335-341 against the 4-second poll period at gpg/main/gpg.c:355) erases the key when open and erase succeed; the premise `0 < |polls|` is that such a poll happens |
| `Status.WifiStatus` | gpg/main/gpg.c:359-368 | toggle flips once per disconnected poll; the LED levels alternate 1, 0, 1, ...; the final toggle is their count mod 2 |

## Left out

- Socket calls: only their success or failure is modelled. A short write counts as success, as in the code.
- Connectivity.Next: assumes `esp_wifi_set_config` and `esp_wifi_connect` succeed (gpg/main/gpg.c:129,131,147,149). On a failure `ESP_ERROR_CHECK` aborts the firmware; that abort is not modelled. The TCP/IP adapter and the rest of the Wi-Fi driver setup are left out as well.
- Provisioning.ResetForcesInitialize: assumes that a successful `nvs_erase_key` is durable on its own. The monitor calls neither `nvs_commit` nor `nvs_close` before `esp_restart` (gpg/main/gpg.c:348-351), and the store may defer the write until a commit. The commit is not modelled.
- Session.Step: `process` is a fixed function of the command, so two passes with the same command get the same response. The real command processor has state: `invalidate()` resets its PIN state, and GET CHALLENGE answers with random bytes. No contract here depends on this.
- Provisioning.CheckReset: reads the hard-reset flag as a value (its state at the first poll plus the interrupt arrivals), not through `Signals.Buttons`. It only reads the flag, so the in-place field adds nothing.
- The peer address `IP[currNet]` and the Wi-Fi configuration `wifiConfig[currNet]`: the network list is not part of this model. Only the index that is tried is recorded.
- `parseAPDU`, `process`, `invalidate`, `initialize` and `restoreState`: their code is not part of this model. `process` is assumed to fit its response into `output.data`.
- GPIO direction and interrupt setup, the LED levels of the event handler, the gate's LED flashing and the busy LED: these are hardware outputs. Only the status task's levels are recorded.
- NVS flash initialisation, FAT mount and unmount, and the restart countdown: restart is the terminal outcome (`Session.After.Restart`, `Provisioning.Provision.Reboot`).
- FreeRTOS scheduling, delays and event-group blocking: concurrency is replaced by oracle sequences of interrupt arrivals and observed flags. The wait for `CONNECTED_BIT` is the point where a pass starts.
- The infinite loops (`taskConnect`, `checkReset`, `wifiStatus`) run over a finite sequence of passes or polls that the environment supplies.
- The PRINTAPDU and TIMING debug output: logging only.
- The value of `currNet` before the first Start event: it is declared with the network list, which is not part of this model. It is taken as 0.
