/**
 * One pass of the connection task's loop: open a socket to the peer,
 * connect, read one command into the zeroed receive buffer, run the
 * confirmation gate, process the command (or not), write the response,
 * close; and the loop that repeats such passes until one of them sends the
 * task to the controlled restart.
 */
module Session {
  import opened Wrappers
  import opened Apdu
  import opened Signals
  import opened Gate

  /** `char recvBuf[1024]`; a read asks for one byte less than that. */
  const RecvBufSize: nat := 1024

  /** What the one `read` on the socket returns: some bytes, or an error (-1). */
  datatype ReadResult = Received(bytes: seq<Byte>) | ReadFailed

  /**
   * What the outside world does during one pass: whether a socket can be
   * allocated, whether the peer accepts the connection, what the read
   * returns, the button presses during the gate's wait, and whether the
   * write succeeds.
   */
  datatype Env = Env(socketOk: bool, connectOk: bool, incoming: ReadResult, presses: seq<bool>, writeOk: bool)

  /** Where a pass ends: back at the wait for connectivity, or at the controlled restart. */
  datatype After = Wait | Restart

  /**
   * What a pass did: where it ended, whether it called invalidate(), whether
   * the command went through the gate, whether the gate locked it out,
   * whether the command processor ran, and the bytes handed to `write`.
   */
  datatype Trace = Trace(next: After, invalidated: bool, gated: bool, lockedOut: bool, processed: bool, written: Option<seq<Byte>>)

  /** The value `r` of the read: at most 1023 bytes, or -1 on error. */
  function ReadCount(rr: ReadResult): (r: int)
    ensures -1 <= r < RecvBufSize
    ensures rr.ReadFailed? <==> r == -1
    ensures rr.Received? ==> 0 <= r <= |rr.bytes|
    ensures rr.Received? && |rr.bytes| < RecvBufSize ==> r == |rr.bytes|
  {
    match rr
    case ReadFailed => -1
    case Received(bytes) => if |bytes| < RecvBufSize - 1 then |bytes| else RecvBufSize - 1
  }

  function Zeros(k: nat): seq<Byte>
  {
    seq(k, _ => 0)
  }

  /**
   * The receive buffer once it was zeroed and read into. Because at most
   * 1023 bytes are read, its last byte is always zero.
   */
  function Frame(rr: ReadResult): (f: seq<Byte>)
    ensures |f| == RecvBufSize && f[RecvBufSize - 1] == 0
    ensures rr.Received? ==> f[..ReadCount(rr)] == rr.bytes[..ReadCount(rr)]
    ensures forall j :: (if rr.Received? then ReadCount(rr) else 0) <= j < RecvBufSize ==> f[j] == 0
  {
    var k := if rr.Received? then ReadCount(rr) else 0;
    (if rr.Received? then rr.bytes[..k] else []) + Zeros(RecvBufSize - k)
  }

  /** The command the parser makes of the buffer and the read count. */
  function Parsed(env: Env, parse: (seq<Byte>, int) -> Command): Command
  {
    parse(Frame(env.incoming), ReadCount(env.incoming))
  }

  /** One pass of the loop, from the moment the connected bit is seen set. */
  function Step(env: Env, parse: (seq<Byte>, int) -> Command, process: Command -> seq<Byte>): (t: Trace)
    ensures t.next == Restart <==> !env.socketOk || (t.written.Some? && !env.writeOk)
    ensures t.written.None?
      <==> !env.socketOk || !env.connectOk || Parsed(env, parse).ins == InsNone
    ensures t.invalidated <==> env.socketOk && t.written.None?
    ensures t.gated ==> IsSensitive(Parsed(env, parse))
    ensures t.written.Some? ==> (t.gated <==> IsSensitive(Parsed(env, parse)))
    ensures t.lockedOut <==> t.gated && WaitTime(env.presses) == MaxPolls
    ensures t.lockedOut ==> t.gated && !t.processed && t.written == Some(SwAuthenticationBlocked)
    ensures t.processed <==> t.written.Some? && !t.lockedOut
    ensures t.processed ==> t.written == Some(process(Parsed(env, parse)))
  {
    if !env.socketOk then
      Trace(Restart, false, false, false, false, None)
    else if !env.connectOk then
      Trace(Wait, true, false, false, false, None)
    else
      var cmd := Parsed(env, parse);
      if cmd.ins == InsNone then
        Trace(Wait, true, false, false, false, None)
      else
        var gated := IsSensitive(cmd);
        var locked := gated && WaitTime(env.presses) == MaxPolls;
        var response := if locked then SwAuthenticationBlocked else process(cmd);
        Trace(if env.writeOk then Wait else Restart, false, gated, locked, !locked, Some(response))
  }

  /**
   * A sensitive command whose button press reaches the flag before one of
   * the first 30 checks is processed, once, and its response is written.
   */
  lemma ConfirmedInTimeIsProcessed(env: Env, parse: (seq<Byte>, int) -> Command, process: Command -> seq<Byte>, t: nat)
    requires env.socketOk && env.connectOk && IsSensitive(Parsed(env, parse))
    requires t < MaxPolls && t < |env.presses| && env.presses[t]
    ensures Step(env, parse, process).gated && Step(env, parse, process).processed
    ensures Step(env, parse, process).written == Some(process(Parsed(env, parse)))
  {
    LockoutIff(env.presses);
  }

  /**
   * A sensitive command with no press in time is answered with exactly
   * 0x69 0x83 and never reaches the command processor.
   */
  lemma UnconfirmedIsLockedOut(env: Env, parse: (seq<Byte>, int) -> Command, process: Command -> seq<Byte>)
    requires env.socketOk && env.connectOk && IsSensitive(Parsed(env, parse))
    requires forall j :: 0 <= j < MaxPolls && j < |env.presses| ==> !env.presses[j]
    ensures Step(env, parse, process).lockedOut && !Step(env, parse, process).processed
    ensures Step(env, parse, process).written == Some([0x69, 0x83])
  {
    LockoutIff(env.presses);
  }

  /** The connection task's buffers and the button flags it reads. */
  class Session {
    const buttons: Buttons
    const output: Output
    const recvBuf: array<Byte>

    ghost predicate Valid()
      reads this, output
    {
      output.Valid() && recvBuf.Length == RecvBufSize && recvBuf != output.data
    }

    constructor (buttons: Buttons, output: Output)
      requires output.Valid()
      ensures Valid() && this.buttons == buttons && this.output == output && fresh(recvBuf)
    {
      this.buttons := buttons;
      this.output := output;
      recvBuf := new Byte[RecvBufSize];
    }

    /** Zero the receive buffer, then read at most 1023 bytes into it. */
    method Receive(incoming: ReadResult) returns (r: int)
      requires Valid()
      modifies recvBuf
      ensures r == ReadCount(incoming) && recvBuf[..] == Frame(incoming)
    {
      var i := 0;
      while i < recvBuf.Length
        invariant 0 <= i <= recvBuf.Length
        invariant forall j :: 0 <= j < i ==> recvBuf[j] == 0
      {
        recvBuf[i] := 0;
        i := i + 1;
      }
      r := ReadCount(incoming);
      if incoming.Received? {
        var k := 0;
        while k < r
          invariant 0 <= k <= r
          invariant forall j :: 0 <= j < k ==> recvBuf[j] == incoming.bytes[j]
          invariant forall j :: k <= j < recvBuf.Length ==> recvBuf[j] == 0
        {
          recvBuf[k] := incoming.bytes[k];
          k := k + 1;
        }
      }
      var f := Frame(incoming);
      forall j | 0 <= j < RecvBufSize
        ensures recvBuf[j] == f[j]
      {
        if incoming.Received? && j < r {
          assert f[j] == f[..r][j];
        }
      }
    }

    /** The command processor fills the response buffer in place. */
    method Process(cmd: Command, process: Command -> seq<Byte>)
      requires Valid() && |process(cmd)| <= output.data.Length
      modifies output`length, output.data
      ensures Valid() && output.Bytes() == process(cmd)
    {
      var response := process(cmd);
      var i := 0;
      while i < |response|
        invariant 0 <= i <= |response|
        invariant output.data[..i] == response[..i]
      {
        output.data[i] := response[i];
        i := i + 1;
      }
      output.length := |response|;
    }

    /** One pass of the loop body, after the wait for the connected bit. */
    method ServeOnce(env: Env, parse: (seq<Byte>, int) -> Command, process: Command -> seq<Byte>)
      returns (t: Trace)
      requires Valid()
      requires forall c :: |process(c)| <= output.data.Length
      modifies recvBuf, output`length, output.data, buttons`proceed
      ensures Valid() && t == Step(env, parse, process)
      ensures t.written.Some? ==> output.Bytes() == t.written.value
    {
      if !env.socketOk {
        return Trace(Restart, false, false, false, false, None);
      }
      if !env.connectOk {
        // invalidate(), close the socket, back off, wait for the connected bit again
        return Trace(Wait, true, false, false, false, None);
      }
      var r := Receive(env.incoming);
      var cmd := parse(recvBuf[..], r);
      if cmd.ins == InsNone {
        // nothing more to receive: invalidate(), close the socket, start over
        return Trace(Wait, true, false, false, false, None);
      }
      var gated, locked := ConfirmationGate(buttons, output, cmd, env.presses);
      if !locked {
        Process(cmd, process);
      }
      var sent := output.data[..output.length];
      // a failed write closes the socket and goes to the restart
      t := Trace(if env.writeOk then Wait else Restart, false, gated, locked, !locked, Some(sent));
    }

    /**
     * The `while(1)` loop of the connection task, over the passes the
     * environment allows: it stops at the first pass that goes to the
     * restart.
     */
    method Serve(envs: seq<Env>, parse: (seq<Byte>, int) -> Command, process: Command -> seq<Byte>)
      returns (rounds: nat, restarted: bool)
      requires Valid()
      requires forall c :: |process(c)| <= output.data.Length
      modifies recvBuf, output`length, output.data, buttons`proceed
      ensures Valid() && rounds <= |envs|
      ensures restarted ==> 0 < rounds && Step(envs[rounds - 1], parse, process).next == Restart
      ensures !restarted ==> rounds == |envs|
      ensures forall k :: 0 <= k < rounds - 1 ==> Step(envs[k], parse, process).next == Wait
      ensures !restarted ==> forall k :: 0 <= k < |envs| ==> Step(envs[k], parse, process).next == Wait
    {
      rounds, restarted := 0, false;
      while rounds < |envs| && !restarted
        invariant Valid() && rounds <= |envs|
        invariant restarted ==> 0 < rounds && Step(envs[rounds - 1], parse, process).next == Restart
        invariant forall k :: 0 <= k < rounds - 1 ==> Step(envs[k], parse, process).next == Wait
        invariant !restarted ==> forall k :: 0 <= k < rounds ==> Step(envs[k], parse, process).next == Wait
      {
        var t := ServeOnce(envs[rounds], parse, process);
        restarted := t.next == Restart;
        rounds := rounds + 1;
      }
    }
  }
}
