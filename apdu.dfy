/**
 * The vocabulary the control core shares with the command processor:
 * bytes, the parsed command APDU, the instruction and class bytes the core
 * looks at, the lockout status word, and the response buffer `output`.
 */
module Apdu {

  type Byte = x: int | 0 <= x < 256

  /** CLA 0x10: a chained command, more parts follow. */
  const ClaChained: Byte := 0x10
  /** INS 0x00: the parser found nothing to process. */
  const InsNone: Byte := 0x00
  /** INS 0x88: INTERNAL AUTHENTICATE. */
  const InsInternalAuthenticate: Byte := 0x88
  /** INS 0x2A: PERFORM SECURITY OPERATION (sign, decipher). */
  const InsPerformSecurityOperation: Byte := 0x2A
  /** Status word 0x6983, "authentication method blocked" (ISO/IEC 7816-4, section 5.1.3). */
  const SwAuthenticationBlocked: seq<Byte> := [0x69, 0x83]

  /** The fields the parser fills in; the core itself only reads `cla` and `ins`. */
  datatype Command = Command(cla: Byte, ins: Byte, p1: Byte, p2: Byte, lc: nat, data: seq<Byte>, le: nat)

  /**
   * The response buffer `outData output`: a fixed data array that the
   * command processor (or the lockout path) fills in place, and the number
   * of bytes of it that form the response.
   */
  class Output {
    const data: array<Byte>
    var length: nat

    ghost predicate Valid()
      reads this
    {
      2 <= data.Length && length <= data.Length
    }

    /** The bytes a write of `output.data` with `output.length` sends. */
    ghost function Bytes(): seq<Byte>
      reads this, data
      requires Valid()
    {
      data[..length]
    }

    constructor (capacity: nat)
      requires 2 <= capacity
      ensures Valid() && fresh(data) && data.Length == capacity && Bytes() == []
    {
      data := new Byte[capacity];
      length := 0;
    }
  }
}
