/** The wire format of the RemoteLed peripheral: the 2-byte command written by a
    Central to the command characteristic, the 2-byte response written back to
    the response characteristic, and the byte copy that moves a written value
    into the firmware's command buffer. */
module Protocol {

  /** An unsigned 8-bit value (`uint8_t`). */
  type Byte = b: int | 0 <= b < 256

  /** Length in bytes of both characteristics and of the command buffer. */
  const CharacteristicLength: nat := 2

  // Command layout and codes.
  const CommandFooterPosition: nat := 1
  const CommandDataPosition: nat := 0
  const CommandFooter: Byte := 1
  const CommandLedOn: Byte := 1
  const CommandLedOff: Byte := 2

  // Response layout and codes.
  const ResponseFooterPosition: nat := 1
  const ResponseDataPosition: nat := 0
  const ResponseErrorFooter: Byte := 0
  const ResponseConfirmationFooter: Byte := 1
  const ResponseLedError: Byte := 0
  const ResponseLedOn: Byte := 1
  const ResponseLedOff: Byte := 2

  /** What the main loop makes of the command buffer. */
  datatype Command =
    | LedOn
    | LedOff
    | Unknown(code: Byte)   // valid footer, unrecognised code
    | BadFooter             // footer byte is not the command footer

  /** An `Unknown` command never carries one of the two recognised codes. */
  predicate WellFormed(c: Command) {
    c.Unknown? ==> c.code != CommandLedOn && c.code != CommandLedOff
  }

  /** The code byte a command carries on the wire. */
  function CodeOf(c: Command): Byte
    requires c != BadFooter
  {
    match c
    case LedOn => CommandLedOn
    case LedOff => CommandLedOff
    case Unknown(code) => code
  }

  /** Footer check, then dispatch on the code byte. */
  function Decode(buf: seq<Byte>): (c: Command)
    requires |buf| == CharacteristicLength
    ensures WellFormed(c)
    ensures c == BadFooter <==> buf[CommandFooterPosition] != CommandFooter
    ensures c != BadFooter ==> CodeOf(c) == buf[CommandDataPosition]
  {
    if buf[CommandFooterPosition] != CommandFooter then BadFooter
    else if buf[CommandDataPosition] == CommandLedOn then LedOn
    else if buf[CommandDataPosition] == CommandLedOff then LedOff
    else Unknown(buf[CommandDataPosition])
  }

  /** The bytes a Central writes to send command `c` (the inverse of `Decode`). */
  function CommandBytes(c: Command): (r: seq<Byte>)
    requires c != BadFooter
    ensures |r| == CharacteristicLength
  {
    [CodeOf(c), CommandFooter]
  }

  lemma DecodeCommandBytes(c: Command)
    requires c != BadFooter && WellFormed(c)
    ensures Decode(CommandBytes(c)) == c
  {
  }

  lemma CommandBytesDecode(buf: seq<Byte>)
    requires |buf| == CharacteristicLength && Decode(buf) != BadFooter
    ensures CommandBytes(Decode(buf)) == buf
  {
  }

  /** The response code confirming an executed command. */
  function Confirmation(c: Command): (code: Byte)
    requires c == LedOn || c == LedOff
    ensures code == CodeOf(c)
    ensures code != ResponseLedError
  {
    if c == LedOn then ResponseLedOn else ResponseLedOff
  }

  /** The value `sendBleResponse` writes: the code at the data position and the
      confirmation footer at the footer position. */
  function ResponseBytes(code: Byte): (r: seq<Byte>)
    ensures |r| == CharacteristicLength
    ensures r[ResponseDataPosition] == code
    ensures r[ResponseFooterPosition] == ResponseConfirmationFooter
    ensures r[ResponseFooterPosition] != ResponseErrorFooter
  {
    [code, ResponseConfirmationFooter]
  }

  /** The confirmation of an executed command repeats the command's own bytes,
      because the response codes and footer equal the command codes and footer. */
  lemma ConfirmationEchoesCommand(buf: seq<Byte>)
    requires |buf| == CharacteristicLength
    requires Decode(buf) == LedOn || Decode(buf) == LedOff
    ensures ResponseBytes(Confirmation(Decode(buf))) == buf
  {
  }

  /** A response is a confirmation of one of the two LED commands. */
  predicate IsConfirmation(r: seq<Byte>) {
    r == ResponseBytes(ResponseLedOn) || r == ResponseBytes(ResponseLedOff)
  }

  /** `memcpy(buf, src, count)`: the first `count` bytes come from `src`, the
      remaining bytes of `buf` keep their previous values. */
  function Overwrite(buf: seq<Byte>, src: seq<Byte>, count: nat): (r: seq<Byte>)
    requires count <= |buf| && count <= |src|
    ensures |r| == |buf|
    ensures forall i :: 0 <= i < count ==> r[i] == src[i]
    ensures forall i :: count <= i < |buf| ==> r[i] == buf[i]
  {
    src[..count] + buf[count..]
  }

  /** The byte count the write callback passes to `memcpy`:
      `sizeof(bleCommandValue) * len`, twice the written length. It fits the
      buffer only for writes of at most one byte, and it exceeds the written
      length for every non-empty write. */
  function AsWrittenCopyCount(len: nat): (n: nat)
    ensures n <= CharacteristicLength <==> len <= 1
    ensures len > 0 ==> n > len
  {
    CharacteristicLength * len
  }

  /** A copy of `count` bytes stays inside the command buffer and reads only
      `available` bytes of the source. */
  predicate CopyInBounds(count: nat, available: nat) {
    count <= CharacteristicLength && count <= available
  }

  /** The as-written copy is in bounds only for writes of at most one byte. */
  lemma AsWrittenCopyInBounds(len: nat, available: nat)
    ensures CopyInBounds(AsWrittenCopyCount(len), available)
        <==> len <= 1 && 2 * len <= available
  {
  }

  /** A normal 2-byte command write makes the as-written copy overflow the buffer. */
  lemma FullWriteOverflows()
    ensures !CopyInBounds(AsWrittenCopyCount(CharacteristicLength), CharacteristicLength)
    ensures AsWrittenCopyCount(CharacteristicLength) == 2 * CharacteristicLength
  {
  }

  /** The evidently intended count: the written length, capped at the buffer size. */
  function IntendedCopyCount(len: nat): (n: nat)
    ensures CopyInBounds(n, len)
    ensures len <= CharacteristicLength ==> n == len
    ensures len >= CharacteristicLength ==> n == CharacteristicLength
  {
    if len < CharacteristicLength then len else CharacteristicLength
  }

  /** With the intended count, a full 2-byte write replaces the whole buffer. */
  lemma IntendedFullWriteStored(buf: seq<Byte>, data: seq<Byte>)
    requires |buf| == CharacteristicLength && |data| == CharacteristicLength
    ensures Overwrite(buf, data, IntendedCopyCount(|data|)) == data
  {
  }
}
