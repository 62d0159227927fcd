/** The firmware's state and its transitions, as functions on values. Each
    transition is what one callback or one main-loop iteration does to the
    globals; the class in `Device` is proved to implement them. */
module Firmware {
  import opened Protocol

  /** Output level of the status LED pin. The LED is active-low. */
  type Level = l: int | 0 <= l <= 1

  const LedOnLevel: Level := 0
  const LedOffLevel: Level := 1

  /** Everything the protocol reads or writes.
      - `dataWritten`: a command is pending (`bleDataWritten`);
      - `command`: the command buffer (`bleCommandValue`);
      - `led`: the level last written to the status LED pin;
      - `response`: the current value of the response characteristic;
      - `sent`: every response value written so far, oldest first;
      - `ready`: the service and callbacks were registered;
      - `advertisingStarts`: how many times advertising was (re)started. */
  datatype State = State(
    dataWritten: bool,
    command: seq<Byte>,
    led: Level,
    response: seq<Byte>,
    sent: seq<seq<Byte>>,
    ready: bool,
    advertisingStarts: nat)

  ghost predicate Valid(s: State) {
    |s.command| == CharacteristicLength && |s.response| == CharacteristicLength
  }

  /** Power-on state: zeroed buffers, LED pin at level 0, nothing pending. */
  function Boot(): (s: State)
    ensures Valid(s)
    ensures !s.dataWritten && s.sent == [] && !s.ready && s.advertisingStarts == 0
    ensures s.command == [0, 0] && s.response == [0, 0] && s.led == 0
  {
    State(false, [0, 0], 0, [0, 0], [], false, 0)
  }

  /** The initialisation callback: gives up on a stack error or on a
      non-default instance, otherwise registers the service and callbacks and
      starts advertising. */
  function BluetoothInitialized(s: State, initOk: bool, isDefaultInstance: bool): (t: State)
    ensures t.ready <==> s.ready || (initOk && isDefaultInstance)
    ensures t.advertisingStarts == s.advertisingStarts + (if initOk && isDefaultInstance then 1 else 0)
    ensures t.(ready := s.ready, advertisingStarts := s.advertisingStarts) == s
  {
    if !initOk || !isDefaultInstance then s
    else s.(ready := true, advertisingStarts := s.advertisingStarts + 1)
  }

  /** A write reaching the write callback: when it targets the command
      characteristic, the pending flag is set and `count` bytes of `data` are
      copied into the command buffer; any other write is ignored. */
  function Store(s: State, toCommand: bool, data: seq<Byte>, count: nat): (t: State)
    requires Valid(s)
    requires toCommand ==> CopyInBounds(count, |data|)
    ensures Valid(t)
    ensures !toCommand ==> t == s
    ensures toCommand ==> t.dataWritten
    ensures toCommand ==> forall i :: 0 <= i < count ==> t.command[i] == data[i]
    ensures forall i :: count <= i < CharacteristicLength ==> t.command[i] == s.command[i]
    ensures t.(dataWritten := s.dataWritten, command := s.command) == s
  {
    if toCommand then s.(dataWritten := true, command := Overwrite(s.command, data, count))
    else s
  }

  /** The write callback as written: `len` bytes were written, `data` is what
      can be read from the callback's data pointer, and the copy count is
      `AsWrittenCopyCount(len)`. */
  function DataWritten(s: State, toCommand: bool, data: seq<Byte>, len: nat): (t: State)
    requires Valid(s)
    requires toCommand ==> CopyInBounds(AsWrittenCopyCount(len), |data|)
    ensures Valid(t)
    ensures !toCommand ==> t == s
    ensures toCommand ==> t.dataWritten
    ensures toCommand ==> forall i :: 0 <= i < 2 * len ==> t.command[i] == data[i]
    ensures forall i :: 2 * len <= i < CharacteristicLength ==> t.command[i] == s.command[i]
    ensures t.(dataWritten := s.dataWritten, command := s.command) == s
  {
    Store(s, toCommand, data, AsWrittenCopyCount(len))
  }

  /** The write callback with the intended copy count: `data` is exactly the
      written value. */
  function IntendedDataWritten(s: State, toCommand: bool, data: seq<Byte>): (t: State)
    requires Valid(s)
    ensures Valid(t)
    ensures !toCommand ==> t == s
    ensures toCommand ==> t.dataWritten
    ensures toCommand ==> forall i :: 0 <= i < IntendedCopyCount(|data|) ==> t.command[i] == data[i]
    ensures forall i :: IntendedCopyCount(|data|) <= i < CharacteristicLength ==> t.command[i] == s.command[i]
    ensures toCommand && |data| == CharacteristicLength ==> t.command == data
    ensures t.(dataWritten := s.dataWritten, command := s.command) == s
  {
    if toCommand && |data| == CharacteristicLength then
      IntendedFullWriteStored(s.command, data);
      Store(s, toCommand, data, IntendedCopyCount(|data|))
    else
      Store(s, toCommand, data, IntendedCopyCount(|data|))
  }

  /** `sendBleResponse(code)`: the response characteristic takes the value
      `[code, confirmation footer]`. */
  function Send(s: State, code: Byte): (t: State)
    ensures t.response == ResponseBytes(code)
    ensures t.sent == s.sent + [ResponseBytes(code)]
    ensures t.(response := s.response, sent := s.sent) == s
  {
    s.(response := ResponseBytes(code), sent := s.sent + [ResponseBytes(code)])
  }

  /** The level the LED pin is driven to for an executed command. */
  function LevelFor(c: Command): Level
    requires c == LedOn || c == LedOff
  {
    if c == LedOn then LedOnLevel else LedOffLevel
  }

  /** One iteration of the main loop, up to the wait for the next event. */
  function Step(s: State): (t: State)
    requires Valid(s)
    ensures Valid(t)
    ensures !t.dataWritten
    ensures !s.dataWritten ==> t == s
    ensures t.command == s.command && t.ready == s.ready
    ensures t.advertisingStarts == s.advertisingStarts
    // A response is sent exactly when a pending LED command is executed ...
    ensures t.sent != s.sent <==> s.dataWritten && (Decode(s.command) == LedOn || Decode(s.command) == LedOff)
    // ... and it then echoes the command, and the LED follows the command.
    ensures t.sent != s.sent ==>
              t.sent == s.sent + [s.command] && t.response == s.command
              && t.led == LevelFor(Decode(s.command))
    // Otherwise the LED and the response characteristic are left alone.
    ensures t.sent == s.sent ==> t.led == s.led && t.response == s.response
  {
    if !s.dataWritten then s
    else
      var cleared := s.(dataWritten := false);
      var c := Decode(s.command);
      if c == LedOn || c == LedOff then
        ConfirmationEchoesCommand(s.command);
        Send(cleared.(led := LevelFor(c)), Confirmation(c))
      else
        cleared
  }

  /** The disconnection callback restarts advertising. */
  function Disconnected(s: State): (t: State)
    ensures t.advertisingStarts == s.advertisingStarts + 1
    ensures t.(advertisingStarts := s.advertisingStarts) == s
  {
    s.(advertisingStarts := s.advertisingStarts + 1)
  }

  /** The pending command `[1, 1]` turns the LED on and is confirmed with `[1, 1]`. */
  lemma StepLedOnCommand(s: State)
    requires Valid(s) && s.dataWritten
    requires s.command == [CommandLedOn, CommandFooter]
    ensures Step(s).led == LedOnLevel
    ensures Step(s).response == [ResponseLedOn, ResponseConfirmationFooter]
    ensures Step(s).sent == s.sent + [[ResponseLedOn, ResponseConfirmationFooter]]
  {
  }

  /** The pending command `[2, 1]` turns the LED off and is confirmed with `[2, 1]`. */
  lemma StepLedOffCommand(s: State)
    requires Valid(s) && s.dataWritten
    requires s.command == [CommandLedOff, CommandFooter]
    ensures Step(s).led == LedOffLevel
    ensures Step(s).response == [ResponseLedOff, ResponseConfirmationFooter]
    ensures Step(s).sent == s.sent + [[ResponseLedOff, ResponseConfirmationFooter]]
  {
  }

  /** A pending command with a wrong footer only clears the flag. */
  lemma StepBadFooter(s: State)
    requires Valid(s) && s.command[CommandFooterPosition] != CommandFooter
    ensures Step(s) == s.(dataWritten := false)
  {
  }

  /** A pending command with a valid footer and an unknown code only clears the flag. */
  lemma StepUnknownCode(s: State)
    requires Valid(s) && s.command[CommandFooterPosition] == CommandFooter
    requires s.command[CommandDataPosition] != CommandLedOn
    requires s.command[CommandDataPosition] != CommandLedOff
    ensures Step(s) == s.(dataWritten := false)
  {
  }

  /** Processing `[1, 1]` a second time, after the Central writes it again,
      leaves the LED where the first left it and sends the same confirmation. */
  lemma RepeatedLedOn(s: State)
    requires Valid(s) && s.dataWritten
    requires s.command == [CommandLedOn, CommandFooter]
    ensures var first := Step(s);
            var second := Step(IntendedDataWritten(first, true, s.command));
            second.led == first.led == LedOnLevel
            && second.sent == s.sent + [s.command, s.command]
            && second.command == first.command == s.command
  {
  }

  /** As written, a zero-length write to the command characteristic copies
      nothing but still sets the flag, so the next iteration executes the stale
      buffer again. */
  lemma EmptyWriteReplaysCommand(s: State, data: seq<Byte>)
    requires Valid(s)
    ensures CopyInBounds(AsWrittenCopyCount(0), |data|)
    ensures DataWritten(s, true, data, 0) == s.(dataWritten := true)
    ensures Step(DataWritten(s, true, data, 0)) == Step(s.(dataWritten := true))
  {
  }

  /** Whenever the as-written copy stays in bounds, the as-written callback
      behaves as the intended one given the `2 * len` bytes it actually copies. */
  lemma DataWrittenAsIntended(s: State, toCommand: bool, data: seq<Byte>, len: nat)
    requires Valid(s)
    requires CopyInBounds(AsWrittenCopyCount(len), |data|)
    ensures DataWritten(s, toCommand, data, len)
         == IntendedDataWritten(s, toCommand, data[..AsWrittenCopyCount(len)])
  {
  }

  /** As written, a one-byte write copies two bytes: the footer becomes the
      byte after the written one, whatever the buffer held before. */
  lemma OneByteWriteReadsPastData(s: State, data: seq<Byte>)
    requires Valid(s) && |data| >= CharacteristicLength
    ensures CopyInBounds(AsWrittenCopyCount(1), |data|)
    ensures DataWritten(s, true, data, 1).command == data[..CharacteristicLength]
    ensures DataWritten(s, true, data, 1).command[CommandFooterPosition] == data[1]
  {
    var t := DataWritten(s, true, data, 1);
    assert t.command == [t.command[0], t.command[1]];
  }

  /** With the intended copy count, a one-byte write replaces the code and keeps
      the previous footer, so a stale valid footer lets the single code byte act
      as a whole command. */
  lemma IntendedShortWriteKeepsStaleFooter(s: State, code: Byte)
    requires Valid(s) && s.command[CommandFooterPosition] == CommandFooter
    requires code == CommandLedOff
    ensures IntendedDataWritten(s, true, [code]).command == [code, CommandFooter]
    ensures Step(IntendedDataWritten(s, true, [code])).led == LedOffLevel
  {
  }
}
