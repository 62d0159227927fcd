/** Runs of the firmware over a sequence of events delivered by the BLE stack,
    interleaved with main-loop iterations, and the properties that hold of
    every run. Writes use the intended copy count (`IntendedDataWritten`).
    The write and disconnection callbacks are attached only by a successful
    initialisation, so before it those events reach no firmware code. */
module Traces {
  import opened Protocol
  import opened Firmware

  datatype Event =
    | BluetoothReady(initOk: bool, isDefaultInstance: bool)
    | Written(handle: int, data: seq<Byte>)
    | LoopIteration
    | CentralDisconnected

  /** The effect of one event; `commandHandle` is the command characteristic's value handle. */
  function Apply(s: State, commandHandle: int, e: Event): (t: State)
    requires Valid(s)
    ensures Valid(t)
    ensures !s.ready && (e.Written? || e.CentralDisconnected?) ==> t == s
  {
    match e
    case BluetoothReady(ok, isDefault) => BluetoothInitialized(s, ok, isDefault)
    case Written(handle, data) =>
      if s.ready then IntendedDataWritten(s, handle == commandHandle, data) else s
    case LoopIteration => Step(s)
    case CentralDisconnected => if s.ready then Disconnected(s) else s
  }

  /** The state after the events `evs`, in order. Responses are only ever
      appended. */
  function Run(s: State, commandHandle: int, evs: seq<Event>): (t: State)
    requires Valid(s)
    ensures Valid(t)
    ensures |s.sent| <= |t.sent| && t.sent[..|s.sent|] == s.sent
    decreases |evs|
  {
    if evs == [] then s
    else Run(Apply(s, commandHandle, evs[0]), commandHandle, evs[1..])
  }

  /** Every response sent is a confirmation, the response characteristic holds
      the last one, and the LED is at the level that confirmation announced. */
  ghost predicate Consistent(s: State) {
    && Valid(s)
    && (forall i :: 0 <= i < |s.sent| ==> IsConfirmation(s.sent[i]))
    && (|s.sent| > 0 ==>
          && s.response == s.sent[|s.sent| - 1]
          && s.led == (if s.response[ResponseDataPosition] == ResponseLedOn then LedOnLevel else LedOffLevel))
  }

  lemma BootConsistent()
    ensures Consistent(Boot())
  {
  }

  lemma ApplyConsistent(s: State, commandHandle: int, e: Event)
    requires Consistent(s)
    ensures Consistent(Apply(s, commandHandle, e))
  {
  }

  /** Every run keeps the state consistent. */
  lemma {:induction false} RunConsistent(s: State, commandHandle: int, evs: seq<Event>)
    requires Consistent(s)
    ensures Consistent(Run(s, commandHandle, evs))
    decreases |evs|
  {
    if evs != [] {
      ApplyConsistent(s, commandHandle, evs[0]);
      RunConsistent(Apply(s, commandHandle, evs[0]), commandHandle, evs[1..]);
    }
  }

  /** Neither the error footer nor the error code is ever sent. */
  lemma NoErrorResponse(commandHandle: int, evs: seq<Event>, i: nat)
    requires i < |Run(Boot(), commandHandle, evs).sent|
    ensures var r := Run(Boot(), commandHandle, evs).sent[i];
            |r| == CharacteristicLength
            && r[ResponseFooterPosition] == ResponseConfirmationFooter != ResponseErrorFooter
            && r[ResponseDataPosition] != ResponseLedError
  {
    BootConsistent();
    RunConsistent(Boot(), commandHandle, evs);
  }

  /** Number of events in `evs` that start advertising, when the callbacks are
      already attached (`ready`) or not: every successful initialisation, and
      every disconnection once some initialisation has succeeded. */
  function AdvertisingRequests(ready: bool, evs: seq<Event>): nat
    decreases |evs|
  {
    if evs == [] then 0
    else match evs[0]
      case CentralDisconnected => (if ready then 1 else 0) + AdvertisingRequests(ready, evs[1..])
      case BluetoothReady(ok, isDefault) =>
        (if ok && isDefault then 1 else 0) + AdvertisingRequests(ready || (ok && isDefault), evs[1..])
      case _ => AdvertisingRequests(ready, evs[1..])
  }

  /** Advertising is restarted exactly once per delivered disconnection (and
      started once per successful initialisation), and by nothing else. */
  lemma {:induction false} RunAdvertisingStarts(s: State, commandHandle: int, evs: seq<Event>)
    requires Valid(s)
    ensures Run(s, commandHandle, evs).advertisingStarts
         == s.advertisingStarts + AdvertisingRequests(s.ready, evs)
    decreases |evs|
  {
    if evs != [] {
      RunAdvertisingStarts(Apply(s, commandHandle, evs[0]), commandHandle, evs[1..]);
    }
  }

  /** Before a successful initialisation no write reaches the firmware, so a
      run of writes and disconnections changes nothing. */
  lemma {:induction false} RunBeforeReady(s: State, commandHandle: int, evs: seq<Event>)
    requires Valid(s) && !s.ready
    requires forall i :: 0 <= i < |evs| ==> evs[i].Written? || evs[i].CentralDisconnected?
    ensures Run(s, commandHandle, evs) == s
    decreases |evs|
  {
    if evs != [] {
      assert evs[0].Written? || evs[0].CentralDisconnected?;
      assert forall i :: 0 <= i < |evs[1..]| ==> evs[1..][i] == evs[i + 1];
      RunBeforeReady(Apply(s, commandHandle, evs[0]), commandHandle, evs[1..]);
    }
  }

  /** No event in `evs` is a write to the command characteristic. */
  predicate NoCommandWrites(commandHandle: int, evs: seq<Event>) {
    forall i :: 0 <= i < |evs| ==> !(evs[i].Written? && evs[i].handle == commandHandle)
  }

  /** Without a command write, nothing is pending, so the LED, the command
      buffer and the responses never change. */
  lemma {:induction false} RunWithoutCommandWrites(s: State, commandHandle: int, evs: seq<Event>)
    requires Valid(s) && !s.dataWritten
    requires NoCommandWrites(commandHandle, evs)
    ensures var t := Run(s, commandHandle, evs);
            !t.dataWritten && t.led == s.led && t.command == s.command
            && t.response == s.response && t.sent == s.sent
    decreases |evs|
  {
    if evs != [] {
      assert !(evs[0].Written? && evs[0].handle == commandHandle);
      assert NoCommandWrites(commandHandle, evs[1..]) by {
        forall i | 0 <= i < |evs[1..]|
          ensures !(evs[1..][i].Written? && evs[1..][i].handle == commandHandle)
        {
          assert evs[1..][i] == evs[i + 1];
        }
      }
      RunWithoutCommandWrites(Apply(s, commandHandle, evs[0]), commandHandle, evs[1..]);
    }
  }

  /** Writing `[1, 1]` then `[2, 1]`, each followed by a loop iteration, after a
      successful initialisation: the LED goes to level 0 then 1 and the Central
      receives `[1, 1]` then `[2, 1]`. */
  lemma OnThenOff(commandHandle: int)
    ensures var evs := [BluetoothReady(true, true),
                        Written(commandHandle, [CommandLedOn, CommandFooter]), LoopIteration];
            var afterOn := Run(Boot(), commandHandle, evs);
            var afterOff := Run(afterOn, commandHandle,
                                [Written(commandHandle, [CommandLedOff, CommandFooter]), LoopIteration]);
            && afterOn.led == LedOnLevel
            && afterOff.led == LedOffLevel
            && afterOff.sent == [[ResponseLedOn, ResponseConfirmationFooter],
                                 [ResponseLedOff, ResponseConfirmationFooter]]
            && afterOff.advertisingStarts == 1
  {
    var h := commandHandle;
    var s0 := Boot();
    var s1 := Apply(s0, h, BluetoothReady(true, true));
    var s2 := Apply(s1, h, Written(h, [CommandLedOn, CommandFooter]));
    var s3 := Apply(s2, h, LoopIteration);
    var on := [BluetoothReady(true, true), Written(h, [CommandLedOn, CommandFooter]), LoopIteration];
    assert on[1..] == [Written(h, [CommandLedOn, CommandFooter]), LoopIteration];
    assert on[1..][1..] == [LoopIteration];
    assert Run(s0, h, on) == Run(s1, h, on[1..]) == Run(s2, h, [LoopIteration]) == Run(s3, h, []);
    var s4 := Apply(s3, h, Written(h, [CommandLedOff, CommandFooter]));
    var s5 := Apply(s4, h, LoopIteration);
    var off := [Written(h, [CommandLedOff, CommandFooter]), LoopIteration];
    assert off[1..] == [LoopIteration];
    assert Run(s3, h, off) == Run(s4, h, [LoopIteration]) == Run(s5, h, []);
  }
}
