/** The firmware's globals and the callbacks and main-loop iteration that
    update them in place. Each method is proved to implement the matching
    transition of `Firmware`. */
module Device {
  import opened Protocol
  import opened Firmware

  /** `memcpy(dst, src, count)`: copies the first `count` bytes of `src` into `dst`. */
  method CopyBytes(dst: array<Byte>, src: seq<Byte>, count: nat)
    requires count <= dst.Length && count <= |src|
    modifies dst
    ensures dst[..] == Overwrite(old(dst[..]), src, count)
  {
    var i := 0;
    while i < count
      invariant 0 <= i <= count
      invariant forall k :: 0 <= k < i ==> dst[k] == src[k]
      invariant forall k :: i <= k < dst.Length ==> dst[k] == old(dst[k])
    {
      dst[i] := src[i];
      i := i + 1;
    }
  }

  class RemoteLed {
    /** Value handles of the command and response characteristics. */
    const commandHandle: int
    const responseHandle: int

    /** `bleDataWritten`: a command is waiting for the main loop. */
    var dataWritten: bool
    /** `bleCommandValue`: the last command copied in by the write callback. */
    const commandValue: array<Byte>
    /** Level last written to the status LED pin (0 lights it). */
    var statusLed: Level
    /** Current value of the response characteristic. */
    var responseValue: seq<Byte>
    /** Every value written to the response characteristic, oldest first. */
    ghost var sent: seq<seq<Byte>>
    /** The service is added and the write and disconnection callbacks attached. */
    var ready: bool
    /** Number of calls that started advertising. */
    var advertisingStarts: nat

    ghost predicate Valid()
      reads this, commandValue
    {
      commandHandle != responseHandle
      && commandValue.Length == CharacteristicLength
      && |responseValue| == CharacteristicLength
    }

    /** The globals as a `Firmware.State`. */
    ghost function Model(): State
      reads this, commandValue
    {
      State(dataWritten, commandValue[..], statusLed, responseValue, sent, ready, advertisingStarts)
    }

    /** Static initialisation of the globals and characteristic values. */
    constructor (commandHandle: int, responseHandle: int)
      requires commandHandle != responseHandle
      ensures Valid() && fresh(commandValue)
      ensures this.commandHandle == commandHandle && this.responseHandle == responseHandle
      ensures Model() == Boot()
    {
      this.commandHandle := commandHandle;
      this.responseHandle := responseHandle;
      dataWritten := false;
      var buffer := new Byte[CharacteristicLength](_ => 0);
      commandValue := buffer;
      statusLed := 0;
      responseValue := [0, 0];
      sent := [];
      ready := false;
      advertisingStarts := 0;
      assert buffer[..] == [0, 0];
    }

    /** Asks the stack to (re)start advertising. */
    method StartAdvertising()
      modifies this`advertisingStarts
      ensures advertisingStarts == old(advertisingStarts) + 1
    {
      advertisingStarts := advertisingStarts + 1;
    }

    /** `onBluetoothInitialized`: `initOk` is "the stack reported no error",
        `isDefaultInstance` is "the instance is the default one". */
    method OnBluetoothInitialized(initOk: bool, isDefaultInstance: bool)
      requires Valid()
      modifies this
      ensures Valid()
      ensures Model() == BluetoothInitialized(old(Model()), initOk, isDefaultInstance)
    {
      if !initOk {
        return;
      }
      if !isDefaultInstance {
        return;
      }
      ready := true;
      StartAdvertising();
    }

    /** `onDataWrittenCallback`: `len` bytes were written to the characteristic
        with value handle `handle`, and `data` is what can be read from the
        callback's data pointer. The copy count is the source's own
        `sizeof(bleCommandValue) * len`, so a write to the command
        characteristic stays in bounds only when `len <= 1`. */
    method OnDataWritten(handle: int, data: seq<Byte>, len: nat)
      requires Valid()
      requires handle == commandHandle ==> CopyInBounds(AsWrittenCopyCount(len), |data|)
      modifies this, commandValue
      ensures Valid()
      ensures Model() == DataWritten(old(Model()), handle == commandHandle, data, len)
    {
      if handle == commandHandle {
        dataWritten := true;
        CopyBytes(commandValue, data, AsWrittenCopyCount(len));
      }
    }

    /** `sendBleResponse`: fills a local 2-byte value and writes it to the
        response characteristic. */
    method SendResponse(ledState: Byte)
      requires Valid()
      modifies this
      ensures Valid()
      ensures Model() == Send(old(Model()), ledState)
    {
      var value := new Byte[CharacteristicLength];
      value[ResponseFooterPosition] := ResponseConfirmationFooter;
      value[ResponseDataPosition] := ledState;
      assert value[..] == ResponseBytes(ledState);
      responseValue := value[..];
      sent := sent + [value[..]];
    }

    /** One iteration of the main loop, up to `waitForEvent`. */
    method LoopIteration()
      requires Valid()
      modifies this
      ensures Valid()
      ensures Model() == Step(old(Model()))
    {
      if dataWritten {
        dataWritten := false;
        if commandValue[CommandFooterPosition] == CommandFooter {
          var code := commandValue[CommandDataPosition];
          if code == CommandLedOn {
            statusLed := LedOnLevel;
            SendResponse(ResponseLedOn);
          } else if code == CommandLedOff {
            statusLed := LedOffLevel;
            SendResponse(ResponseLedOff);
          }
          // Any other code is an unknown command and is ignored.
        }
      }
    }

    /** `onCentralDisconnected`: restarts advertising. */
    method OnCentralDisconnected()
      requires Valid()
      modifies this
      ensures Valid()
      ensures Model() == Disconnected(old(Model()))
    {
      StartAdvertising();
    }
  }
}
