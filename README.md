# RemoteLed command/response protocol, modelled in Dafny

The RemoteLed firmware is a BLE peripheral with one service (UUID `0x1815`).
A Central writes a 2-byte command `[code, footer]` to the command
characteristic (`0x2A56`). The write callback sets a pending flag and copies
into a global 2-byte command buffer. It copies `2 * len` bytes rather than the
`len` written bytes (see "## Findings"). Each main-loop iteration looks at
the flag. If it is set, the iteration clears it and checks that the footer byte
is 1. It then dispatches on the code byte: 1 lights the status LED (the pin is
active-low, so it is driven to 0), 2 turns it off (pin level 1), and any other
code is ignored. An executed command is confirmed by writing `[code, 1]` to the
response characteristic (`0x2A57`). A disconnection restarts advertising.

The project has four modules:

- `Protocol` (`protocol.dfy`): the wire format. It holds the constants, the pure
  `Decode` of the command buffer, the response encoding `ResponseBytes`, and the
  `memcpy` copy with its two candidate byte counts.
- `Firmware` (`firmware.dfy`): the globals as a value `State`, and each callback
  and the main-loop iteration as a function on it. The step-level properties
  are stated here.
- `Device` (`device.dfy`): the globals as the class `RemoteLed`. It has a fixed
  2-byte `array` for the command buffer, and one method per callback and per
  loop iteration. Each method is proved to implement the matching `Firmware`
  function (`ensures Model() == Step(old(Model()))` and so on). `CopyBytes` is
  `memcpy`, written as a loop over the array.
- `Traces` (`traces.dfy`): runs over a sequence of events (initialisation,
  writes, loop iterations, disconnections). It holds the properties of every
  run, proved by induction.

## Model

| member | source | states |
|---|---|---|
| `Protocol.Decode` | main.c:136-152 | The command is rejected exactly when the footer byte is not 1. Otherwise its code is the code byte, and an `Unknown` command never carries code 1 or 2. |
| `Protocol.CommandBytes` | main.c:34-40 | A command is encoded as 2 bytes. |
| `Protocol.DecodeCommandBytes` | main.c:34-40 | Decoding the wire bytes of any valid command gives that command back. |
| `Protocol.CommandBytesDecode` | main.c:34-40 | A buffer with a valid footer is exactly the wire bytes of the command it decodes to. |
| `Protocol.Confirmation` | main.c:139-147 | An executed on/off command is confirmed with its own command code, and never with the error code 0. |
| `Protocol.ResponseBytes` | main.c:211-219 | A response is 2 bytes: the code at position 0 and the confirmation footer 1 at position 1, so never the error footer 0. |
| `Protocol.ConfirmationEchoesCommand` | main.c:37-51 | The response to an executed command is byte for byte the command that was written. |
| `Protocol.Overwrite` | main.c:207 | A copy of `count` bytes puts the source's first `count` bytes in front, and the buffer's later bytes keep their old values. |
| `Protocol.AsWrittenCopyCount` | main.c:207 | The literal count `sizeof(bleCommandValue) * len` fits the 2-byte buffer exactly when `len <= 1`, and it exceeds the written length for every non-empty write. |
| `Protocol.AsWrittenCopyInBounds` | main.c:207 | The as-written copy of `2 * len` bytes stays in bounds exactly when `len <= 1` and `2 * len` bytes can be read from the data. |
| `Protocol.FullWriteOverflows` | main.c:207 | For a normal 2-byte write, the as-written copy moves 4 bytes, which is more than the 2-byte buffer holds. |
| `Protocol.IntendedCopyCount` | main.c:207 | The intended count is the written length, capped at the buffer size. It is always in bounds. |
| `Protocol.IntendedFullWriteStored` | main.c:207 | With the intended count, a 2-byte write replaces the whole buffer with the written bytes. |
| `Firmware.Boot` | main.c:10-59 | At power-on, nothing is pending, both buffers are zero, the LED pin is at level 0 and no response has been sent. |
| `Firmware.BluetoothInitialized` | main.c:160-201 | A stack error or a non-default instance changes nothing. Otherwise the device becomes ready and advertising starts once. |
| `Firmware.Store` | main.c:203-209 | A write to the command handle sets the flag and copies `count` bytes, and the bytes after them keep their old values. A write to any other handle changes nothing. |
| `Firmware.DataWritten` | main.c:203-209 | The as-written callback: a write to another handle changes nothing. A command write sets the flag and copies `2 * len` bytes of data, and buffer bytes beyond them keep their values. Nothing else changes. |
| `Firmware.IntendedDataWritten` | main.c:203-209 | With the intended count, a write to another handle changes nothing. A command write sets the flag and copies the first `min(len, 2)` written bytes, and the remaining buffer bytes keep their values; a 2-byte write leaves exactly the written bytes. Nothing else changes. |
| `Firmware.DataWrittenAsIntended` | main.c:207 | Whenever the as-written copy stays in bounds, the as-written callback equals the intended one applied to the `2 * len` bytes it copies. |
| `Firmware.Send` | main.c:211-219 | The response characteristic takes the value `[code, 1]`, and that value is appended to the responses sent. Nothing else changes. |
| `Firmware.Step` | main.c:127-154 | An iteration always clears the flag and never touches the command buffer. An idle iteration changes nothing. A response is sent exactly when a pending on/off command runs; it echoes the command and the LED takes that command's level. Otherwise the LED and the response stay as they were. |
| `Firmware.Disconnected` | main.c:222-225 | A disconnection starts advertising once more and changes nothing else. |
| `Firmware.StepLedOnCommand` | main.c:139-143 | A pending `[1, 1]` sets the LED pin to 0 and sends `[1, 1]`. |
| `Firmware.StepLedOffCommand` | main.c:144-148 | A pending `[2, 1]` sets the LED pin to 1 and sends `[2, 1]`. |
| `Firmware.StepBadFooter` | main.c:136 | When the footer is not 1, the iteration only clears the flag: there is no LED change and no response. |
| `Firmware.StepUnknownCode` | main.c:149-151 | With a valid footer and a code other than 1 or 2, the iteration only clears the flag. |
| `Firmware.RepeatedLedOn` | main.c:136-148 | Processing `[1, 1]` twice leaves the LED at the same level and sends two identical responses. The buffer stays unchanged. |
| `Firmware.EmptyWriteReplaysCommand` | main.c:205-207 | A zero-length command write copies nothing but sets the flag, so the next iteration runs the stale buffer again. |
| `Firmware.OneByteWriteReadsPastData` | main.c:207 | As written, a one-byte command write copies two bytes: the buffer becomes the first two bytes of data, and the footer is the byte after the written one. |
| `Firmware.IntendedShortWriteKeepsStaleFooter` | main.c:207 | With the intended copy count (the corrected callback), a one-byte write keeps the previous footer, so the single code byte `2` still turns the LED off. |
| `Device.CopyBytes` | main.c:207 | The in-place `memcpy` loop leaves the array equal to `Overwrite` of its old contents. |
| `Device.RemoteLed.constructor` | main.c:53-59 | The globals start in the `Boot` state, and the command buffer is a fresh 2-byte array. |
| `Device.RemoteLed.StartAdvertising` | main.c:198 | Each call to start advertising adds exactly one to the advertising-start count and changes nothing else. |
| `Device.RemoteLed.OnBluetoothInitialized` | main.c:160-201 | The two early returns and the registration implement `BluetoothInitialized`. |
| `Device.RemoteLed.OnDataWritten` | main.c:203-209 | It uses the literal copy count `sizeof(bleCommandValue) * len`, so its precondition admits a command write only when `len <= 1`. The new state is `DataWritten` of the old one. |
| `Device.RemoteLed.SendResponse` | main.c:211-220 | The local value is filled position by position and written, which implements `Send`. |
| `Device.RemoteLed.LoopIteration` | main.c:127-154 | The flag test, footer check and code switch implement `Step`. |
| `Device.RemoteLed.OnCentralDisconnected` | main.c:222-225 | It implements `Disconnected`. |
| `Traces.Apply` | main.c:180-183 | Before a successful initialisation, writes and disconnections reach no callback and change nothing. |
| `Traces.Run` | main.c:126-156 | Runs any sequence of events. Responses are only ever appended, never retracted. |
| `Traces.RunBeforeReady` | main.c:180-183 | Any run of writes and disconnections before a successful initialisation leaves the state unchanged. |
| `Traces.ApplyConsistent` | main.c:136-148 | Every event keeps the state consistent: all responses are confirmations, the characteristic holds the last one, and the LED is at that confirmation's level. |
| `Traces.RunConsistent` | main.c:136-148 | Every run from a consistent state keeps it consistent. |
| `Traces.NoErrorResponse` | main.c:46-51 | In every run from power-on, each response sent has footer 1 and a code other than the error code 0. |
| `Traces.RunAdvertisingStarts` | main.c:222-225 | Advertising starts exactly once per disconnection delivered after a successful initialisation and once per successful initialisation, and nothing else starts it. |
| `Traces.RunWithoutCommandWrites` | main.c:127-128 | With nothing pending and no command write, no run changes the LED, the buffer or the responses. |
| `Traces.OnThenOff` | main.c:139-147 | After initialisation, writing `[1, 1]` then `[2, 1]`, each followed by an iteration, drives the LED to 0 and then 1. The responses are `[1, 1]` then `[2, 1]`, and advertising has started once. |

The LED pin is initialised to level 0 (main.c:10). Because the pin is
active-low, the LED is lit from power-on, before any command arrives. The
model follows the code: `Boot` has `led == 0`, and in `OnThenOff` the LED
levels are 0, 0, 1 (lit, lit, off) rather than off, on, off.

## Left out

- UART logging (`serial.baud`, `serial.printf`) is diagnostic output with no effect on the protocol.
- BLE stack setup inside `onBluetoothInitialized` is not modelled: adding the service, the advertising payload (flags, name `RemoteLed`, the service UUID list), the advertising type and the 1000 ms interval. These are vendor library calls. Only the two early returns, a `ready` flag and the advertising-start counter remain.
- The GATT characteristic and service objects are reduced to two distinct integer value handles. The vendor stack's storage of the response value is reduced to the field `responseValue`.
- Hardware and blocking behaviour are not modelled: the busy wait on `hasInitialized`, the endless `while (1)` and `waitForEvent`. One main-loop iteration is one call of `LoopIteration` (`Step`). A run is a finite sequence of events.
- Concurrency is not modelled. Callbacks run to completion inside `waitForEvent`, so callbacks and iterations are sequential calls.
- Device.RemoteLed.OnDataWritten: what the source does once `memcpy` goes out of bounds is not modelled. That covers writing past the 2-byte buffer and reading past what the data pointer can supply, which is undefined behaviour in C. The precondition excludes those calls instead of giving them a meaning. It still admits `len = 1` with two readable bytes; the model then copies the byte after the written one as the footer (`OneByteWriteReadsPastData`).
- Traces.Run: write events use the intended copy count (`IntendedDataWritten`), not the as-written count. The as-written callback is modelled by `DataWritten` and `RemoteLed.OnDataWritten`. `DataWrittenAsIntended` carries the trace results over to every as-written write whose copy stays in bounds.
- Device.RemoteLed.OnDataWritten and OnCentralDisconnected do not require `ready`: they model the callback bodies. That the stack delivers them only after a successful initialisation is modelled in `Traces.Apply`.
- The record of sent responses (`sent`) is ghost state. The firmware keeps no history; only the characteristic's current value is real.

## Findings

| source | as written | input that shows it | evidently intended | confidence | as-written member | corrected member |
|---|---|---|---|---|---|---|
| main.c:207 | `memcpy(bleCommandValue, data, sizeof(bleCommandValue) * len)` copies `2 * len` bytes into the 2-byte command buffer and reads `2 * len` bytes of written data | a normal 2-byte command write `[1, 1]` (`len = 2`) copies 4 bytes: 2 past the end of the buffer, read from 2 bytes past the written data; with `len = 1` the footer comes from the byte after the written one | copy the `len` written bytes, at most the buffer's 2 (`IntendedCopyCount`), so a 2-byte write replaces the buffer exactly | high for the count; not executed | `Protocol.FullWriteOverflows` | `Protocol.IntendedFullWriteStored` |
