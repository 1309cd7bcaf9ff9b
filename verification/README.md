# wccontrol in Dafny

wccontrol switches Watts Clever smart power sockets on and off from a
Raspberry Pi. It drives a radio transmitter wired to one GPIO pin by toggling the pin in software.
The model has one module for each part of the program:

- **Protocol** (`protocol.dfy`) is the frame encoder. A command (group,
  on/off, address) becomes the string `PROTOCOL.format(group, 0 if on else 1,
  address)`. That string is:
  - the preamble `0011010011`;
  - the group in a 10-wide binary field;
  - one value symbol, `0` for on and `1` for off;
  - the address in a 3-wide binary field;
  - a stop symbol `1`.

  `Format` models Python's `'{:0wb}'` exactly: an optional minus sign, then zero
  padding, then the binary digits, at least `w` symbols in all and never
  truncated. `Decode` is a reference receiver that the encoder is proved
  against.
- **Timing** (`timing.dfy`) is the bit-timing table `DELAYS` and the
  inter-frame gap `MSGGAP`, in integer microseconds.
- **Pulses** (`pulses.dfy`) defines the events a trace is made of:
  `Configure` and `SetupOutput(pin)` (logged by `_WCcontrol.__init__`),
  `Out(pin, level)` and `Hold(us)`. A `set` call emits only `Out` and `Hold`
  events. `Transmission` is the specification of a whole `set` call, and
  `Demodulate` is a reference receiver for the pulse train.
- **Control** (`control.dfy`) holds the imperative side:
  - `Board` is the GPIO pin, as an event log that the hardware calls append to;
  - `Switch` is `_WCcontrol`, and its `Set` is the nested retry and symbol loop;
  - `Registry` is the lazily filled pin-to-instance dictionary behind `WCcontrol()`.
- **Batch** (`batch.dfy`) is the group × address loop of `main`, with its 0.2 s
  pause after every pair that differs from the last pair.

The frame is 25 symbols long: 10 + 10 + 1 + 3 + 1, as the format string at
wccontrol.py:14 gives it.

Group and address are modelled as unbounded integers, because the command
line's `int()` accepts any integer.
- A group or address that is too large widens the frame.
- A negative one puts a `-` into the frame.
- `set` sends every symbol other than `1` with the timing of a `0`. So the
  frame of group −g (0 < g < 512) is a different string from the frame of g,
  yet it produces exactly the same pulses.

## Model

| member | source | states |
|---|---|---|
| Protocol.Format | wccontrol.py:14 | `'{:0wb}'.format(n)`: sign, zero padding, binary digits. Its own contract: never shorter than w. Characterised by `FormatPadsOnly` (n ≥ 0) and `FormatNegative` (n < 0). |
| Protocol.Frame | wccontrol.py:14 | `PROTOCOL.format(group, 0 if on else 1, address)`. Its own contract: at least 25 symbols, ending in the stop symbol `1`. Characterised by `FrameLayout`, `FrameFields`, `FrameWellFormedIff`, `FrameNeverTruncates` and the round trips `DecodeFrame`/`FrameOfDecode`. |
| Protocol.FrameFields | wccontrol.py:14 | For any integers, the frame is 12 symbols plus its two fields, with the group field at offset 10 and the address field just before the stop symbol. |
| Protocol.FormatPadsOnly | wccontrol.py:14 | For n ≥ 0, `{:0wb}` yields only binary digits and at least w of them. They read back as n. The length is exactly w iff n < 2^w, and in that case the field is the w-bit big-endian form of n. |
| Protocol.FormatNegative | wccontrol.py:14 | A negative number's field starts with `-`, is at least w long, and continues with the (w−1)-wide field of its magnitude. |
| Protocol.ValueField | wccontrol.py:53 | The value field is the single symbol `0` when on and `1` when off: the polarity is inverted. |
| Protocol.FrameLayout | wccontrol.py:14 | For group < 1024 and address < 8 (both ≥ 0), the frame is the preamble + 10-bit group + value symbol + 3-bit address + `1`, 25 symbols in all. |
| Protocol.Decode | wccontrol.py:14 | The reference receiver accepts a string iff it is 25 binary symbols with the preamble and the stop bit. What it accepts always has fields in range. |
| Protocol.DecodeFrame | wccontrol.py:14 | Round trip: decoding the frame of an in-range command gives back group, on/off and address. |
| Protocol.FrameOfDecode | wccontrol.py:14 | Inverse round trip: every string the receiver accepts is the frame of the command it decodes to. |
| Protocol.FrameInjective | wccontrol.py:14 | Two in-range commands with the same frame are the same command. |
| Protocol.FrameWellFormedIff | wccontrol.py:14 | The frame is 25 binary symbols iff group and address fit their fields. This holds for every integer input. |
| Protocol.FrameNeverTruncates | wccontrol.py:14 | For non-negative inputs, the frame is at least 25 long and exactly 25 iff both fields fit. The group and address fields read back as the inputs at any size. |
| Protocol.NegativeGroupFrame | wccontrol.py:14 | The frame of group −g (0 < g < 512) is 25 long and differs from that of g only at position 10, which holds `-` instead of `0`. |
| Timing.Delay | wccontrol.py:21-29 | Bit 0 holds (858, 170) µs and bit 1 holds (327, 701) µs. Both phases are positive, high + low = 1188 − 2·80 = 1028 for both bits, and a 1 is the bit with the shorter high phase. |
| Pulses.BitPulse | wccontrol.py:56-60 | The four calls of one symbol: output 1, a hold, output 0, a hold. The two holds sum to 1028 µs, and the high hold is the shorter exactly when the symbol is `1`. |
| Pulses.Burst | wccontrol.py:55-62 | One pass of the retry loop: 4 events per symbol, then the final hold of `MSGGAP` (wccontrol.py:32, `Timing.MsgGap` = 20·1000 − 80 = 19920 µs). |
| Pulses.Transmission | wccontrol.py:54-62 | `retries` bursts, none for retries ≤ 0: the specification of `set`. Characterised by `TransmissionLength`, `TransmissionAt`, `TransmissionEndsWithGap` and `TransmissionHoldTime`. |
| Pulses.HoldTime | wccontrol.py:58-62 | The sum of all `sleep` durations in a trace. Additive over concatenation (`HoldTimeAppend`). |
| Pulses.HoldTimeAppend | wccontrol.py:58-62 | The time slept over two traces in a row is the sum of the two. |
| Pulses.FramePulses | wccontrol.py:55-60 | The pulses of a frame are four events per symbol. |
| Pulses.FramePulsesAt | wccontrol.py:55-60 | The events of symbol k are, at offset 4k: output 1, hold the high time, output 0, hold the low time, with the timing picked by `b == '1'`. |
| Pulses.FramePulsesHoldTime | wccontrol.py:55-60 | The pulses of a frame hold the pin for 1028 µs per symbol. |
| Pulses.DemodulatePulses | wccontrol.py:56 | Reading the pulses back gives each symbol as `1` if it was `1` and as `0` otherwise. |
| Pulses.DemodulateFrame | wccontrol.py:55-60 | For a binary frame, the pulse train reads back as the frame itself. |
| Pulses.TransmissionLength | wccontrol.py:54-62 | `set` with r retries emits max(r, 0)·(4·len(frame) + 1) events. Zero retries emit nothing. |
| Pulses.TransmissionAt | wccontrol.py:54-62 | Event j of retry i sits at index i·len(burst) + j and equals event j of the single burst: every retry repeats the same block. |
| Pulses.TransmissionEndsWithGap | wccontrol.py:62 | With at least one retry, the last event is the 19920 µs gap, so the gap follows the final frame as well. |
| Pulses.TransmissionHoldTime | wccontrol.py:54-62 | The total hold time is max(r, 0)·(len(frame)·1028 + 19920) µs. |
| Pulses.FrameTransmissionTime | wccontrol.py:50-62 | For an in-range command, `set` holds the pin for retries · 45620 µs in all (25·1028 + 19920 per retry). |
| Pulses.NegativeGroupAliases | wccontrol.py:53-56 | Groups −g and g (0 < g < 512) give different frames but identical transmissions. |
| Control.Switch.constructor | wccontrol.py:41-48 | A new controller remembers its pin and logs GPIO configuration plus output setup for that pin. The setup guard never trips, so this happens for every new instance. |
| Control.Board.Configure | wccontrol.py:44-45 | `setwarnings(False)` and `setmode(BCM)` append exactly one `Configure` event to the log. |
| Control.Board.SetupOutput | wccontrol.py:47 | `setup(pin, OUT)` appends exactly one `SetupOutput(pin)` event. |
| Control.Board.Output | wccontrol.py:57-59 | `output(pin, level)` appends exactly one `Out(pin, level)` event. |
| Control.Board.Sleep | wccontrol.py:58-62 | `sleep` appends exactly one `Hold(us)` event. |
| Control.Switch.Set | wccontrol.py:50-62 | The board's log grows by exactly `Transmission(pin, Frame(group, on, address), retries)`. `retries` defaults to 20. |
| Control.SetDefaultRetries | wccontrol.py:50 | `set` called without a retry count sends its frame 20 times. |
| Control.Switch.Transmit | wccontrol.py:54-62 | The retry loop appends `retries` bursts of the message, each followed by the gap. |
| Control.Switch.SendFrame | wccontrol.py:55-60 | The symbol loop appends the pulses of every symbol of the message, in order. |
| Control.Switch.SendSymbol | wccontrol.py:56-60 | One symbol appends output 1, the high hold, output 0 and the low hold for that symbol. |
| Control.Registry.constructor | wccontrol.py:38 | The cache starts empty. |
| Control.Registry.Lookup | wccontrol.py:65-74 | A cached pin returns its instance and changes neither the map nor the board. An uncached pin adds exactly one fresh entry for that pin, leaves the others unchanged, and logs its setup. The cache stays consistent: each entry's pin is its key. |
| Control.LookupTwice | wccontrol.py:65-74 | Two calls with the same pin return the same instance: the cached one if the pin was cached. The map afterwards is the old map with that pin filed under this instance, so it grows by at most one entry, and setup is logged at most once. |
| Control.LookupDefault | wccontrol.py:65-74 | `WCcontrol()` then `WCcontrol(4)` return the same instance, whose pin is the default pin 4. The map afterwards is the old map with pin 4 filed under that instance, and setup for pin 4 is logged only if pin 4 was not cached. |
| Batch.Pairs | wccontrol.py:111-112 | All (group, address) pairs of the two loops, in loop order. Characterised by `PairsLength`, `PairsAt` and `PairsLast`. |
| Batch.Step | wccontrol.py:113-119 | One pass of the inner loop: a send of the pair, followed by a pause exactly when the pair differs from the last pair. |
| Batch.Schedule | wccontrol.py:111-119 | The sends and pauses of the whole batch, in order. Characterised by `ScheduleSends`, `SchedulePauses`, `PauseAfter` and `ScheduleEndsWithSend`. |
| Batch.Sender | wccontrol.py:113 | One send is `wc.set(group, addr, value, retries)`: the `Transmission` of the pair's `Frame`, with the batch's pin, on/off value and retry count. |
| Batch.ActionEvents | wccontrol.py:113-119 | A send becomes the pair's transmission, and a pause becomes `sleep(0.2)`, the 200000 µs hold. |
| Batch.Render | wccontrol.py:113-119 | The board's events for a sequence of actions: each action's events, in order. Characterised by `RenderAppend`, `RenderStep` and `BatchHoldTime`. |
| Batch.RenderAppend | wccontrol.py:111-119 | The events of two action sequences in a row are the events of the first followed by those of the second. |
| Batch.StepEvents | wccontrol.py:113-119 | One pass of the inner loop: the pair's transmission, then the 200000 µs hold unless the pair equals the last pair. |
| Batch.RenderStep | wccontrol.py:113-119 | Rendering a schedule extended by one step appends exactly that step's events. |
| Batch.PairsLength | wccontrol.py:111-113 | The loop sends len(groups)·len(addresses) pairs. |
| Batch.PairsAt | wccontrol.py:111-113 | Pair i·len(addresses) + j is (groups[i], addresses[j]): groups outer, addresses inner. |
| Batch.PairsLast | wccontrol.py:107-113 | The last pair sent is (groups[−1], addresses[−1]). |
| Batch.ScheduleSends | wccontrol.py:111-119 | The sends of the schedule are exactly the pairs, in order. Pauses add no sends. |
| Batch.SchedulePauses | wccontrol.py:118-119 | There are as many pauses as pairs that are not value-equal to the last pair. |
| Batch.PauseAfter | wccontrol.py:113-119 | Pair k is sent at its offset, and a pause follows it iff it differs from the last pair. Duplicates of the last pair get no pause. |
| Batch.ScheduleEndsWithSend | wccontrol.py:118-119 | When the final pair is the last pair, the schedule ends with its send: no pause follows the final transmission. |
| Batch.TwoGroupsOneAddress | wccontrol.py:107-119 | Groups 1,2 and address 3 give: send (1,3), pause, send (2,3). |
| Batch.BatchHoldTime | wccontrol.py:111-119 | With every pair in range, the batch holds the pin for pairs·retries·45620 µs plus 200000 µs per pair that differs from the last pair. |
| Batch.SendPair | wccontrol.py:113-119 | One pair appends its transmission, then the 0.2 s pause unless it equals the last pair. |
| Batch.SendRow | wccontrol.py:112-119 | The address loop appends the rendered schedule of one group's row. |
| Batch.Run | wccontrol.py:107-119 | Starting from a consistent cache, the batch appends the pin's setup if the pin was not cached, then the rendered schedule of every pair. Afterwards the pin is cached under a controller for that pin. The map is unchanged if the pin was cached before, and otherwise is the old map plus one fresh entry. The cache stays consistent. |

## Left out

- RPi.GPIO (`setwarnings`, `setmode`, `setup`, `output`) is foreign hardware. It is represented only by the events a `Board` logs, and every call succeeds. GPIO failures are not modelled. In the source they propagate to the caller, and a failure inside `__init__` leaves no cache entry for the pin.
- `sleep` and the float-second values of `DELAYS`, `MSGGAP` and the 0.2 s pause are replaced by integer-microsecond `Hold` events. Float rounding and real elapsed time are not modelled.
- `gpio_is_setup` is not a field of the model. Line 43 writes a different attribute (`gpiosetup`), so the flag stays false and the test `not self.gpio_is_setup` is always true. The model therefore configures GPIO for every new instance.
- `argparse`, the `int()` parsing of comma-separated lists and the `print` in `main` are command-line plumbing. `Batch.Run` takes already-parsed integer sequences, a pin and a retry count. It requires at least one group and one address, because `groups[-1]` fails on an empty list and the parser never produces one.
- `_WCcontrol.pins` is a class-level dictionary. The model makes it a field of one `Registry` object. `WCcontrol`'s `if not instance` is modelled as "pin not in the map", because a stored instance is always truthy.
- `main`'s `value` is modelled by its truthiness (`value != 0`), which is how `set` reads it. The restriction of the choice to 0 or 1 belongs to the parser.
- Each of `set`'s nested loops is split into its own method (`Transmit`, then `SendFrame` and `SendSymbol`), and `main`'s loops into `Run`, `SendRow` and `SendPair`. The order of the events is unchanged.
- `Protocol.Decode` and `Pulses.Demodulate` are reference receivers that the source does not contain. They exist to state the round trips.
- Concurrency and several processes sharing a pin are not modelled.
- setup.py is packaging metadata and is not part of this model.
