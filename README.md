# AHT20 / BMP280 sensor drivers in Dafny

This project is a Dafny model of the two sensor drivers of AHT20_BMP280_python,
`read_AHT20` and `read_BMP280`, with proofs about them. Each driver opens I2C bus 1,
runs a fixed sequence of transactions with fixed delays, and turns the raw register
bytes into physical units. Any `OSError` from the bus gives `(None, None)`.

- **AHT20** (address 0x38). The driver sends a soft reset (0xBA), waits 40 ms, and
  reads the status byte. While the status is not 0x18 it sends the init command
  (0xBE, `[0x08, 0x00]`), waits 50 ms and reads the status again. It then waits 50 ms,
  sends the measure command (0xAC, `[0x33, 0x00]`), waits 80 ms and reads a 7-byte
  frame. The frame is decoded without a CRC check:
  - temperature = 20-bit raw / 2^20 * 200 - 50
  - humidity = 20-bit raw / 2^20 * 100
- **BMP280** (address 0x77). The driver writes 0xB6 to the control register 0xF4 and
  waits 50 ms. It reads the twelve calibration words from 0x88 .. 0x9E into a dict
  keyed `dig_T1` .. `dig_P9`. It then fixes their signs in place: every coefficient
  except T1 and P1 that is above 32767 has 65536 subtracted. It reads the raw
  temperature (0xFA) and the raw pressure (0xF7) as 3-byte blocks and runs the
  manufacturer's integer compensation. The driver returns the temperature in degrees
  Celsius and the pressure in pascals.

Modules:

- `Wrappers`: `Option`.
- `Bits`: Python's integer operators on unbounded integers.
  - `<<` is `Shl`.
  - `>>` is `Shr`, which floors, negative operands included.
  - `//` is `FloorDiv`, the floor for either sign of the divisor.
  - `|` and `&` are `Or` and `And`, bit by bit.
- `Bus`: a mock of the bus.
  - The bus state is a value, `Mock`. It holds:
    - queued replies to block reads and to word reads;
    - the index of the first transaction the device no longer answers;
    - the number of transactions issued so far;
    - a trace of every transaction, delay and bus close.
  - There is one pure step function per bus call, and together they are the mock's
    definition. `Issue` logs and counts any transaction. `Transmit` is a write or the
    bus open. `ReceiveBlock` and `ReceiveWord` are the reads, each answering with and
    consuming the next queued reply. `Delay` is a sleep and `Release` is the bus
    close. They are how the mock is defined, not something proved about the device.
  - `MockBus` is the bus handle class. Each of its methods is proved to perform
    exactly its step function.
- `Aht20` and `Bmp280`: the pure parts: constants, frame decoding, the calibration
  dict and its sign fix-up, ADC assembly and compensation.
- `Aht20Driver` and `Bmp280Driver`: each holds three things.
  - The driver as a method on a `MockBus`, with the source's loop and branches.
  - The same sequence as a function of the bus state (`Aht20Spec`, `Bmp280Spec`).
    Each driver method ensures `(result, bus.State()) == Spec(old(bus.State()))`.
  - Lemmas stating what that function does: when a reading comes back, which one,
    and what exactly is issued on the bus.

A reading is `Some(Reading(t, h))` for the AHT20, and `None` for `(None, None)`. For
the BMP280 it is `Reading(t, p)`, `Absent` for `(None, None)`, or `Degenerate` for
the zero-divisor path. That last path returns a bare `0` in the source; see
"## Findings".

## Model

| member | source | states |
|---|---|---|
| Bus.MockBus.WriteByteData | read_BMP280.py:32 | performs exactly the `Transmit` step on the handle's state |
| Bus.MockBus.WriteByte | read_AHT20.py:28 | performs exactly the `Transmit` step on the handle's state |
| Bus.MockBus.WriteBlockData | read_AHT20.py:37-39 | performs exactly the `Transmit` step on the handle's state |
| Bus.MockBus.ReadBlockData | read_AHT20.py:53 | performs exactly the `ReceiveBlock` step on the handle's state |
| Bus.MockBus.ReadWordData | read_BMP280.py:39-50 | performs exactly the `ReceiveWord` step on the handle's state |
| Bus.MockBus.Open | read_AHT20.py:25 | performs exactly the `Transmit` step for opening bus 1 |
| Bus.MockBus.Sleep | read_AHT20.py:30 | performs exactly the `Delay` step |
| Bus.MockBus.Close | read_BMP280.py:31 | performs exactly the `Release` step |
| Bits.Shr | read_BMP280.py:60 | `x >> k` is the floor of x / 2^k: 2^k * r <= x < 2^k * (r + 1), also for negative x, and it is non-negative for non-negative x |
| Bits.ShrZero | read_BMP280.py:92-93 | `x >> k == 0` exactly when 0 <= x < 2^k |
| Bits.FloorDiv | read_BMP280.py:96 | `a // b` is the floor of a / b for either sign of b, bracketed by multiples of b |
| Bits.OrShifted | read_AHT20.py:56 | or-ing a value below 2^k into a value shifted left by k bits is addition |
| Bits.AndLowMask | read_AHT20.py:56 | `x & (2^k - 1)` is x mod 2^k |
| Aht20.TemperatureRawValue | read_AHT20.py:56 | the temperature field is the low nibble of byte 3, then bytes 4 and 5, as a number below 2^20 |
| Aht20.HumidityRawValue | read_AHT20.py:57 | the humidity field is bytes 1 and 2, then the high nibble of byte 3, as a number below 2^20 |
| Aht20.PackFrame | read_AHT20.py:56-57 | the inverse of the field extraction: the 7-byte frame carrying a status byte, two 20-bit fields and a CRC byte |
| Aht20.DecodePack | read_AHT20.py:56-57 | decoding a packed frame gives back both 20-bit values |
| Aht20.PackDecode | read_AHT20.py:56-57 | every frame is exactly its status byte, its two fields and its CRC byte: packing the decoded parts gives the frame back |
| Aht20.DecodeIgnoresStatusAndCrc | read_AHT20.py:55-59 | frames that agree on bytes 1 to 5 decode to the same reading; no CRC is checked |
| Aht20.DecodeRanges | read_AHT20.py:56-59 | every frame decodes to a temperature in [-50, 150) and a humidity in [0, 100) |
| Aht20.ScaleRanges | read_AHT20.py:58-59 | the two scalings map [0, 2^20) into [-50, 150) and [0, 100) |
| Aht20.ScaleInverse | read_AHT20.py:58-59 | the raw count is recovered from the temperature and from the humidity |
| Aht20.AllZeroFrame | read_AHT20.py:56-59 | an all-zero frame reads as -50 degrees and 0 percent |
| Aht20Driver.Round | read_AHT20.py:37-41 | one pass of the loop body succeeds exactly when both transactions are answered and a 1-byte status is queued; it returns that status and logs init write, 50 ms, status read |
| Aht20Driver.Start | read_AHT20.py:28-33 | the reset, the 40 ms wait and the first status read: success condition, status returned and effect on the bus |
| Aht20Driver.Trigger | read_AHT20.py:43-53 | the measurement returns a 7-byte frame when it succeeds, and only adds to the trace |
| Aht20Driver.AwaitCalibration | read_AHT20.py:36-41 | the `while status[0] != 0x18` loop does exactly what `Poll` prescribes, with the bus state updated in place |
| Aht20Driver.Measure | read_AHT20.py:27-53 | the body of the `with` block does exactly what `Session` prescribes |
| Aht20Driver.ReadAht20 | read_AHT20.py:24-64 | `read_AHT20` on the bus handle does exactly what `Aht20Spec` prescribes |
| Aht20Driver.ReadyIndex | read_AHT20.py:36 | the position of the first status 0x18, all earlier statuses being single other bytes |
| Aht20Driver.ReadyIndexExact | read_AHT20.py:36 | any position with 0x18 there and only other single-byte statuses before it is the one ReadyIndex finds |
| Aht20Driver.PollExact | read_AHT20.py:36-41 | the loop ends with the device ready exactly when a 0x18 status arrives and every round before it is answered; it then issues one init write, wait and status read per earlier status and consumes those statuses |
| Aht20Driver.PollSucceeds | read_AHT20.py:36-41 | the success condition of the loop, both directions |
| Aht20Driver.PollState | read_AHT20.py:36-41 | the bus state after a successful loop |
| Aht20Driver.TriggerExact | read_AHT20.py:43-53 | the measurement succeeds exactly when both transactions are answered and a 7-byte reply is queued; then the result and the bus state are given exactly |
| Aht20Driver.ContinueExact | read_AHT20.py:36-53 | from the first status: success condition, frame returned and bus state |
| Aht20Driver.SessionExact | read_AHT20.py:27-53 | the `with` body yields a frame exactly when `SessionCompletes`; the frame is the reply after the first 0x18, and the trace is `SessionTrace` |
| Aht20Driver.SessionSucceeds | read_AHT20.py:27-53 | the success condition of the `with` body, both directions |
| Aht20Driver.SessionState | read_AHT20.py:27-53 | the frame and the bus state after a successful `with` body |
| Aht20Driver.Aht20Exact | read_AHT20.py:24-64 | a reading comes back exactly when the run `Completes`; it is the decoded frame after the first 0x18; the run issues `Aht20Trace` and closes the bus; otherwise there is no reading |
| Aht20Driver.Aht20Succeeds | read_AHT20.py:24-64 | the success condition of `read_AHT20`, both directions |
| Aht20Driver.Aht20State | read_AHT20.py:24-64 | the reading and the bus state after a successful `read_AHT20` |
| Aht20Driver.InitWritesCount | read_AHT20.py:36-41 | a run with k statuses before the first 0x18 sends exactly k init commands |
| Aht20Driver.InitRoundsAt | read_AHT20.py:37-41 | the polling rounds repeat init write, 50 ms delay, status read |
| Aht20Driver.InitWriteFollowedByStatusRead | read_AHT20.py:37-41 | every init write is followed by a 50 ms delay and a fresh one-byte status read |
| Aht20Driver.TwoStatusesBeforeReady | read_AHT20.py:33-53 | with statuses 0x00, 0x00, 0x18 and then a frame, the reading is that frame decoded, after exactly two init writes |
| Aht20Driver.Aht20ReleasesBus | read_AHT20.py:25 | the bus is opened first and, once open, closed last on every path; if opening fails nothing else is issued |
| Aht20Driver.SessionExtendsTrace | read_AHT20.py:27-53 | the `with` body only appends to the trace |
| Bmp280.CalibRegisters | read_BMP280.py:39-50 | coefficient i (T1, T2, T3, P1 .. P9) is read from register 0x88 + 2i, and the twelve names are distinct |
| Bmp280.Find | read_BMP280.py:39-56 | the position of a key in the dict: where it is, and absent otherwise |
| Bmp280.PutGet | read_BMP280.py:39-50 | `d[k] = v` then maps k to v, leaves every other key and its value alone, and keeps the keys distinct |
| Bmp280.PutPresent | read_BMP280.py:56 | assigning to a key already present replaces its item in place |
| Bmp280.FillItems | read_BMP280.py:37-50 | storing the twelve words under new, distinct names appends them in order, each with its word |
| Bmp280.FilledKeysDistinct | read_BMP280.py:37-50 | the dict as read has distinct keys |
| Bmp280.SignFixed | read_BMP280.py:52-56 | the fixed dict has as many items as the dict before |
| Bmp280.SignFixedAt | read_BMP280.py:52-56 | item i of the fixed dict is the same key with its value fixed |
| Bmp280.SignFixedSnoc | read_BMP280.py:52-56 | fixing one more item extends the fixed prefix by that item, fixed |
| Bmp280.Signed16 | read_BMP280.py:54-55 | a signed coefficient lies in [-32768, 32767] and is congruent to its word mod 65536 |
| Bmp280.SignedRoundTrip | read_BMP280.py:54-55 | the signed reading and the word it came from convert into each other |
| Bmp280.FixEntryWord | read_BMP280.py:53-55 | on a word, the loop body leaves T1 and P1 alone and reads every other coefficient as two's complement |
| Bmp280.FixEntryExamples | read_BMP280.py:53-55 | 40000 is stored as -25536, 100 as 100, and T1 and P1 keep 40000 |
| Bmp280.SignFixedWords | read_BMP280.py:52-56 | fixing a dict of words keeps keys and order; signed values become two's complement in [-32768, 32767]; T1 and P1 are unchanged |
| Bmp280.SignFixedIdempotent | read_BMP280.py:52-56 | running the fix-up twice on a dict of words is the same as once |
| Bmp280.FixedItems | read_BMP280.py:37-56 | the fixed dict of twelve words holds each name in its place, with its fixed word, and finds it there |
| Bmp280.FixedCoefficients | read_BMP280.py:37-99 | storing the twelve words by name, fixing the signs and looking the coefficients up by name gives `CalibrationOf` the words |
| Bmp280.Adc20Value | read_BMP280.py:60 | the or of b0 << 16, b1 << 8 and b2, shifted right by 4, is b0 * 4096 + b1 * 16 + b2 / 16, below 2^20 |
| Bmp280.AdcRoundTrip | read_BMP280.py:82 | assembling the registers that hold an ADC value gives that value back, whatever the low nibble |
| Bmp280.TFineAtReference | read_BMP280.py:63-77 | `TFine` models the t_fine stage (var1 and var2). At the reference raw temperature 16 * dig_T1, both var1 and var2 are 0 whatever dig_T2 and dig_T3, so t_fine is 0 and the temperature is 0.00 degrees. Beyond this point and `WorkedExample`, the formula itself is not checked against anything |
| Bmp280.Temperature100 | read_BMP280.py:78 | `(t_fine * 5 + 128) >> 8` is the floor of (5 t_fine + 128) / 256 |
| Bmp280.TemperatureRounding | read_BMP280.py:78 | the temperature in degrees is within 0.005 of t_fine / 5120 |
| Bmp280.TemperatureMonotone | read_BMP280.py:78 | the temperature does not decrease as t_fine grows |
| Bmp280.PressureDivisor | read_BMP280.py:92 | the divisor is zero exactly when ((1 << 47) + var1) * dig_P1 lies in [0, 2^33) |
| Bmp280.Pressure | read_BMP280.py:92-99 | there is no pressure exactly when the guarded divisor is zero |
| Bmp280.QuotientIsFloor | read_BMP280.py:96 | the quotient p is the floor of the exact quotient, for either sign of the divisor |
| Bmp280.FloorDivReal | read_BMP280.py:96 | `//` is the floor of the exact real quotient |
| Bmp280.ZeroP1NoPressure | read_BMP280.py:92-94 | a zero dig_P1 always trips the zero guard |
| Bmp280.WorkedExample | read_BMP280.py:63-99 | on one set of coefficients and ADC values: t_fine 128422, 2508 hundredths of a degree, divisor 597560748, pressure 25767233 / 256 Pa |
| Bmp280Driver.CompensateExact | read_BMP280.py:78-101 | the compensation never gives a bus error. It is degenerate exactly when the pressure divisor is zero; otherwise it returns the temperature in degrees and the pressure in pascals, the fixed-point value / 256 |
| Bmp280Driver.ReadWordsExact | read_BMP280.py:39-50 | the word reads succeed exactly when every read is answered and enough words are queued; they return the next words in order, consume them and log one read per register |
| Bmp280Driver.ReadWordsSucceeds | read_BMP280.py:39-50 | the success condition of the word reads, both directions |
| Bmp280Driver.ReadWordsValues | read_BMP280.py:39-50 | the words returned and the words left queued |
| Bmp280Driver.ReadWordsLog | read_BMP280.py:39-50 | the trace after the word reads: one read per register, in order |
| Bmp280Driver.ReadCalibration | read_BMP280.py:37-50 | the twelve `bmp280_calib[name] = bus.read_word_data(...)` statements do exactly what `ReadCalibrationSpec` prescribes |
| Bmp280Driver.SignFixCalibration | read_BMP280.py:52-56 | the fix-up loop over the dict's items turns the dict into `SignFixed` of it |
| Bmp280Driver.FixStep | read_BMP280.py:52-56 | one turn of the loop fixes item i in place and keeps the loop invariant |
| Bmp280Driver.FixAndLookUp | read_BMP280.py:52-99 | the dict route (fix-up loop, then lookup by name) yields `CalibrationOf` the words read |
| Bmp280Driver.ReadCoefficients | read_BMP280.py:32-56 | reset, wait, calibration reads and fix-up do exactly what `Calibrate` prescribes |
| Bmp280Driver.ReadRaw | read_BMP280.py:59-82 | the two 3-byte reads do exactly what `Sample` prescribes |
| Bmp280Driver.Measure | read_BMP280.py:32-99 | the body of the `with` block does exactly what `Bmp280Session` prescribes |
| Bmp280Driver.ReadBmp280 | read_BMP280.py:30-104 | `read_BMP280` on the bus handle does exactly what `Bmp280Spec` prescribes |
| Bmp280Driver.Bmp280TraceOrder | read_BMP280.py:31-82 | a complete run issues, in order: open, write 0xB6 to 0xF4, 50 ms, word i from 0x88 + 2i for i = 0 .. 11, 3 bytes at 0xFA, 3 bytes at 0xF7 |
| Bmp280Driver.CalibrateSucceeds | read_BMP280.py:32-50 | the calibration step succeeds exactly when its 13 transactions are answered and twelve words are queued |
| Bmp280Driver.CalibrateValue | read_BMP280.py:37-56 | it then yields the reference coefficients of the next twelve words |
| Bmp280Driver.CalibrateState | read_BMP280.py:32-50 | it consumes the twelve words and logs the reset, the wait and the twelve reads |
| Bmp280Driver.Sample | read_BMP280.py:59-82 | both raw readings have 3 bytes (partial; the full behaviour is in `SampleExact`) |
| Bmp280Driver.SampleExact | read_BMP280.py:59-82 | sampling succeeds exactly when both reads are answered with 3 bytes; it returns those blocks and consumes them |
| Bmp280Driver.SessionExact | read_BMP280.py:32-99 | the `with` body yields a result exactly when `SessionCompletes`; the result is the compensation of the queued blocks with the reference coefficients; the bus state is given |
| Bmp280Driver.SessionSucceeds | read_BMP280.py:32-99 | the success condition of the `with` body, both directions |
| Bmp280Driver.SessionValue | read_BMP280.py:32-99 | the result of a successful `with` body |
| Bmp280Driver.SessionState | read_BMP280.py:32-82 | the bus state after a successful `with` body |
| Bmp280Driver.Bmp280Exact | read_BMP280.py:30-104 | the result is not `Absent` exactly when the run `Completes`; it is then the compensation of the two queued blocks with the reference coefficients of the twelve words; the run issues `Bmp280Trace` and closes the bus |
| Bmp280Driver.Bmp280Succeeds | read_BMP280.py:30-104 | the success condition of `read_BMP280`, both directions |
| Bmp280Driver.Bmp280Value | read_BMP280.py:30-101 | the result of a complete run |
| Bmp280Driver.Bmp280State | read_BMP280.py:30-101 | the bus state after a complete run |
| Bmp280Driver.FailureIsAbsent | read_BMP280.py:103-104 | a transport error at any of the 16 transactions gives no reading at all, never part of one |
| Bmp280Driver.DegenerateExact | read_BMP280.py:92-94 | the zero guard fires exactly when the run completes and the divisor of the reference coefficients is zero |
| Bmp280Driver.ZeroP1Degenerate | read_BMP280.py:92-94 | a zero dig_P1 word in a complete run always gives the degenerate result |
| Bmp280Driver.RunTwice | read_BMP280.py:23-104 | two runs on a device that gives the same replies twice give the same result; no state carries over between calls |
| Bmp280Driver.Bmp280ReleasesBus | read_BMP280.py:31 | the bus is opened first and, once open, closed last on every path; if opening fails nothing else is issued |
| Bmp280Driver.SessionExtendsTrace | read_BMP280.py:32-82 | the `with` body only appends to the trace |
| Bmp280Driver.ZeroCalibrationReturnsBareZero | read_BMP280.py:93-94 | as written: with a zero dig_P1 word a complete run returns the bare 0, which the callers cannot unpack |
| Bmp280Driver.DegenerateIsDistinct | read_BMP280.py:93-94 | corrected: a reading comes back exactly when the run completes and the divisor is non-zero; the degenerate case is its own result, distinct from a bus error |

## Left out

- smbus2 is not part of this model. The bus is the mock in `Bus`. smbus2's block read
  always returns the number of bytes asked for. A queued reply of the wrong length is
  a convention of the mock, and the mock treats it as a bus error. The real transport
  does not do this. The `OSError` handlers become the `None` / `Absent` results.
- `time.sleep` is not performed. Each delay is logged in the trace with its duration
  in milliseconds.
- Floating point: the scalings and divisions that produce floats (`/ 2**20`,
  `float(...) / 100`, `pressure / 256`) are computed over the reals, so there is no
  rounding.
- The `__main__` loops and printing in both driver files are left out. They hold no
  driver logic.
- `read_sensors.py` and `record_sensors.py` are left out, apart from the way they
  unpack the result. The InfluxDB client in `record_sensors.py` is an external
  service.
- The `type(value) == int` test in the fix-up loop is always true, because
  `read_word_data` returns an int. The model keeps only the name test and the
  threshold.
- The AHT20 polling loop has no timeout in the source. On a device that never reports
  0x18 it runs forever. In the model every round consumes a queued reply, so the
  loop ends when the replies run out, with a bus error. A status stream with no 0x18
  therefore shows up as a failed read, never as a loop without end.
- The twelve calibration reads are one recursion, `ReadCalibration`, over the name
  and register tables, not twelve separate statements. Its contract and
  `CalibRegisters` fix the order, the registers and the names.
- The temperature compensation runs between the two raw reads, and the pressure
  compensation runs after the second. Both are pure, so the model computes them after
  both reads. The order of bus events is unchanged.
- Bmp280.TFine: the t_fine formula has no contract of its own. It is written as the
  source's expression, and it is checked only at the reference point
  (`TFineAtReference`) and on the single worked example (`WorkedExample`).
- Bmp280Driver.Calibrate: the specification function states the coefficients as
  `CalibrationOf`, the reference reading of the twelve words. The driver's own route
  is the dict, the in-place fix-up and the lookup by name. It is modelled in
  `ReadCoefficients` and `FixAndLookUp`, and proved to give the same coefficients.
- The manufacturer's C reference truncates its 64-bit division. Python's `//`
  floors, and the model follows the Python code.
- Aht20Driver.Session, Aht20Driver.Trigger, Bmp280Driver.ReadWords and
  Bmp280Driver.Sample: their own ensures clauses state only reply lengths or trace
  extension. Their full behaviour is in
  the `...Exact` lemmas listed above.

## Findings

| source | as written | input that shows it | evidently intended | confidence | as-written member | corrected member |
|---|---|---|---|---|---|---|
| read_BMP280.py:93-94 | on a zero divisor `read_BMP280` returns the bare integer `0` instead of a pair; the callers (read_sensors.py:8, record_sensors.py:20) unpack two values from it, which fails with a `TypeError` | any complete run whose dig_P1 word (register 0x8E) is 0 | a distinct "degenerate calibration" result, told apart from a bus error and from every reading | not executed | Bmp280Driver.ZeroCalibrationReturnsBareZero | Bmp280Driver.DegenerateIsDistinct |
