# DHT11 driver model

A Dafny model of the DHT11 temperature and humidity driver for the micro:bit
(`dht11.dht11value` in `main.ts`). One call of the driver:

1. samples the single-wire line once in each of 40 bit periods, 28 µs after the
   rising edge. A high level sets the corresponding entry of a zero-filled
   40-entry buffer to 1.
2. packs the buffer into five bytes, most significant bit first. The bytes are
   humidity integer, humidity tenths, temperature integer, temperature tenths
   and checksum.
3. overwrites the cached humidity and temperature together, only when
   `(d0 + d1 + d2 + d3) & 0xff` equals the checksum byte. Otherwise both
   cached values are left as they were. They start at zero.
4. reports Celsius, Fahrenheit (`t * 1.8 + 32`) or humidity from the cache.

The project has two modules:

- `Frame` (`frame.dfy`) covers bit packing. `PackMsb` is the value of a group
  of entries, `Assemble` is the five-byte frame, and `AssembleFrame` is the
  driver's nested loop over a buffer `array`. `ToBitsMsb` and `Encode` give
  the sensor's side of the encoding, and the round-trip lemmas tie the two
  sides together in both directions.
- `Dht11` (`dht11.dfy`) covers the driver. `Capture` is what the line
  delivered: the 40 sampled levels, or `NoResponse` when the older-board path
  found the line not pulled low and sampled nothing. `SampledBits` is the
  resulting buffer. The checksum is `LowByte`, a bitwise AND with 0xFF that is
  proved equal to `mod 256`. `Update` and `Step` give the cache transition,
  and `Select` is the unit switch. The class `Sensor` holds the two cached
  fields that the source keeps at module level (main.ts:17-18). One `Sensor`
  stands for the whole module, not for one pin: every pin shares the pair, so
  a rejected read on one pin reports the last good reading taken on any pin. Its `Acquire` and `Read`
  methods are proved against `Step` and `Select`.

Readings are exact reals (`d0 + d1 * 0.1`), so Fahrenheit is exactly
`t * 1.8 + 32`. For example, 24 °C reads as exactly 75.2 °F.

Two properties one might expect of the driver do not hold in the code, and
the model states what the code does:

- The humidity block is labelled `humidity(0~100%)` (main.ts:13), and the
  hardware test expects 20–90 % (test.ts:11). The code checks nothing but the
  checksum, so a cached value can be any `whole + tenths / 10` with both bytes
  up to 255, which is at most 280.5. `Plausible` states exactly that set
  (`TenthsRangeExact`), and the class keeps it as its invariant.
- A line that never changes does not always leave the cache alone. What
  happens depends on the board:
  - Newer board, line stuck high: every sample reads high, the five 255 bytes
    fail the checksum, and the cache is kept (`StuckHighKeeps`).
  - Newer board, line stuck low: every wait for the line to rise times out
    (main.ts:53, 67), every sample reads low,
    the all-zero frame passes the checksum, and the cache becomes 0
    (`SilentLineZeroes`).
  - Older board, line stuck high: the line is not low 40 µs after release
    (main.ts:86), so sampling is skipped (`NoResponse`). The all-zero frame
    passes the checksum, and the cache becomes 0 (`SilentLineZeroes`).
  - Older board, line stuck low: the driver waits forever in the polling loop
    at main.ts:87 and never updates the cache. Polling is not modelled (see
    "Left out").

## Model

| member | source | states |
|---|---|---|
| `Frame.PackMsb` | main.ts:101-107 | The value packed from a group of n entries is below 2^n, so each assembled byte lies in 0..255 |
| `Frame.Assemble` | main.ts:101-107 | The frame has five bytes, byte i being defined as the MSB-first value of entries 8i..8i+7. Its partner lemmas `AssembleEncode` and `EncodeAssemble` prove it the exact inverse of the sensor's encoding |
| `Frame.AssembleFrame` | main.ts:101-107 | The driver's nested loops over the 40-entry buffer array yield exactly `Assemble`: byte i is the MSB-first value of entries 8i..8i+7 |
| `Frame.AddGroup` | main.ts:102-106 | The inner loop adds the MSB-first value of group i to `data[i]` and leaves every other byte unchanged |
| `Frame.PackMsbFrom` | main.ts:103-105 | Each step of the inner loop adds 2^(7-j) for an entry equal to 1 and nothing for any other entry |
| `Frame.PackMsbAppend` | main.ts:102-106 | Appending one entry to a group doubles its value and adds that entry's bit |
| `Frame.BitOrder` | main.ts:104 | The order is MSB first: `[1,0,0,0,0,0,0,0]` packs to 128 and `[0,0,0,0,0,0,0,1]` packs to 1 |
| `Frame.PackMsbZeros` | main.ts:29 | A group left at the buffer's zero default packs to 0 |
| `Frame.PackMsbOnes` | main.ts:101-107 | A group of all ones packs to 2^n - 1, so 255 for a byte |
| `Frame.ToBitsMsb` | main.ts:101-107 | The sensor-side inverse of packing produces n entries, each 0 or 1 |
| `Frame.PackToBits` | main.ts:101-107 | Packing the MSB-first bits of any b < 2^n gives b back |
| `Frame.ToBitsPack` | main.ts:101-107 | Unpacking the value of a group of bits gives the group back |
| `Frame.Encode` | main.ts:61-74 | The bits a sensor transmits for k bytes: 8k bit values, MSB first. It has no counterpart in the driver; it is the sensor's side that the driver's sampling loop receives, and the round-trip lemmas tie it to `Assemble` |
| `Frame.EncodeGroup` | main.ts:101-107 | Group i of an encoded frame is the encoding of byte i |
| `Frame.AssembleEncode` | main.ts:101-107 | Assembling the bits sent for five bytes yields those five bytes |
| `Frame.EncodeAssemble` | main.ts:101-107 | Every 40-entry bit buffer is the encoding of the five bytes assembled from it |
| `Frame.EncodeAssembleAt` | main.ts:101-107 | The same equality entry by entry |
| `Dht11.SampledBits` | main.ts:29 | A buffer entry is 1 exactly when its level was sampled high. Every entry is 0 or 1, and no response leaves all zeros |
| `Dht11.SampleInto` | main.ts:61-74 | The sampling loop sets entry k to 1 when level k is 1 and leaves every other entry as it was |
| `Dht11.SampleFrame` | main.ts:86-98 | The fresh zeroed buffer, after sampling or after the skipped loop, equals `SampledBits` of the capture |
| `Dht11.SampleBitLevels` | main.ts:71-73 | Sampling levels that are already bits reproduces them |
| `Dht11.BitAnd` | main.ts:109 | JavaScript's `&` on non-negative integers: the result is at most either operand; `MaskIsMod` gives its value against a low mask |
| `Dht11.LowByte` | main.ts:109 | `x & 0xff` equals `x mod 256` |
| `Dht11.MaskIsMod` | main.ts:109 | ANDing with the n low one-bits equals reduction modulo 2^n |
| `Dht11.Sensor.constructor` | main.ts:17-18 | The cached humidity and temperature both start at 0, which is plausible |
| `Dht11.DataSum` | main.ts:109 | The sum of the four data bytes is at most 1020 |
| `Dht11.ChecksumOk` | main.ts:109 | A frame passes exactly when the sum of the four data bytes, mod 256, equals the fifth byte |
| `Dht11.Fixed` | main.ts:110-111 | An integer byte plus a tenths byte is the value whose tenfold is `10 * whole + tenths` |
| `Dht11.Decode` | main.ts:110-111 | Humidity comes from bytes 0 and 1 and temperature from bytes 2 and 3, each as `whole + tenths / 10`; every decoded reading is `Plausible` |
| `Dht11.Update` | main.ts:109-112 | The cache becomes the decoded pair when the checksum holds, and is otherwise unchanged; it never changes without a passing checksum |
| `Dht11.Step` | main.ts:29-112 | One acquisition (sample, assemble, checksum-gated update) keeps the cache `Plausible` |
| `Dht11.Select` | main.ts:114-121 | Celsius reports the cached temperature, humidity the cached humidity, and Fahrenheit a value whose `(v - 32) / 1.8` is the cached temperature |
| `Dht11.Sensor.Acquire` | main.ts:29-112 | The new cache is `Step(old cache, capture)`: the decoded pair on a checksum match, otherwise the old pair. It keeps the class invariant `Valid` (the cache is `Plausible`) and changes nothing outside the sensor |
| `Dht11.Sensor.Read` | main.ts:27-122 | A read acquires first and then returns `Select` of the post-acquisition cache. The client method `ReadTwice` exercises it: a good frame, then a corrupted one read twice, which reports the cached values |
| `Dht11.UpdateOnBytes` | main.ts:109-112 | The cache becomes `(d0 + d1/10, d2 + d3/10)` exactly when `(d0+d1+d2+d3) mod 256 == d4`, and otherwise stays unchanged |
| `Dht11.StepOnFrame` | main.ts:101-112 | For the bits sent for bytes b0..b4, the cache becomes `(b0 + b1/10, b2 + b3/10)` iff the checksum holds, and otherwise stays unchanged |
| `Dht11.StepWholeOrNothing` | main.ts:109-112 | Every acquisition leaves the cache unchanged or sets both fields to the decoding of a checksum-valid frame. The fields never change apart |
| `Dht11.TenthsOf` | main.ts:110 | An integer byte plus a tenths byte lies on the tenths grid within 0..280.5 |
| `Dht11.TenthsRangeExact` | main.ts:110-111 | A value satisfies the cache invariant `Plausible` (tenths grid within 0..280.5) exactly when some integer byte and tenths byte decode to it, so the invariant is neither looser nor tighter than what the unclamped code can store |
| `Dht11.SilentLineZeroes` | main.ts:86-98 | With no level sampled high (newer board, line stuck low) or with sampling skipped (older board, line not low at main.ts:86, as when stuck high), the all-zero frame passes the checksum and both readings become 0 |
| `Dht11.StuckHighKeeps` | main.ts:53-74 | On the newer board a line stuck high is sampled as 40 high levels, five 255 bytes that fail the checksum, so the cache is kept |
| `Dht11.StuckHighDependsOnBoard` | main.ts:33-98 | For a line stuck high the two boards' paths differ: the older board's skipped sampling zeroes any non-initial cache, while the newer board's 40 high samples keep it |
| `Dht11.FahrenheitMonotone` | main.ts:116-118 | Fahrenheit orders two caches the same way Celsius does, in both directions |
| `Dht11.FirstRejectedReadsZero` | main.ts:17-18 | Before any accepted frame, Celsius and humidity read 0 and Fahrenheit reads 32 |
| `Dht11.GoodFrameAccepted` | main.ts:101-121 | Bytes `32 00 18 00 4A` (hex) give humidity 50 and 24 °C, which reads as 75.2 °F |
| `Dht11.CorruptFrameRejected` | main.ts:109-112 | The same frame with checksum `4B` leaves the cache unchanged |

## Left out

- The older board's wait for the line to rise (main.ts:87) never ends on a line stuck low, so the driver hangs there. Polling loops are not modelled, so this non-terminating case is not either.
- Pin I/O, the start pulse and timing are left out: `digitalWritePin`, `setPull`, `digitalReadPin`, `control.micros`, `waitMicros` and `basic.pause` (main.ts:35-70, 77-93). The model takes the 40 levels read 28 µs into each bit as its input.
- The handshake and edge-polling `while` loops are left out, with their 100 µs timeouts on the newer board (main.ts:53-69) and without timeouts on the older one (main.ts:87-92). Their termination depends on a physical clock and line. On the newer board a timeout only changes which levels are sampled, and any level sequence is a valid `Capture`.
- The throwaway reads of P0–P4 and P10 (main.ts:35-40) are left out. They do not affect the result.
- The hardware-version test (main.ts:33) is not modelled as a branch. A `Capture` stands for either board's path, and `NoResponse` arises only on the older board (main.ts:86). The test does affect the result: for a line stuck high, the older board zeroes the cache and the newer board keeps it (`StuckHighDependsOnBoard`).
- IEEE-754 rounding of `* 0.1` and `* 1.8` (main.ts:110-111, 118) is left out. Values are exact reals, so a reported value can differ from the device's in the last floating-point digit.
- `Dht11.LowByte` does not model the 32-bit integer conversion that JavaScript's `&` performs. The four data bytes sum to at most 1020, so the conversion never changes the value.
- test.ts is left out. It is a hardware harness that checks physical value ranges and drives the LED display, and it has no logic of its own.
- The block and UI annotations (`//%` comments) are left out.
