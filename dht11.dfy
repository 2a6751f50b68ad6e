/**
 * The DHT11 driver: one acquisition turns the 40 sampled line levels into a
 * bit buffer, assembles the five frame bytes, and overwrites the cached
 * humidity and temperature together only when the checksum matches; the
 * selector then reports Celsius, Fahrenheit or humidity from the cache.
 *
 * Pin I/O and timing are abstracted: an acquisition receives the level read
 * 28 microseconds into each of the 40 bit periods, or NoResponse when the
 * older-board path found the line not pulled low and sampled nothing.
 */
module Dht11 {
  import opened Frame

  /** What the caller asks for. */
  datatype ValueType = TemperatureC | TemperatureF | Humidity

  /** The line as seen by one acquisition. */
  datatype Capture =
    | Sampled(levels: seq<int>)  // one level per bit period, in transmission order
    | NoResponse                 // the bit loop never ran; the buffer keeps its zeros

  /** The cached pair of readings, exact decimal values. */
  datatype Reading = Reading(humidity: real, temperature: real)

  /** Both cached values start at zero. */
  const Initial := Reading(0.0, 0.0)

  /** A capture is well formed when a sampled one has exactly one level per bit. */
  predicate WellFormed(capture: Capture)
  {
    capture.Sampled? ==> |capture.levels| == FrameBits
  }

  /**
   * The bit buffer an acquisition leaves behind: an entry is 1 exactly when
   * its sampled level was high, and every other entry keeps the buffer's
   * initial zero.
   */
  function SampledBits(capture: Capture): (buffer: seq<int>)
    requires WellFormed(capture)
    ensures |buffer| == FrameBits && IsBits(buffer)
    ensures forall k :: 0 <= k < FrameBits ==>
      (buffer[k] == 1 <==> capture.Sampled? && capture.levels[k] == 1)
  {
    match capture
    case NoResponse => seq(FrameBits, _ => 0)
    case Sampled(levels) => seq(FrameBits, k requires 0 <= k < FrameBits => if levels[k] == 1 then 1 else 0)
  }

  /** Bitwise AND of two non-negative integers, bit by bit from the least significant. */
  function BitAnd(a: nat, b: nat): (r: nat)
    ensures r <= a && r <= b
  {
    if a == 0 || b == 0 then 0
    else 2 * BitAnd(a / 2, b / 2) + (if a % 2 == 1 && b % 2 == 1 then 1 else 0)
  }

  /** x & 0xff: the low byte of x. */
  function LowByte(x: nat): (r: Byte)
    ensures r == x % 256
  {
    MaskIsMod(x, 8);
    BitAnd(x, 0xFF)
  }

  /** The sum of the four data bytes, before masking. */
  function DataSum(data: seq<Byte>): (sum: nat)
    requires |data| == FrameBytes
    ensures sum <= 4 * 255
  {
    data[0] as int + data[1] as int + data[2] as int + data[3] as int
  }

  /** The checksum byte equals the low byte of the sum of the four data bytes. */
  function ChecksumOk(data: seq<Byte>): (ok: bool)
    requires |data| == FrameBytes
    ensures ok <==> DataSum(data) % 256 == data[4]
  {
    LowByte(DataSum(data)) == data[4]
  }

  /** An integer byte plus a tenths byte, d + t * 0.1, as one exact value. */
  function Fixed(whole: Byte, tenths: Byte): (x: real)
    ensures x * 10.0 == (10 * whole as int + tenths as int) as real
  {
    whole as real + tenths as real * 0.1
  }

  /** The reading a frame carries: humidity from bytes 0 and 1, temperature from bytes 2 and 3. */
  function Decode(data: seq<Byte>): (r: Reading)
    requires |data| == FrameBytes
    ensures Plausible(r)
    ensures r.humidity * 10.0 == (10 * data[0] as int + data[1] as int) as real
    ensures r.temperature * 10.0 == (10 * data[2] as int + data[3] as int) as real
  {
    TenthsOf(data[0], data[1]);
    TenthsOf(data[2], data[3]);
    Reading(Fixed(data[0], data[1]), Fixed(data[2], data[3]))
  }

  /** The cache after a frame: replaced as a whole on a checksum match, untouched otherwise. */
  function Update(prev: Reading, data: seq<Byte>): (r: Reading)
    requires |data| == FrameBytes
    ensures r == prev || r == Decode(data)
    ensures ChecksumOk(data) ==> r == Decode(data)
    ensures r != prev ==> ChecksumOk(data)
  {
    if ChecksumOk(data) then Decode(data) else prev
  }

  /** The cache after one acquisition on the given capture. */
  function Step(prev: Reading, capture: Capture): (r: Reading)
    requires WellFormed(capture)
    ensures Plausible(prev) ==> Plausible(r)
  {
    Update(prev, Assemble(SampledBits(capture)))
  }

  /** The value reported for a request: Fahrenheit is Celsius times 1.8 plus 32. */
  function Select(r: Reading, kind: ValueType): (v: real)
    ensures kind == TemperatureC ==> v == r.temperature
    ensures kind == TemperatureF ==> (v - 32.0) / 1.8 == r.temperature
    ensures kind == Humidity ==> v == r.humidity
  {
    match kind
    case TemperatureC => r.temperature
    case TemperatureF => r.temperature * 1.8 + 32.0
    case Humidity => r.humidity
  }

  /** A value lies on the tenths grid and within what two bytes as integer and tenths can express. */
  predicate InTenthsRange(x: real)
  {
    0.0 <= x <= 280.5 && (x * 10.0).Floor as real == x * 10.0
  }

  /** What the cache can ever hold: exactly the values two frame bytes decode to (see TenthsRangeExact). */
  predicate Plausible(r: Reading)
  {
    InTenthsRange(r.humidity) && InTenthsRange(r.temperature)
  }

  /** Sets buffer entry k to 1 for every high level, leaving the others alone. */
  method SampleInto(buffer: array<int>, levels: seq<int>)
    requires buffer.Length == |levels|
    modifies buffer
    ensures forall k :: 0 <= k < buffer.Length ==>
      buffer[k] == (if levels[k] == 1 then 1 else old(buffer[k]))
  {
    for k := 0 to buffer.Length
      invariant forall m :: 0 <= m < k ==> buffer[m] == (if levels[m] == 1 then 1 else old(buffer[m]))
      invariant forall m :: k <= m < buffer.Length ==> buffer[m] == old(buffer[m])
    {
      if levels[k] == 1 {
        buffer[k] := 1;
      }
    }
  }

  /**
   * The bit buffer of one acquisition: created zeroed, then sampled unless
   * the older-board path saw no response.
   */
  method SampleFrame(capture: Capture) returns (buffer: array<int>)
    requires WellFormed(capture)
    ensures fresh(buffer)
    ensures buffer[..] == SampledBits(capture)
  {
    buffer := new int[FrameBits](_ => 0);
    if capture.Sampled? {
      SampleInto(buffer, capture.levels);
    }
    forall k | 0 <= k < FrameBits
      ensures buffer[k] == SampledBits(capture)[k]
    {
    }
  }

  /** The driver's module-level state: the last accepted humidity and temperature. */
  class Sensor {
    var humidity: real
    var temperature: real

    /** The cache as a value. */
    function Current(): Reading
      reads this
    {
      Reading(humidity, temperature)
    }

    ghost predicate Valid()
      reads this
    {
      Plausible(Current())
    }

    constructor ()
      ensures Valid()
      ensures Current() == Initial
    {
      humidity, temperature := 0.0, 0.0;
    }

    /** One acquisition: fill the zeroed buffer, assemble the frame, update on a checksum match. */
    method Acquire(capture: Capture)
      requires Valid() && WellFormed(capture)
      modifies this
      ensures Valid()
      ensures Current() == Step(old(Current()), capture)
    {
      ghost var prev := Current();
      var buffer := SampleFrame(capture);
      var data := AssembleFrame(buffer);
      if ChecksumOk(data) {
        humidity := data[0] as real + data[1] as real * 0.1;
        temperature := data[2] as real + data[3] as real * 0.1;
      }
      assert Current() == Update(prev, data);
    }

    /** The driver's read: a fresh acquisition, then the requested value from the cache. */
    method Read(capture: Capture, kind: ValueType) returns (v: real)
      requires Valid() && WellFormed(capture)
      modifies this
      ensures Valid()
      ensures Current() == Step(old(Current()), capture)
      ensures v == Select(Current(), kind)
    {
      Acquire(capture);
      match kind {
        case TemperatureC => v := temperature;
        case TemperatureF => v := temperature * 1.8 + 32.0;
        case Humidity => v := humidity;
      }
    }
  }

  /** Masking with n low one-bits keeps the remainder modulo 2^n. */
  lemma {:induction false} MaskIsMod(x: nat, n: nat)
    ensures BitAnd(x, Pow2(n) - 1) == x % Pow2(n)
  {
    if n > 0 {
      if x == 0 {
        ModOfSplit(0, Pow2(n), 0, 0);
      } else {
        MaskIsMod(x / 2, n - 1);
        MaskStep(x, n);
      }
    }
  }

  /** One induction step of MaskIsMod: from the mask of x / 2 to the mask of x. */
  lemma MaskStep(x: nat, n: nat)
    requires x > 0 && n > 0
    requires BitAnd(x / 2, Pow2(n - 1) - 1) == (x / 2) % Pow2(n - 1)
    ensures BitAnd(x, Pow2(n) - 1) == x % Pow2(n)
  {
    var m, p := Pow2(n - 1), Pow2(n);
    BitAndLowOnes(x, m, p);
    HalveMod(x, m, p);
  }

  /** With an all-ones mask the lowest bit of x passes through unchanged. */
  lemma BitAndLowOnes(x: nat, m: nat, p: nat)
    requires x > 0 && m >= 1 && p == 2 * m
    ensures BitAnd(x, p - 1) == 2 * BitAnd(x / 2, m - 1) + x % 2
  {
  }

  /** Splitting off the lowest bit commutes with reducing modulo 2m. */
  lemma HalveMod(x: nat, m: nat, p: nat)
    requires m >= 1 && p == 2 * m
    ensures x % p == 2 * ((x / 2) % m) + x % 2
  {
    var q, r := x / 2, x % 2;
    var t, u := q / m, q % m;
    assert x == 2 * m * t + (2 * u + r) by {
      assert q == m * t + u;
      assert x == 2 * q + r;
    }
    assert 0 <= 2 * u + r < 2 * m;
    ModOfSplit(x, p, t, 2 * u + r);
  }

  /** The remainder is determined by any quotient-remainder split of x. */
  lemma ModOfSplit(x: int, d: int, q: int, r: int)
    requires d > 0 && x == d * q + r && 0 <= r < d
    ensures x % d == r
  {
    var k := x / d - q;
    MulSign(d, k);
    assert d * k == r - x % d by {
      assert x == d * (x / d) + x % d;
      assert d * k == d * (x / d) - d * q;
    }
  }

  /** A positive d times a nonzero integer is at least d away from zero. */
  lemma MulSign(d: int, k: int)
    requires d > 0
    ensures k >= 1 ==> d * k >= d
    ensures k <= -1 ==> d * k <= -d
  {
  }

  /** An integer byte plus a tenths byte lands on the tenths grid within range. */
  lemma TenthsOf(whole: Byte, tenths: Byte)
    ensures InTenthsRange(Fixed(whole, tenths))
  {
    var n := 10 * whole as int + tenths as int;
    assert (n as real).Floor == n;
  }

  /**
   * The tenths range is exactly the set of values an integer byte and a
   * tenths byte decode to: every such value is in it, and every value in it
   * is one of them.
   */
  lemma TenthsRangeExact(x: real)
    ensures InTenthsRange(x) <==> exists whole: Byte, tenths: Byte :: Fixed(whole, tenths) == x
  {
    if InTenthsRange(x) {
      var n := (x * 10.0).Floor;
      assert 0 <= n <= 2805;
      var whole: Byte := if n <= 2550 then n / 10 else 255;
      var tenths: Byte := n - 10 * whole;
      assert Fixed(whole, tenths) * 10.0 == x * 10.0;
    } else if exists whole: Byte, tenths: Byte :: Fixed(whole, tenths) == x {
      var whole: Byte, tenths: Byte :| Fixed(whole, tenths) == x;
      TenthsOf(whole, tenths);
    }
  }

  /**
   * For the bits a sensor sends for five bytes, the cache becomes the decoded
   * pair exactly when (b0 + b1 + b2 + b3) mod 256 equals b4, and otherwise
   * stays what it was.
   */
  lemma StepOnFrame(prev: Reading, bytes: seq<Byte>)
    requires |bytes| == FrameBytes
    ensures WellFormed(Sampled(Encode(bytes)))
    ensures Step(prev, Sampled(Encode(bytes))) ==
      if (bytes[0] as int + bytes[1] as int + bytes[2] as int + bytes[3] as int) % 256 == bytes[4]
      then Reading(bytes[0] as real + bytes[1] as real * 0.1, bytes[2] as real + bytes[3] as real * 0.1)
      else prev
  {
    var bits := Encode(bytes);
    SampleBitLevels(bits);
    AssembleEncode(bytes);
    UpdateOnBytes(prev, bytes);
  }

  /**
   * At the byte level: the cache takes the integer-plus-tenths values exactly
   * when the four data bytes sum to the checksum modulo 256.
   */
  lemma UpdateOnBytes(prev: Reading, bytes: seq<Byte>)
    requires |bytes| == FrameBytes
    ensures Update(prev, bytes) ==
      if (bytes[0] as int + bytes[1] as int + bytes[2] as int + bytes[3] as int) % 256 == bytes[4]
      then Reading(bytes[0] as real + bytes[1] as real * 0.1, bytes[2] as real + bytes[3] as real * 0.1)
      else prev
  {
  }

  /** Sampling levels that are already bit values reproduces them. */
  lemma SampleBitLevels(bits: seq<int>)
    requires |bits| == FrameBits && IsBits(bits)
    ensures SampledBits(Sampled(bits)) == bits
  {
  }

  /**
   * Every outcome of an acquisition is either the previous cache or the
   * decoding of a checksum-valid frame; the two fields never change apart.
   */
  lemma StepWholeOrNothing(prev: Reading, capture: Capture)
    requires WellFormed(capture)
    ensures Step(prev, capture) == prev ||
      exists data: seq<Byte> :: |data| == FrameBytes && ChecksumOk(data) && Step(prev, capture) == Decode(data)
  {
  }

  /**
   * When no level is sampled high, the all-zero frame passes the checksum and
   * the cache is overwritten with zeros rather than kept. On the newer board
   * this is a line stuck low: every wait for the line to rise times out
   * and every sample reads low. On the older board it is NoResponse: the line was not low 40 us
   * after release, as with a line stuck high, so sampling was skipped.
   */
  lemma SilentLineZeroes(prev: Reading, capture: Capture)
    requires WellFormed(capture)
    requires capture.Sampled? ==> forall k :: 0 <= k < FrameBits ==> capture.levels[k] != 1
    ensures Step(prev, capture) == Reading(0.0, 0.0)
  {
    var buffer := SampledBits(capture);
    forall i | 0 <= i < FrameBytes
      ensures Assemble(buffer)[i] == 0
    {
      PackMsbZeros(buffer[8 * i .. 8 * i + 8]);
    }
  }

  /**
   * On the newer board a line stuck high is sampled as 40 high levels, five
   * 255 bytes that fail the checksum: the cache is kept. (The older board
   * skips sampling for such a line instead; see SilentLineZeroes.)
   */
  lemma StuckHighKeeps(prev: Reading)
    ensures Step(prev, Sampled(seq(FrameBits, _ => 1))) == prev
  {
    var buffer := SampledBits(Sampled(seq(FrameBits, _ => 1)));
    var data := Assemble(buffer);
    forall i | 0 <= i < FrameBytes
      ensures data[i] == 255
    {
      PackMsbOnes(buffer[8 * i .. 8 * i + 8]);
    }
    assert DataSum(data) == 1020;
  }

  /**
   * The board matters for a line stuck high: the older board skips sampling
   * and zeroes the cache, the newer board samples 40 high levels and keeps it.
   */
  lemma StuckHighDependsOnBoard(prev: Reading)
    requires prev != Initial
    ensures Step(prev, NoResponse) != Step(prev, Sampled(seq(FrameBits, _ => 1)))
  {
    SilentLineZeroes(prev, NoResponse);
    StuckHighKeeps(prev);
  }

  /** Fahrenheit orders two caches the same way Celsius does. */
  lemma FahrenheitMonotone(r: Reading, s: Reading)
    ensures Select(r, TemperatureC) <= Select(s, TemperatureC) <==> Select(r, TemperatureF) <= Select(s, TemperatureF)
  {
  }

  /** Until a frame is accepted, Celsius and humidity both read zero. */
  lemma FirstRejectedReadsZero(capture: Capture)
    requires WellFormed(capture)
    requires !ChecksumOk(Assemble(SampledBits(capture)))
    ensures Select(Step(Initial, capture), TemperatureC) == 0.0
    ensures Select(Step(Initial, capture), Humidity) == 0.0
    ensures Select(Step(Initial, capture), TemperatureF) == 32.0
  {
  }

  /** 50 % humidity and 24 degrees with checksum 0x4A are accepted; Fahrenheit then reads 75.2. */
  lemma GoodFrameAccepted(prev: Reading)
    ensures Step(prev, Sampled(Encode([0x32, 0x00, 0x18, 0x00, 0x4A]))) == Reading(50.0, 24.0)
    ensures Select(Reading(50.0, 24.0), TemperatureF) == 75.2
  {
    var bytes: seq<Byte> := [0x32, 0x00, 0x18, 0x00, 0x4A];
    StepOnFrame(prev, bytes);
  }

  /** The same frame with its checksum off by one is rejected and the cache kept. */
  lemma CorruptFrameRejected(prev: Reading)
    ensures Step(prev, Sampled(Encode([0x32, 0x00, 0x18, 0x00, 0x4B]))) == prev
  {
    var bytes: seq<Byte> := [0x32, 0x00, 0x18, 0x00, 0x4B];
    StepOnFrame(prev, bytes);
  }

  /**
   * A client of Sensor.Read: a fresh sensor reads a good frame, then a
   * corrupted one twice; the corrupted reads report the cached values.
   */
  method ReadTwice()
  {
    var s := new Sensor();
    var good := Encode([0x32, 0x00, 0x18, 0x00, 0x4A]);
    var bad := Encode([0x32, 0x00, 0x18, 0x00, 0x4B]);
    GoodFrameAccepted(Initial);
    var c := s.Read(Sampled(good), TemperatureC);
    assert c == 24.0;
    CorruptFrameRejected(s.Current());
    var f := s.Read(Sampled(bad), TemperatureF);
    assert f == 75.2;
    var h := s.Read(Sampled(bad), Humidity);
    assert h == 50.0;
  }
}
