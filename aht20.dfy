/**
 * The AHT20 humidity/temperature sensor: its protocol constants, and the
 * decoding of its 7-byte measurement frame into degrees Celsius and percent
 * relative humidity. No CRC is checked, so byte 6 is ignored.
 */
module Aht20 {
  import opened Bits
  import opened Bus

  const Address: Byte := 0x38
  const SoftReset: Byte := 0xBA
  const InitReg: Byte := 0xBE
  const InitData: seq<Byte> := [0x08, 0x00]
  const StatusReg: Byte := 0x71
  const MeasureReg: Byte := 0xAC
  const MeasureData: seq<Byte> := [0x33, 0x00]
  /** The status byte of a calibrated, idle device. */
  const Calibrated: Byte := 0x18
  const FrameLength: nat := 7

  datatype Reading = Reading(temperature: real, humidity: real)

  /** `((data[3] & 0xF) << 16) | (data[4] << 8) | data[5]` */
  function TemperatureRaw(d: seq<Byte>): nat
    requires |d| == FrameLength
  {
    Or(Or(Shl(And(d[3], 0xF), 16), Shl(d[4], 8)), d[5])
  }

  /** `(data[1] << 12) | (data[2] << 4) | (data[3] >> 4)` */
  function HumidityRaw(d: seq<Byte>): nat
    requires |d| == FrameLength
  {
    Or(Or(Shl(d[1], 12), Shl(d[2], 4)), Shr(d[3], 4))
  }

  /** `temperature_raw / (2**20) * 200 - 50`, over the reals. */
  function Temperature(raw: nat): real
  {
    (raw as real) / (Pow2(20) as real) * 200.0 - 50.0
  }

  /** `humidity_raw / (2**20) * 100`, over the reals. */
  function Humidity(raw: nat): real
  {
    (raw as real) / (Pow2(20) as real) * 100.0
  }

  function Decode(d: seq<Byte>): Reading
    requires |d| == FrameLength
  {
    Reading(Temperature(TemperatureRaw(d)), Humidity(HumidityRaw(d)))
  }

  /** The temperature field: the low nibble of byte 3, then bytes 4 and 5, as a 20-bit number. */
  lemma TemperatureRawValue(d: seq<Byte>)
    requires |d| == FrameLength
    ensures TemperatureRaw(d) == (d[3] as int % 16) * 0x1_0000 + d[4] as int * 0x100 + d[5] as int
    ensures TemperatureRaw(d) < Pow2(20)
  {
    AndLowMask(d[3], 4);
    Pow2Values();
    var lo: nat := d[3] as int % 16;
    var b4: nat, b5: nat := d[4], d[5];
    OrShifted(lo, b4 * 256, 16);
    OrShifted(lo * 256 + b4, b5, 8);
    assert Shl(lo, 16) + Shl(b4, 8) == (lo * 256 + b4) * Pow2(8);
  }

  /** The humidity field: bytes 1 and 2, then the high nibble of byte 3, as a 20-bit number. */
  lemma HumidityRawValue(d: seq<Byte>)
    requires |d| == FrameLength
    ensures HumidityRaw(d) == d[1] as int * 0x1000 + d[2] as int * 0x10 + d[3] as int / 16
    ensures HumidityRaw(d) < Pow2(20)
  {
    Pow2Values();
    var b1: nat, b2: nat, hi: nat := d[1], d[2], d[3] as int / 16;
    assert Or(Shl(b1, 12), Shl(b2, 4)) == (b1 * 256 + b2) * Pow2(4) by {
      OrShifted(b1, b2 * 16, 12);
    }
    OrShifted(b1 * 256 + b2, hi, 4);
  }

  /** The frame carrying a given status byte, 20-bit humidity and temperature, and CRC byte. */
  function PackFrame(status: Byte, humidity: nat, temperature: nat, crc: Byte): (d: seq<Byte>)
    requires humidity < Pow2(20) && temperature < Pow2(20)
    ensures |d| == FrameLength
  {
    FieldBytes(humidity, temperature);
    [status, humidity / 0x1000, (humidity / 0x10) % 0x100,
     (humidity % 0x10) * 0x10 + temperature / 0x1_0000,
     (temperature / 0x100) % 0x100, temperature % 0x100, crc]
  }

  /** The five field bytes of a frame are bytes. */
  lemma FieldBytes(humidity: nat, temperature: nat)
    requires humidity < Pow2(20) && temperature < Pow2(20)
    ensures humidity / 0x1000 < 0x100
    ensures (humidity % 0x10) * 0x10 + temperature / 0x1_0000 < 0x100
  {
    Pow2Values();
  }

  /** Decoding a packed frame gives back the two 20-bit values. */
  lemma DecodePack(status: Byte, humidity: nat, temperature: nat, crc: Byte)
    requires humidity < Pow2(20) && temperature < Pow2(20)
    ensures HumidityRaw(PackFrame(status, humidity, temperature, crc)) == humidity
    ensures TemperatureRaw(PackFrame(status, humidity, temperature, crc)) == temperature
  {
    var d := PackFrame(status, humidity, temperature, crc);
    Pow2Values();
    HumidityRawValue(d);
    TemperatureRawValue(d);
    var h, t := humidity, temperature;
    DivModUnique(d[3], 16, h % 16, t / 0x1_0000);
    SplitDigits(h, 16, 256);
    SplitDigits(t, 256, 256);
  }

  /** Writing x in two digits of base a and b below the leading one. */
  lemma SplitDigits(x: nat, a: nat, b: nat)
    requires a > 0 && b > 0
    ensures x == (x / (a * b)) * (a * b) + ((x / a) % b) * a + x % a
  {
    var q, r := x / a, x % a;
    var q2, r2 := q / b, q % b;
    assert x == a * q + r;
    assert q == b * q2 + r2;
    assert x == (a * b) * q2 + (r2 * a + r) by {
      assert a * q == a * (b * q2) + a * r2;
      assert a * (b * q2) == (a * b) * q2;
    }
    assert 0 <= r2 * a + r < a * b by {
      assert r2 * a <= (b - 1) * a;
      assert (b - 1) * a == a * b - a;
    }
    DivModUnique(x, a * b, q2, r2 * a + r);
  }

  /** A frame is its status byte, its two 20-bit fields and its CRC byte, and nothing else. */
  lemma PackDecode(d: seq<Byte>)
    requires |d| == FrameLength
    ensures HumidityRaw(d) < Pow2(20) && TemperatureRaw(d) < Pow2(20)
    ensures PackFrame(d[0], HumidityRaw(d), TemperatureRaw(d), d[6]) == d
  {
    HumidityRawValue(d);
    TemperatureRawValue(d);
    var h, t := HumidityRaw(d), TemperatureRaw(d);
    var e := PackFrame(d[0], h, t, d[6]);
    var b1: int, b2: int, b3: int, b4: int, b5: int := d[1], d[2], d[3], d[4], d[5];
    DivModUnique(h, 0x1000, b1, b2 * 16 + b3 / 16);
    DivModUnique(h, 0x10, b1 * 0x100 + b2, b3 / 16);
    DivModUnique(h / 0x10, 0x100, b1, b2);
    DivModUnique(t, 0x1_0000, b3 % 16, b4 * 0x100 + b5);
    DivModUnique(t, 0x100, (b3 % 16) * 0x100 + b4, b5);
    DivModUnique(t / 0x100, 0x100, b3 % 16, b4);
    DivModUnique(b3, 16, b3 / 16, b3 % 16);
    assert e[3] == d[3];
    assert e == d;
  }

  /** Only bytes 1 to 5 of the frame matter: the status byte and the CRC byte are ignored. */
  lemma DecodeIgnoresStatusAndCrc(d: seq<Byte>, e: seq<Byte>)
    requires |d| == FrameLength && |e| == FrameLength
    requires d[1..6] == e[1..6]
    ensures Decode(d) == Decode(e)
  {
    assert d[1] == d[1..6][0] && d[2] == d[1..6][1] && d[3] == d[1..6][2];
    assert d[4] == d[1..6][3] && d[5] == d[1..6][4];
    assert e[1] == e[1..6][0] && e[2] == e[1..6][1] && e[3] == e[1..6][2];
    assert e[4] == e[1..6][3] && e[5] == e[1..6][4];
  }

  /** Every frame decodes to a temperature in [-50, 150) and a humidity in [0, 100). */
  lemma DecodeRanges(d: seq<Byte>)
    requires |d| == FrameLength
    ensures -50.0 <= Decode(d).temperature < 150.0
    ensures 0.0 <= Decode(d).humidity < 100.0
  {
    HumidityRawValue(d);
    TemperatureRawValue(d);
    ScaleRanges(HumidityRaw(d));
    ScaleRanges(TemperatureRaw(d));
  }

  /** The two scalings on the 20-bit range: [0, 2^20) onto [-50, 150) and [0, 100). */
  lemma ScaleRanges(raw: nat)
    requires raw < Pow2(20)
    ensures -50.0 <= Temperature(raw) < 150.0
    ensures 0.0 <= Humidity(raw) < 100.0
  {
    Pow2Values();
    assert (raw as real) < 1048576.0;
  }

  /** The scalings are invertible: the raw count is recovered from either value. */
  lemma ScaleInverse(raw: nat)
    ensures (Temperature(raw) + 50.0) / 200.0 * (Pow2(20) as real) == raw as real
    ensures Humidity(raw) / 100.0 * (Pow2(20) as real) == raw as real
  {
    Pow2Values();
  }

  /** An all-zero frame reads as -50 degrees Celsius and 0 percent. */
  lemma AllZeroFrame()
    ensures Decode([0, 0, 0, 0, 0, 0, 0]) == Reading(-50.0, 0.0)
  {
    HumidityRawValue([0, 0, 0, 0, 0, 0, 0]);
    TemperatureRawValue([0, 0, 0, 0, 0, 0, 0]);
  }
}
