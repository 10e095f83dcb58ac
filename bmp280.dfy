/**
 * The BMP280 pressure/temperature sensor: its protocol constants, the table of
 * its twelve calibration coefficients, the dict the driver keeps them in, the
 * signed fix-up of that dict, the 20-bit ADC assembly and the manufacturer's
 * fixed-point compensation of temperature and pressure, all on unbounded
 * integers with Python's floor semantics for `>>` and `//`.
 */
module Bmp280 {
  import opened Wrappers
  import opened Bits
  import opened Bus

  const Address: Byte := 0x77
  const CtrlReg: Byte := 0xF4
  /** The byte written to the control register before reading. */
  const ResetValue: Byte := 0xB6
  const TempMsb: Byte := 0xFA
  const PresMsb: Byte := 0xF7

  /** The coefficient names, in the order they are read and stored. */
  const CalibNames: seq<string> :=
    ["dig_T1", "dig_T2", "dig_T3", "dig_P1", "dig_P2", "dig_P3",
     "dig_P4", "dig_P5", "dig_P6", "dig_P7", "dig_P8", "dig_P9"]

  /** The register each coefficient's word is read from, in the same order: 0x88, 0x8A, .. 0x9E. */
  const CalibRegs: seq<Byte> :=
    [0x88, 0x8A, 0x8C, 0x8E, 0x90, 0x92, 0x94, 0x96, 0x98, 0x9A, 0x9C, 0x9E]

  /** The two coefficients the fix-up leaves unsigned. */
  const Unsigned: seq<string> := ["dig_P1", "dig_T1"]

  /** Coefficient i (T1, T2, T3, P1 .. P9) is read from register 0x88 + 2i, and no name repeats. */
  lemma CalibRegisters()
    ensures |CalibRegs| == |CalibNames| == 12
    ensures forall i :: 0 <= i < 12 ==> CalibRegs[i] == 0x88 + 2 * i
    ensures forall i, j :: 0 <= i < j < 12 ==> CalibNames[i] != CalibNames[j]
  {
  }

  // ----- The calibration dict -----

  /** A Python dict with string keys, as its items in insertion order. */
  type Dict = seq<(string, int)>

  predicate DistinctKeys(d: Dict)
  {
    forall i, j :: 0 <= i < j < |d| ==> d[i].0 != d[j].0
  }

  /** The position of key k, if it is present. */
  function Find(d: Dict, k: string): (r: Option<nat>)
    ensures r.Some? ==> r.value < |d| && d[r.value].0 == k
    ensures r.Some? ==> forall i :: 0 <= i < r.value ==> d[i].0 != k
    ensures r.None? ==> forall i :: 0 <= i < |d| ==> d[i].0 != k
  {
    if |d| == 0 then None
    else if d[|d| - 1].0 == k && Find(d[..|d| - 1], k).None? then Some(|d| - 1)
    else Find(d[..|d| - 1], k)
  }

  /** `d[k]` for a key that is present. */
  function Get(d: Dict, k: string): int
    requires Find(d, k).Some?
  {
    d[Find(d, k).value].1
  }

  /** `d[k] = v`: an existing key keeps its place and takes the new value; a new key is appended. */
  function Put(d: Dict, k: string, v: int): Dict
  {
    match Find(d, k)
    case Some(i) => d[i := (k, v)]
    case None => d + [(k, v)]
  }

  /** Put behaves as a dict assignment: k then maps to v, every other key keeps its value, keys stay distinct. */
  lemma PutGet(d: Dict, k: string, v: int, k': string)
    requires DistinctKeys(d)
    ensures DistinctKeys(Put(d, k, v))
    ensures Find(Put(d, k, v), k).Some? && Get(Put(d, k, v), k) == v
    ensures k' != k ==> Find(Put(d, k, v), k').Some? == Find(d, k').Some?
    ensures k' != k && Find(d, k').Some? ==> Get(Put(d, k, v), k') == Get(d, k')
  {
    var e := Put(d, k, v);
    match Find(d, k)
    case Some(i) =>
      assert forall j :: 0 <= j < |e| ==> e[j].0 == d[j].0;
      FindSameKeys(d, e, k);
      FindSameKeys(d, e, k');
    case None =>
      assert d == e[..|d|];
      FindDistinct(e, |d|);
      if k' != k {
        assert e[|d|].0 != k';
      }
  }

  /** Two dicts with the same keys in the same places find every key at the same place. */
  lemma FindSameKeys(d: Dict, e: Dict, k: string)
    requires |d| == |e| && forall j :: 0 <= j < |d| ==> d[j].0 == e[j].0
    ensures Find(d, k) == Find(e, k)
  {
    var a, b := Find(d, k), Find(e, k);
    if a.Some? && b.Some? {
      assert !(a.value < b.value) && !(b.value < a.value);
    }
  }

  /** In a dict with distinct keys, the key at position i is found at position i. */
  lemma FindDistinct(d: Dict, i: nat)
    requires DistinctKeys(d) && i < |d|
    ensures Find(d, d[i].0) == Some(i)
  {
  }

  /** Assigning to a key already present replaces its item in place. */
  lemma PutPresent(d: Dict, i: nat, v: int)
    requires DistinctKeys(d) && i < |d|
    ensures Put(d, d[i].0, v) == d[i := (d[i].0, v)]
  {
    FindDistinct(d, i);
  }

  /** Assigning the names in order to the values, one `d[name] = value` at a time. */
  function Fill(d: Dict, names: seq<string>, values: seq<int>): Dict
    requires |names| == |values|
    decreases |names|
  {
    if |names| == 0 then d else Fill(Put(d, names[0], values[0]), names[1..], values[1..])
  }

  /** Filling with new, distinct names appends them in order, each with its value. */
  lemma {:induction false} FillItems(d: Dict, names: seq<string>, values: seq<int>)
    requires |names| == |values| && DistinctKeys(d)
    requires forall i, j :: 0 <= i < j < |names| ==> names[i] != names[j]
    requires forall i, j :: 0 <= i < |d| && 0 <= j < |names| ==> d[i].0 != names[j]
    ensures var e := Fill(d, names, values);
            |e| == |d| + |names| && e[..|d|] == d && DistinctKeys(e) &&
            forall i :: 0 <= i < |names| ==> e[|d| + i] == (names[i], values[i])
    decreases |names|
  {
    if |names| > 0 {
      assert Find(d, names[0]).None?;
      var d' := d + [(names[0], values[0])];
      assert Put(d, names[0], values[0]) == d';
      assert DistinctKeys(d');
      FillItems(d', names[1..], values[1..]);
      var e := Fill(d', names[1..], values[1..]);
      assert e[..|d|] == e[..|d'|][..|d|];
      forall i | 0 <= i < |names| ensures e[|d| + i] == (names[i], values[i]) {
        if i > 0 {
          assert e[|d'| + (i - 1)] == (names[1..][i - 1], values[1..][i - 1]);
        } else {
          assert e[|d|] == e[..|d'|][|d|];
        }
      }
    }
  }

  // ----- The sign fix-up -----

  /** The loop body for one item: a signed coefficient above 32767 has 65536 subtracted. */
  function FixEntry(name: string, value: int): int
  {
    if name !in Unsigned && value > 32767 then value - 65536 else value
  }

  /** The dict after the fix-up loop: every item fixed in place. */
  function SignFixed(d: Dict): (r: Dict)
    ensures |r| == |d|
    decreases |d|
  {
    if |d| == 0 then []
    else
      var n := |d| - 1;
      SignFixed(d[..n]) + [(d[n].0, FixEntry(d[n].0, d[n].1))]
  }

  /** Item i of the fixed dict: the same key, its value fixed. */
  lemma {:induction false} SignFixedAt(d: Dict, i: nat)
    requires i < |d|
    ensures SignFixed(d)[i] == (d[i].0, FixEntry(d[i].0, d[i].1))
    decreases |d|
  {
    var n := |d| - 1;
    if i < n {
      SignFixedAt(d[..n], i);
    }
  }

  /** The fix-up of the first i + 1 items extends the fix-up of the first i by item i, fixed. */
  lemma SignFixedSnoc(d: Dict, i: nat)
    requires i < |d|
    ensures SignFixed(d[..i + 1]) == SignFixed(d[..i]) + [(d[i].0, FixEntry(d[i].0, d[i].1))]
  {
    assert d[..i + 1][..i] == d[..i];
  }

  /** A signed coefficient: the 16-bit word read as two's complement. */
  function Signed16(w: Word): (s: int)
    ensures -0x8000 <= s < 0x8000
    ensures (s - w) % 0x1_0000 == 0
  {
    if w > 32767 then w - 0x1_0000 else w
  }

  /** The word a signed coefficient was read as. */
  function Unsigned16(s: int): Word
    requires -0x8000 <= s < 0x8000
  {
    if s < 0 then s + 0x1_0000 else s
  }

  lemma SignedRoundTrip(w: Word, s: int)
    requires -0x8000 <= s < 0x8000
    ensures Unsigned16(Signed16(w)) == w
    ensures Signed16(Unsigned16(s)) == s
  {
  }

  /** 40000 is stored as -25536 and 100 as 100; T1 and P1 are kept even above 32767. */
  lemma FixEntryExamples()
    ensures FixEntry("dig_T2", 40000) == -25536
    ensures FixEntry("dig_P5", 100) == 100
    ensures FixEntry("dig_T1", 40000) == 40000 && FixEntry("dig_P1", 40000) == 40000
  {
    assert "dig_T2" !in Unsigned && "dig_P5" !in Unsigned;
    assert "dig_T1" in Unsigned && "dig_P1" == Unsigned[0];
  }

  /** On a word, the fix-up of a signed coefficient is Signed16, and T1, P1 are left alone. */
  lemma FixEntryWord(name: string, w: Word)
    ensures FixEntry(name, w) == if name in Unsigned then w else Signed16(w)
  {
  }

  /** Fixing a dict of words: keys and order kept, signed values in [-32768, 32767], T1 and P1 unchanged. */
  lemma SignFixedWords(d: Dict)
    requires forall i :: 0 <= i < |d| ==> 0 <= d[i].1 < 0x1_0000
    ensures forall i :: 0 <= i < |d| ==> SignFixed(d)[i].0 == d[i].0
    ensures forall i :: 0 <= i < |d| && d[i].0 !in Unsigned ==>
              -0x8000 <= SignFixed(d)[i].1 < 0x8000 && SignFixed(d)[i].1 == Signed16(d[i].1)
    ensures forall i :: 0 <= i < |d| && d[i].0 in Unsigned ==> SignFixed(d)[i].1 == d[i].1
  {
    forall i | 0 <= i < |d| {
      SignFixedAt(d, i);
    }
  }

  /** Running the fix-up a second time on a dict of words changes nothing. */
  lemma SignFixedIdempotent(d: Dict)
    requires forall i :: 0 <= i < |d| ==> 0 <= d[i].1 < 0x1_0000
    ensures SignFixed(SignFixed(d)) == SignFixed(d)
  {
    var e := SignFixed(d);
    var f := SignFixed(e);
    forall i | 0 <= i < |d|
      ensures f[i] == e[i]
    {
      SignFixedAt(d, i);
      SignFixedAt(e, i);
      FixEntryTwice(d[i].0, d[i].1);
    }
    assert f == e;
  }

  lemma FixEntryTwice(name: string, v: int)
    requires v < 0x1_0000
    ensures FixEntry(name, FixEntry(name, v)) == FixEntry(name, v)
  {
  }

  // ----- The coefficients as a record -----

  datatype Calibration = Calibration(
    t1: int, t2: int, t3: int,
    p1: int, p2: int, p3: int, p4: int, p5: int, p6: int, p7: int, p8: int, p9: int)

  /** The dict holds the twelve coefficient names at positions 0 to 11. */
  predicate HasCoefficients(d: Dict)
  {
    |d| >= 12 && forall i :: 0 <= i < 12 ==> Find(d, CalibNames[i]) == Some(i)
  }

  /** The coefficients looked up by name, as the compensation does. */
  function FromDict(d: Dict): Calibration
    requires HasCoefficients(d)
  {
    assert Find(d, CalibNames[0]).Some? && Find(d, CalibNames[1]).Some? && Find(d, CalibNames[2]).Some?;
    assert Find(d, CalibNames[3]).Some? && Find(d, CalibNames[4]).Some? && Find(d, CalibNames[5]).Some?;
    assert Find(d, CalibNames[6]).Some? && Find(d, CalibNames[7]).Some? && Find(d, CalibNames[8]).Some?;
    assert Find(d, CalibNames[9]).Some? && Find(d, CalibNames[10]).Some? && Find(d, CalibNames[11]).Some?;
    Calibration(
      Get(d, "dig_T1"), Get(d, "dig_T2"), Get(d, "dig_T3"),
      Get(d, "dig_P1"), Get(d, "dig_P2"), Get(d, "dig_P3"), Get(d, "dig_P4"), Get(d, "dig_P5"),
      Get(d, "dig_P6"), Get(d, "dig_P7"), Get(d, "dig_P8"), Get(d, "dig_P9"))
  }

  /** The reference reading of twelve calibration words: T1 and P1 unsigned, the rest signed. */
  function CalibrationOf(w: seq<Word>): Calibration
    requires |w| == 12
  {
    Calibration(
      w[0], Signed16(w[1]), Signed16(w[2]),
      w[3], Signed16(w[4]), Signed16(w[5]), Signed16(w[6]), Signed16(w[7]),
      Signed16(w[8]), Signed16(w[9]), Signed16(w[10]), Signed16(w[11]))
  }

  /**
   * Storing twelve words in the dict by name, fixing the signs and looking the
   * coefficients up again gives the reference reading of the words.
   */
  lemma FixedCoefficients(w: seq<Word>)
    requires |w| == 12
    ensures HasCoefficients(SignFixed(Fill([], CalibNames, w)))
    ensures FromDict(SignFixed(Fill([], CalibNames, w))) == CalibrationOf(w)
  {
    var e := SignFixed(Fill([], CalibNames, w));
    FixedItems(w);
    assert HasCoefficients(e);
    assert "dig_T1" in Unsigned && "dig_P1" in Unsigned;
    FixedUnsigned(w, e, 0);
    FixedUnsigned(w, e, 3);
    FixedSigned(w, e, 1);
    FixedSigned(w, e, 2);
    FixedSigned(w, e, 4);
    FixedSigned(w, e, 5);
    FixedSigned(w, e, 6);
    FixedSigned(w, e, 7);
    FixedSigned(w, e, 8);
    FixedSigned(w, e, 9);
    FixedSigned(w, e, 10);
    FixedSigned(w, e, 11);
  }

  /** The dict read from twelve words has distinct keys, so the fix-up loop can update it in place. */
  lemma FilledKeysDistinct(w: seq<Word>)
    requires |w| == 12
    ensures DistinctKeys(Fill([], CalibNames, w))
  {
    CalibRegisters();
    FillItems([], CalibNames, w);
  }

  /** The fixed dict of twelve words: the names in order, each with its fixed word, found where it stands. */
  lemma FixedItems(w: seq<Word>)
    requires |w| == 12
    ensures var e := SignFixed(Fill([], CalibNames, w));
            |e| == 12 &&
            (forall i :: 0 <= i < 12 ==> e[i] == (CalibNames[i], FixEntry(CalibNames[i], w[i]))) &&
            (forall i :: 0 <= i < 12 ==> Find(e, CalibNames[i]) == Some(i))
  {
    CalibRegisters();
    FixedFill(CalibNames, w);
  }

  /** Filling an empty dict with distinct names and fixing it: each name in its place, with its fixed value. */
  lemma FixedFill(names: seq<string>, w: seq<int>)
    requires |names| == |w|
    requires forall i, j :: 0 <= i < j < |names| ==> names[i] != names[j]
    ensures var e := SignFixed(Fill([], names, w));
            |e| == |names| &&
            (forall i :: 0 <= i < |names| ==> e[i] == (names[i], FixEntry(names[i], w[i]))) &&
            (forall i :: 0 <= i < |names| ==> Find(e, names[i]) == Some(i))
  {
    var empty: Dict := [];
    var d := Fill(empty, names, w);
    FillItems(empty, names, w);
    var e := SignFixed(d);
    forall i | 0 <= i < |names| ensures e[i] == (names[i], FixEntry(names[i], w[i])) {
      assert d[|empty| + i] == (names[i], w[i]);
      SignFixedAt(d, i);
    }
    assert DistinctKeys(e) by {
      forall i, j | 0 <= i < j < |e| ensures e[i].0 != e[j].0 {
        assert e[i].0 == names[i] && e[j].0 == names[j];
      }
    }
    forall i | 0 <= i < |names| ensures Find(e, names[i]) == Some(i) {
      FindDistinct(e, i);
    }
  }

  lemma FixedUnsigned(w: seq<Word>, e: Dict, i: nat)
    requires |w| == 12 && (i == 0 || i == 3) && |e| == 12
    requires e[i] == (CalibNames[i], FixEntry(CalibNames[i], w[i]))
    requires Find(e, CalibNames[i]) == Some(i)
    ensures Get(e, CalibNames[i]) == w[i]
  {
    assert CalibNames[i] in Unsigned;
  }

  lemma FixedSigned(w: seq<Word>, e: Dict, i: nat)
    requires |w| == 12 && 0 < i < 12 && i != 3 && |e| == 12
    requires e[i] == (CalibNames[i], FixEntry(CalibNames[i], w[i]))
    requires Find(e, CalibNames[i]) == Some(i)
    ensures Get(e, CalibNames[i]) == Signed16(w[i])
  {
    assert CalibNames[i] !in Unsigned;
  }

  // ----- Compensation -----

  /** `(b0 << 16 | b1 << 8 | b2) >> 4`: the 20-bit ADC value from its three registers. */
  function Adc20(b0: Byte, b1: Byte, b2: Byte): nat
  {
    Shr(Or(Or(Shl(b0, 16), Shl(b1, 8)), b2), 4)
  }

  /** The ADC value is the two first bytes and the high nibble of the third, a number below 2^20. */
  lemma Adc20Value(b0: Byte, b1: Byte, b2: Byte)
    ensures Adc20(b0, b1, b2) == b0 as int * 4096 + b1 as int * 16 + b2 as int / 16
    ensures Adc20(b0, b1, b2) < Pow2(20)
  {
    Pow2Values();
    var x: nat, y: nat, z: nat := b0, b1, b2;
    assert Or(Shl(x, 16), Shl(y, 8)) == (x * 256 + y) * Pow2(8) by {
      OrShifted(x, y * 256, 16);
    }
    OrShifted(x * 256 + y, z, 8);
    var v := (x * 256 + y) * 256 + z;
    DivModUnique(v, 16, x * 4096 + y * 16 + z / 16, z % 16);
  }

  /** The registers holding a given 20-bit ADC value, with any low nibble in the third. */
  function AdcBytes(adc: nat, low: nat): (Byte, Byte, Byte)
    requires adc < Pow2(20) && low < 16
  {
    Pow2Values();
    (adc / 4096, (adc / 16) % 256, (adc % 16) * 16 + low)
  }

  /** Assembling the registers of an ADC value gives it back. */
  lemma AdcRoundTrip(adc: nat, low: nat)
    requires adc < Pow2(20) && low < 16
    ensures var (b0, b1, b2) := AdcBytes(adc, low); Adc20(b0, b1, b2) == adc
  {
    Pow2Values();
    var (b0, b1, b2) := AdcBytes(adc, low);
    Adc20Value(b0, b1, b2);
    DivModUnique(b2, 16, adc % 16, low);
    SplitDigits16(adc);
  }

  lemma SplitDigits16(x: nat)
    ensures x == (x / 4096) * 4096 + ((x / 16) % 256) * 16 + x % 16
  {
    var q, r := x / 16, x % 16;
    assert x == 16 * q + r;
    assert q == 256 * (q / 256) + q % 256;
    DivModUnique(x, 4096, q / 256, (q % 256) * 16 + r);
  }

  /** The fine temperature, built from var1 and var2 exactly as the driver does. */
  function TFine(c: Calibration, adcT: int): int
  {
    var var1 := Shr((Shr(adcT, 3) - Shl(c.t1, 1)) * c.t2, 11);
    var var2 := Shr(Shr((Shr(adcT, 4) - c.t1) * (Shr(adcT, 4) - c.t1), 12) * c.t3, 14);
    var1 + var2
  }

  /** `(t_fine * 5 + 128) >> 8`: the temperature in hundredths of a degree. */
  function Temperature100(tFine: int): (r: int)
    ensures 256 * r <= 5 * tFine + 128 < 256 * r + 256
  {
    Shr(tFine * 5 + 128, 8)
  }

  /** `float(...) / 100`: degrees Celsius, over the reals. */
  function Celsius(t100: int): real
  {
    (t100 as real) / 100.0
  }

  /** The reported temperature lies within 0.005 degrees of t_fine / 5120. */
  lemma TemperatureRounding(tFine: int)
    ensures -0.005 < Celsius(Temperature100(tFine)) - (tFine as real) / 5120.0 <= 0.005
  {
    var r := Temperature100(tFine);
    assert 256.0 * (r as real) <= 5.0 * (tFine as real) + 128.0 < 256.0 * (r as real) + 256.0;
  }

  /**
   * The reference point of the temperature stage: a raw temperature of 16 * dig_T1
   * zeroes both var1 and var2, whatever dig_T2 and dig_T3, so t_fine is 0 and the
   * reported temperature is 0.00 degrees.
   */
  lemma TFineAtReference(c: Calibration)
    ensures TFine(c, 16 * c.t1) == 0
    ensures Celsius(Temperature100(TFine(c, 16 * c.t1))) == 0.0
  {
    var adcT := 16 * c.t1;
    assert Pow2(1) == 2 && Pow2(3) == 8 && Pow2(4) == 16 && Pow2(8) == 256 by { Pow2Values(); }
    assert Shr(adcT, 3) == Shl(c.t1, 1) by {
      assert adcT == Pow2(3) * (2 * c.t1);
      ShrMultiple(2 * c.t1, 3);
    }
    assert Shr(adcT, 4) == c.t1 by {
      assert adcT == Pow2(4) * c.t1;
      ShrMultiple(c.t1, 4);
    }
    ShrZero(0, 11);
    ShrZero(0, 12);
    ShrZero(0, 14);
    assert TFine(c, adcT) == 0;
    ShrZero(128, 8);
    assert Temperature100(0) == 0;
  }

  /** The temperature in hundredths does not decrease as t_fine grows. */
  lemma TemperatureMonotone(a: int, b: int)
    requires a <= b
    ensures Temperature100(a) <= Temperature100(b)
  {
  }

  /** var2 of the pressure stage: the dig_P6, dig_P5 and dig_P4 terms of the offset. */
  function PressureOffset(c: Calibration, tFine: int): int
  {
    var var1 := tFine - 128000;
    var var2 := var1 * var1 * c.p6;
    var var2 := var2 + Shl(var1 * c.p5, 17);
    var2 + Shl(c.p4, 35)
  }

  /** var1 of the pressure stage: the dig_P3 and dig_P2 terms, before the scaling by dig_P1. */
  function PressureScale(c: Calibration, tFine: int): int
  {
    var var1 := tFine - 128000;
    Shr(var1 * var1 * c.p3, 8) + Shl(var1 * c.p2, 12)
  }

  /** `(((1 << 47) + var1) * dig_P1) >> 33`: the divisor the zero guard tests. */
  function PressureDivisor(c: Calibration, tFine: int): (r: int)
    ensures r == 0 <==> 0 <= (Shl(1, 47) + PressureScale(c, tFine)) * c.p1 < Pow2(33)
  {
    var x := (Shl(1, 47) + PressureScale(c, tFine)) * c.p1;
    ShrZero(x, 33);
    Shr(x, 33)
  }

  /** `p = (((1048576 - adc_P) << 31) - var2) * 3125 // var1`, dividing with the floor. */
  function PressureQuotient(c: Calibration, tFine: int, adcP: int): (q: int)
    requires PressureDivisor(c, tFine) != 0
  {
    var p := 1048576 - adcP;
    FloorDiv((Shl(p, 31) - PressureOffset(c, tFine)) * 3125, PressureDivisor(c, tFine))
  }

  /**
   * The pressure in 1/256 Pa, from t_fine and the raw pressure, or None when the divisor is 0
   * and no division happens.
   */
  function Pressure(c: Calibration, tFine: int, adcP: int): (r: Option<int>)
    ensures r.None? <==> PressureDivisor(c, tFine) == 0
  {
    if PressureDivisor(c, tFine) == 0 then None
    else
      var p := PressureQuotient(c, tFine, adcP);
      var var1 := Shr(c.p9 * Shr(p, 13) * Shr(p, 13), 25);
      var var2 := Shr(c.p8 * p, 19);
      Some(Shr(p + var1 + var2, 8) + Shl(c.p7, 4))
  }

  /** The quotient is the floor of the dividend over the divisor, for either sign of the divisor. */
  lemma QuotientIsFloor(c: Calibration, tFine: int, adcP: int)
    requires PressureDivisor(c, tFine) != 0
    ensures var q := PressureQuotient(c, tFine, adcP);
            var n := (Shl(1048576 - adcP, 31) - PressureOffset(c, tFine)) * 3125;
            var d := PressureDivisor(c, tFine);
            (q as real) <= (n as real) / (d as real) < (q as real) + 1.0
  {
    var n := (Shl(1048576 - adcP, 31) - PressureOffset(c, tFine)) * 3125;
    var d := PressureDivisor(c, tFine);
    assert PressureQuotient(c, tFine, adcP) == FloorDiv(n, d);
    FloorDivReal(n, d);
  }

  /** FloorDiv is the floor of the exact quotient. */
  lemma FloorDivReal(n: int, d: int)
    requires d != 0
    ensures (FloorDiv(n, d) as real) <= (n as real) / (d as real) < (FloorDiv(n, d) as real) + 1.0
  {
    var q := FloorDiv(n, d);
    if d > 0 {
      BracketReal(n as real, d as real, q as real);
    } else {
      BracketReal(-n as real, -d as real, q as real);
      assert (-n as real) / (-d as real) == (n as real) / (d as real);
    }
  }

  lemma BracketReal(x: real, y: real, z: real)
    requires y > 0.0 && y * z <= x < y * z + y
    ensures z <= x / y < z + 1.0
  {
    var t := x / y;
    assert x == y * t;
    if t < z {
      MulMonoReal(y, t, z);
    }
    if t >= z + 1.0 {
      MulMonoReal(y, z + 1.0, t);
    }
  }

  lemma MulMonoReal(y: real, a: real, b: real)
    requires y > 0.0 && a <= b
    ensures y * a <= y * b
  {
    assert y * b - y * a == y * (b - a);
  }

  /** A zero P1 always trips the guard: there is no pressure. */
  lemma ZeroP1NoPressure(c: Calibration, tFine: int, adcP: int)
    requires c.p1 == 0
    ensures Pressure(c, tFine, adcP).None?
  {
  }

  /** The coefficients and raw readings of the manufacturer's worked compensation example. */
  const ExampleCalibration: Calibration :=
    Calibration(27504, 26435, -1000, 36477, -10685, 3024, 2855, 140, -7, 15500, -14600, 6000)
  const ExampleAdcT: int := 519888
  const ExampleAdcP: int := 415148

  /**
   * On the worked example. t_fine 128422 and 25.08 degrees are the manufacturer's values.
   * 25767233 / 256 Pa is what the Python formula gives on these inputs; it is not a
   * manufacturer figure.
   */
  lemma WorkedExample()
    ensures TFine(ExampleCalibration, ExampleAdcT) == 128422
    ensures Temperature100(128422) == 2508
    ensures PressureDivisor(ExampleCalibration, 128422) == 597560748
    ensures Pressure(ExampleCalibration, 128422, ExampleAdcP) == Some(25767233)
  {
    Pow2Values();
    var c := ExampleCalibration;
    assert Shr(ExampleAdcT, 3) == 64986;
    assert Shr(ExampleAdcT, 4) == 32493;
    assert Shr((64986 - 55008) * 26435, 11) == 128793;
    assert Shr(Shr(4989 * 4989, 12) * -1000, 14) == -371;
    assert PressureScale(c, 128422) == -18467047103 by {
      assert Shr(422 * 422 * 3024, 8) == 2103617;
      assert Shl(422 * -10685, 12) == -18469150720;
    }
    var x := (Pow2(47) - 18467047103) * 36477;
    assert x == 5133007740260123325;
    assert Shr(x, 33) == 597560748;
    assert PressureOffset(c, 128422) == 98104795527812 by {
      assert Shl(422 * 140, 17) == 7743733760;
      assert Shl(2855, 35) == 98097053040640;
    }
    var n := (Shl(1048576 - ExampleAdcP, 31) - 98104795527812) * 3125;
    assert n == 3944285864554787500;
    var p := FloorDiv(n, 597560748);
    assert p == 6600644165;
    assert Shr(p, 13) == 805742;
    assert Shr(6000 * 805742 * 805742, 25) == 116089612;
    assert Shr(-14600 * p, 19) == -183810053;
    assert Shr(p + 116089612 - 183810053, 8) == 25519233;
  }
}
