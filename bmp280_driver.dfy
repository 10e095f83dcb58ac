/**
 * The BMP280 read sequence over the mock bus: write 0xB6 to the control
 * register, wait 50 ms, read the twelve calibration words into a dict, fix
 * their signs in place, read the raw temperature and then the raw pressure,
 * and compensate. A bus that stops answering at any step gives no reading.
 *
 * `Bmp280Spec` is the sequence as a function of the bus state; the method
 * `ReadBmp280` performs it on a `MockBus` and is proved to agree with it. The
 * lemmas after it are about `Bmp280Spec`.
 */
module Bmp280Driver {
  import opened Wrappers
  import opened Bus
  import opened Bmp280

  /**
   * What the driver reports: a reading (degrees Celsius, pascals), no reading
   * after a bus error, or a degenerate calibration that makes the pressure
   * divisor zero.
   */
  datatype Bmp280Result = Reading(temperature: real, pressure: real) | Absent | Degenerate

  const ResetWrite: Command := WriteByteData(Address, CtrlReg, ResetValue)
  const TempRead: Command := ReadBlock(Address, TempMsb, 3)
  const PresRead: Command := ReadBlock(Address, PresMsb, 3)

  /** The word reads of a list of registers, in order. */
  function WordReads(regs: seq<Byte>): seq<Command>
  {
    seq(|regs|, i requires 0 <= i < |regs| => ReadWord(Address, regs[i]))
  }

  /** `bus.read_word_data(0x77, reg)` for each register in turn: the words, or None once a read fails. */
  function ReadWords(m: Mock, regs: seq<Byte>): (r: (Option<seq<Word>>, Mock))
    ensures r.0.Some? ==> |r.0.value| == |regs|
    decreases |regs|
  {
    if |regs| == 0 then (Some([]), m)
    else
      var (w, m1) := ReceiveWord(m, Address, regs[0]);
      if w.None? then (None, m1)
      else
        var (rest, m2) := ReadWords(m1, regs[1..]);
        (if rest.None? then None else Some([w.value] + rest.value), m2)
  }

  /**
   * `d[name] = bus.read_word_data(0x77, reg)` for each name and register in
   * turn: the dict, or None once a read fails.
   */
  function ReadCalibrationSpec(m: Mock, names: seq<string>, regs: seq<Byte>, d: Dict): (r: (Option<Dict>, Mock))
    requires |names| == |regs|
  {
    var (words, m1) := ReadWords(m, regs);
    (if words.None? then None else Some(Fill(d, names, words.value)), m1)
  }

  /**
   * The word reads succeed exactly when the device answers every read and
   * enough words are queued; they then give the next words in order and
   * consume them.
   */
  lemma ReadWordsExact(m: Mock, regs: seq<Byte>)
    ensures ReadWords(m, regs).0.Some? <==> AnswersFor(m, |regs|) && |regs| <= |m.words|
    ensures ReadWords(m, regs).0.Some? ==>
              ReadWords(m, regs) ==
                (Some(m.words[..|regs|]),
                 m.(words := m.words[|regs|..], issued := m.issued + |regs|,
                    trace := m.trace + WordReads(regs)))
  {
    ReadWordsSucceeds(m, regs);
    ReadWordsValues(m, regs);
    ReadWordsEffect(m, regs);
    ReadWordsTrace(m, regs);
  }

  lemma {:induction false} ReadWordsSucceeds(m: Mock, regs: seq<Byte>)
    ensures ReadWords(m, regs).0.Some? <==> AnswersFor(m, |regs|) && |regs| <= |m.words|
    decreases |regs|
  {
    if |regs| > 0 {
      var (w, m1) := ReceiveWord(m, Address, regs[0]);
      if w.Some? {
        ReadWordsSucceeds(m1, regs[1..]);
      }
    }
  }

  lemma {:induction false} ReadWordsValues(m: Mock, regs: seq<Byte>)
    ensures var r := ReadWords(m, regs);
            r.0.Some? ==> |regs| <= |m.words| && r.0.value == m.words[..|regs|] && r.1.words == m.words[|regs|..]
    decreases |regs|
  {
    if |regs| == 0 {
      assert m.words[..0] == [] && m.words[0..] == m.words;
    } else {
      var (w, m1) := ReceiveWord(m, Address, regs[0]);
      if w.Some? {
        ReadWordsValues(m1, regs[1..]);
        if ReadWords(m, regs).0.Some? {
          assert m.words[..|regs|] == [w.value] + m1.words[..|regs| - 1];
          assert m1.words[|regs| - 1..] == m.words[|regs|..];
        }
      }
    }
  }

  lemma {:induction false} ReadWordsEffect(m: Mock, regs: seq<Byte>)
    ensures var r := ReadWords(m, regs);
            r.1.blocks == m.blocks && r.1.failAt == m.failAt
            && (r.0.Some? ==> r.1.issued == m.issued + |regs|)
    decreases |regs|
  {
    if |regs| > 0 {
      var (w, m1) := ReceiveWord(m, Address, regs[0]);
      if w.Some? {
        ReadWordsEffect(m1, regs[1..]);
      }
    }
  }

  lemma ReadWordsTrace(m: Mock, regs: seq<Byte>)
    ensures var r := ReadWords(m, regs);
            r.0.Some? ==> r.1.trace == m.trace + WordReads(regs)
  {
    ReadWordsLog(m, regs);
    var t := ReadWords(m, regs).1.trace;
    if ReadWords(m, regs).0.Some? {
      assert t == m.trace + WordReads(regs) by {
        assert t[..|m.trace|] == m.trace;
        forall i | |m.trace| <= i < |t| ensures t[i] == (m.trace + WordReads(regs))[i] {
          assert t[|m.trace| + (i - |m.trace|)] == ReadWord(Address, regs[i - |m.trace|]);
        }
      }
    }
  }

  /** The trace after the word reads: the old trace, then one word read per register, in order. */
  lemma {:induction false} ReadWordsLog(m: Mock, regs: seq<Byte>)
    ensures var r := ReadWords(m, regs);
            r.0.Some? ==>
              |r.1.trace| == |m.trace| + |regs| && r.1.trace[..|m.trace|] == m.trace
              && forall i :: 0 <= i < |regs| ==> r.1.trace[|m.trace| + i] == ReadWord(Address, regs[i])
    decreases |regs|
  {
    if |regs| > 0 {
      var (w, m1) := ReceiveWord(m, Address, regs[0]);
      if w.Some? {
        ReadWordsLog(m1, regs[1..]);
        var t := ReadWords(m, regs).1.trace;
        if ReadWords(m, regs).0.Some? {
          assert t == ReadWords(m1, regs[1..]).1.trace;
          assert t[..|m.trace|] == t[..|m1.trace|][..|m.trace|];
          forall i | 0 <= i < |regs| ensures t[|m.trace| + i] == ReadWord(Address, regs[i]) {
            if i == 0 {
              assert t[|m.trace|] == t[..|m1.trace|][|m.trace|];
            } else {
              assert t[|m1.trace| + (i - 1)] == ReadWord(Address, regs[1..][i - 1]);
            }
          }
        }
      }
    }
  }

  /** The word reads only add to the trace. */
  lemma {:induction false} ReadWordsExtendsTrace(m: Mock, regs: seq<Byte>)
    ensures var t := ReadWords(m, regs).1.trace;
            |t| >= |m.trace| && t[..|m.trace|] == m.trace
    decreases |regs|
  {
    if |regs| > 0 {
      var (w, m1) := ReceiveWord(m, Address, regs[0]);
      if w.Some? {
        ReadWordsExtendsTrace(m1, regs[1..]);
      }
    }
  }

  method ReadCalibration(bus: MockBus, names: seq<string>, regs: seq<Byte>, d: Dict) returns (calib: Option<Dict>)
    requires |names| == |regs|
    modifies bus
    ensures (calib, bus.State()) == ReadCalibrationSpec(old(bus.State()), names, regs, d)
    decreases |regs|
  {
    if |regs| == 0 {
      return Some(d);
    }
    var w := bus.ReadWordData(Address, regs[0]);
    if w.None? {
      return None;
    }
    calib := ReadCalibration(bus, names[1..], regs[1..], Put(d, names[0], w.value));
  }

  /**
   * The fix-up loop of the driver: for each item in order, a signed
   * coefficient above 32767 has 65536 subtracted and is stored back under its
   * name. The result is SignFixed of the dict.
   */
  method SignFixCalibration(calib: Dict) returns (fixed: Dict)
    requires DistinctKeys(calib)
    ensures fixed == SignFixed(calib)
  {
    fixed := calib;
    for i := 0 to |calib|
      invariant FixedUpTo(calib, fixed, i)
    {
      var (name, value) := fixed[i];
      FixStep(calib, fixed, i);
      if name !in Unsigned {
        if value > 32767 {
          value := value - 65536;
        }
      }
      fixed := Put(fixed, name, value);
    }
    assert calib[..|calib|] == calib;
  }

  /** Part way through the loop: the first i items are fixed, the rest are as read, and no key has moved. */
  predicate FixedUpTo(calib: Dict, fixed: Dict, i: nat)
  {
    i <= |calib| && |fixed| == |calib|
    && (forall j :: 0 <= j < |calib| ==> fixed[j].0 == calib[j].0)
    && fixed[..i] == SignFixed(calib[..i])
    && fixed[i..] == calib[i..]
  }

  /** One turn of the loop fixes item i in place. */
  lemma FixStep(calib: Dict, fixed: Dict, i: nat)
    requires DistinctKeys(calib) && FixedUpTo(calib, fixed, i) && i < |calib|
    ensures fixed[i] == calib[i]
    ensures FixedUpTo(calib, Put(fixed, calib[i].0, FixEntry(calib[i].0, calib[i].1)), i + 1)
  {
    assert fixed[i] == fixed[i..][0];
    assert DistinctKeys(fixed) by {
      forall a, b | 0 <= a < b < |fixed| ensures fixed[a].0 != fixed[b].0 {
        assert calib[a].0 != calib[b].0;
      }
    }
    var v := FixEntry(calib[i].0, calib[i].1);
    PutPresent(fixed, i, v);
    SignFixedSnoc(calib, i);
    var e := fixed[i := (calib[i].0, v)];
    assert e[..i + 1] == fixed[..i] + [(calib[i].0, v)];
    assert e[i + 1..] == fixed[i..][1..];
  }

  /** Compensation of the raw temperature and pressure bytes with a calibration. */
  function Compensate(c: Calibration, rawT: seq<Byte>, rawP: seq<Byte>): Bmp280Result
    requires |rawT| == 3 && |rawP| == 3
  {
    var tFine := TFine(c, Adc20(rawT[0], rawT[1], rawT[2]));
    var temperature := Celsius(Temperature100(tFine));
    match Pressure(c, tFine, Adc20(rawP[0], rawP[1], rawP[2]))
    case None => Degenerate
    case Some(p) => Reading(temperature, (p as real) / 256.0)
  }

  /**
   * The compensation never reports a bus error. It is degenerate exactly when
   * the pressure divisor is zero, and otherwise it is the temperature in degrees
   * with the pressure in pascals, the fixed-point value divided by 256.
   */
  lemma CompensateExact(c: Calibration, rawT: seq<Byte>, rawP: seq<Byte>)
    requires |rawT| == 3 && |rawP| == 3
    ensures !Compensate(c, rawT, rawP).Absent?
    ensures var tFine := TFine(c, Adc20(rawT[0], rawT[1], rawT[2]));
            Compensate(c, rawT, rawP).Degenerate? <==> PressureDivisor(c, tFine) == 0
    ensures var tFine := TFine(c, Adc20(rawT[0], rawT[1], rawT[2]));
            var p := Pressure(c, tFine, Adc20(rawP[0], rawP[1], rawP[2]));
            PressureDivisor(c, tFine) != 0 ==>
              p.Some? &&
              Compensate(c, rawT, rawP) == Reading(Celsius(Temperature100(tFine)), (p.value as real) / 256.0)
  {
  }

  /**
   * The reset, the 50 ms wait and the twelve word reads: the coefficients the
   * words stand for, or None after a bus error. The driver's route to them,
   * through the dict and its sign fix-up, is `ReadCoefficients`, proved to
   * arrive at the same coefficients.
   */
  function Calibrate(m: Mock): (r: (Option<Calibration>, Mock))
  {
    var (reset, m1) := Transmit(m, ResetWrite);
    if !reset then (None, m1)
    else
      var (words, m2) := ReadWords(Delay(m1, 50), CalibRegs);
      if words.None? then (None, m2) else (Some(CalibrationOf(words.value)), m2)
  }

  /** The two 3-byte reads: the raw temperature bytes and the raw pressure bytes. */
  function Sample(m: Mock): (r: (Option<(seq<Byte>, seq<Byte>)>, Mock))
    ensures r.0.Some? ==> |r.0.value.0| == 3 && |r.0.value.1| == 3
  {
    var (rawT, m1) := ReceiveBlock(m, Address, TempMsb, 3);
    if rawT.None? then (None, m1)
    else
      var (rawP, m2) := ReceiveBlock(m1, Address, PresMsb, 3);
      if rawP.None? then (None, m2) else (Some((rawT.value, rawP.value)), m2)
  }

  /** The writes and reads done while the bus is open, and the compensation of what they read. */
  function Bmp280Session(m: Mock): (r: (Bmp280Result, Mock))
  {
    var (c, m1) := Calibrate(m);
    if c.None? then (Absent, m1)
    else
      var (raw, m2) := Sample(m1);
      if raw.None? then (Absent, m2) else (Compensate(c.value, raw.value.0, raw.value.1), m2)
  }

  /** `read_BMP280`: open the bus, run the session, close the bus. */
  function Bmp280Spec(m: Mock): (r: (Bmp280Result, Mock))
  {
    var (isOpen, m1) := Transmit(m, Command.Open(1));
    if !isOpen then (Absent, m1)
    else
      var (result, m2) := Bmp280Session(m1);
      (result, Release(m2))
  }

  method Measure(bus: MockBus) returns (r: Bmp280Result)
    modifies bus
    ensures (r, bus.State()) == Bmp280Session(old(bus.State()))
  {
    var c := ReadCoefficients(bus);
    if c.None? {
      return Absent;
    }
    var raw := ReadRaw(bus);
    if raw.None? {
      return Absent;
    }
    r := Compensate(c.value, raw.value.0, raw.value.1);
  }

  method ReadCoefficients(bus: MockBus) returns (c: Option<Calibration>)
    modifies bus
    ensures (c, bus.State()) == Calibrate(old(bus.State()))
  {
    var reset := bus.WriteByteData(Address, CtrlReg, ResetValue);
    if !reset {
      return None;
    }
    bus.Sleep(50);
    ghost var m2 := bus.State();
    var calib := ReadCalibration(bus, CalibNames, CalibRegs, []);
    if calib.None? {
      return None;
    }
    ghost var words := ReadWords(m2, CalibRegs).0.value;
    var coefficients := FixAndLookUp(calib.value, words);
    c := Some(coefficients);
  }

  /**
   * The dict as read holds the twelve words under their names; fixing its
   * signs in place and looking the coefficients up by name gives the
   * reference reading of the words.
   */
  method FixAndLookUp(calib: Dict, ghost words: seq<Word>) returns (c: Calibration)
    requires |words| == 12 && calib == Fill([], CalibNames, words)
    ensures c == CalibrationOf(words)
  {
    FilledKeysDistinct(words);
    var fixed := SignFixCalibration(calib);
    FixedCoefficients(words);
    c := FromDict(fixed);
  }

  method ReadRaw(bus: MockBus) returns (raw: Option<(seq<Byte>, seq<Byte>)>)
    modifies bus
    ensures (raw, bus.State()) == Sample(old(bus.State()))
  {
    var rawT := bus.ReadBlockData(Address, TempMsb, 3);
    if rawT.None? {
      return None;
    }
    var rawP := bus.ReadBlockData(Address, PresMsb, 3);
    if rawP.None? {
      return None;
    }
    raw := Some((rawT.value, rawP.value));
  }

  method ReadBmp280(bus: MockBus) returns (r: Bmp280Result)
    modifies bus
    ensures (r, bus.State()) == Bmp280Spec(old(bus.State()))
  {
    var isOpen := bus.Open(1);
    if !isOpen {
      return Absent;
    }
    r := Measure(bus);
    bus.Close();
  }

  // ----- What the sequence does -----

  /** Everything a complete session issues while the bus is open. */
  function SessionTrace(): seq<Command>
  {
    [ResetWrite, Sleep(50)] + WordReads(CalibRegs) + [TempRead, PresRead]
  }

  /** Everything a complete run issues before closing the bus. */
  function Bmp280Trace(): seq<Command>
  {
    [Command.Open(1)] + SessionTrace()
  }

  /**
   * The order of the bus operations: open, the reset write of 0xB6 to 0xF4,
   * 50 ms, word i from register 0x88 + 2i for i = 0 .. 11, the 3-byte read at
   * 0xFA, the 3-byte read at 0xF7.
   */
  lemma Bmp280TraceOrder()
    ensures |Bmp280Trace()| == 17
    ensures Bmp280Trace()[0] == Command.Open(1)
    ensures Bmp280Trace()[1] == WriteByteData(0x77, 0xF4, 0xB6) && Bmp280Trace()[2] == Sleep(50)
    ensures forall i :: 0 <= i < 12 ==> Bmp280Trace()[3 + i] == ReadWord(0x77, 0x88 + 2 * i)
    ensures Bmp280Trace()[15] == ReadBlock(0x77, 0xFA, 3) && Bmp280Trace()[16] == ReadBlock(0x77, 0xF7, 3)
  {
    CalibRegisters();
    assert Bmp280Trace() == [Command.Open(1), ResetWrite, Sleep(50)] + WordReads(CalibRegs) + [TempRead, PresRead];
    TraceLayout([Command.Open(1), ResetWrite, Sleep(50)], CalibRegs, [TempRead, PresRead]);
  }

  /** Where each word read sits in a trace made of a prefix, the word reads and a suffix. */
  lemma TraceLayout(prefix: seq<Command>, regs: seq<Byte>, suffix: seq<Command>)
    ensures var t := prefix + WordReads(regs) + suffix;
            |t| == |prefix| + |regs| + |suffix|
            && (forall i :: 0 <= i < |prefix| ==> t[i] == prefix[i])
            && (forall i :: 0 <= i < |regs| ==> t[|prefix| + i] == ReadWord(Address, regs[i]))
            && (forall i :: 0 <= i < |suffix| ==> t[|prefix| + |regs| + i] == suffix[i])
  {
  }

  /** The calibration step succeeds exactly when the reset write and the twelve word reads are answered. */
  lemma CalibrateSucceeds(m: Mock)
    ensures Calibrate(m).0.Some? <==> AnswersFor(m, 13) && |m.words| >= 12
  {
    CalibRegisters();
    if Answers(m) {
      ReadWordsSucceeds(Delay(Issue(m, ResetWrite), 50), CalibRegs);
    }
  }

  /** It then gives the reference reading of the next twelve words. */
  lemma CalibrateValue(m: Mock)
    ensures Calibrate(m).0.Some? ==> |m.words| >= 12 && Calibrate(m).0.value == CalibrationOf(m.words[..12])
  {
    CalibRegisters();
    if Answers(m) {
      var m2 := Delay(Issue(m, ResetWrite), 50);
      ReadWordsValues(m2, CalibRegs);
    }
  }

  /** It consumes those words, issues 13 transactions and logs the reset, the wait and the word reads. */
  lemma CalibrateState(m: Mock)
    ensures Calibrate(m).0.Some? ==>
      |m.words| >= 12 &&
      Calibrate(m).1 ==
        m.(words := m.words[12..], issued := m.issued + 13,
           trace := m.trace + [ResetWrite, Sleep(50)] + WordReads(CalibRegs))
  {
    CalibRegisters();
    if Answers(m) {
      var m2 := Delay(Issue(m, ResetWrite), 50);
      ReadWordsValues(m2, CalibRegs);
      ReadWordsEffect(m2, CalibRegs);
      ReadWordsTrace(m2, CalibRegs);
      assert m2.trace == m.trace + [ResetWrite, Sleep(50)];
    }
  }

  /** Sampling succeeds exactly when both reads are answered with 3 bytes each, and gives those bytes. */
  lemma SampleExact(m: Mock)
    ensures Sample(m).0.Some? <==>
      AnswersFor(m, 2) && |m.blocks| >= 2 && |m.blocks[0]| == 3 && |m.blocks[1]| == 3
    ensures Sample(m).0.Some? ==>
      |m.blocks| >= 2 &&
      Sample(m) ==
        (Some((m.blocks[0], m.blocks[1])),
         m.(blocks := m.blocks[2..], issued := m.issued + 2, trace := m.trace + [TempRead, PresRead]))
  {
    if Answers(m) && |m.blocks| >= 2 && |m.blocks[0]| == 3 {
      assert m.blocks[1..][1..] == m.blocks[2..];
      assert m.trace + [TempRead] + [PresRead] == m.trace + [TempRead, PresRead];
    }
  }

  /** A complete run: the device answers all 16 transactions, twelve words and two 3-byte blocks are queued. */
  predicate Completes(m: Mock)
  {
    AnswersFor(m, 16) && |m.words| >= 12 && |m.blocks| >= 2
    && |m.blocks[0]| == 3 && |m.blocks[1]| == 3
  }

  /** A complete session with the bus open, on the state after opening. */
  predicate SessionCompletes(m: Mock)
  {
    AnswersFor(m, 15) && |m.words| >= 12 && |m.blocks| >= 2
    && |m.blocks[0]| == 3 && |m.blocks[1]| == 3
  }

  lemma SessionExact(m: Mock)
    ensures Bmp280Session(m).0 != Absent <==> SessionCompletes(m)
    ensures SessionCompletes(m) ==>
      Bmp280Session(m) ==
        (Compensate(CalibrationOf(m.words[..12]), m.blocks[0], m.blocks[1]),
         m.(words := m.words[12..], blocks := m.blocks[2..], issued := m.issued + 15,
            trace := m.trace + SessionTrace()))
  {
    SessionSucceeds(m);
    SessionValue(m);
    SessionState(m);
  }

  lemma SessionSucceeds(m: Mock)
    ensures Bmp280Session(m).0 != Absent <==> SessionCompletes(m)
  {
    CalibrateSucceeds(m);
    CalibrateState(m);
    var (c, m1) := Calibrate(m);
    if c.Some? {
      SampleExact(m1);
    }
  }

  lemma SessionValue(m: Mock)
    ensures SessionCompletes(m) ==>
      Bmp280Session(m).0 == Compensate(CalibrationOf(m.words[..12]), m.blocks[0], m.blocks[1])
  {
    CalibrateSucceeds(m);
    CalibrateValue(m);
    CalibrateState(m);
    var (c, m1) := Calibrate(m);
    if c.Some? {
      SampleExact(m1);
    }
  }

  lemma SessionState(m: Mock)
    ensures SessionCompletes(m) ==>
      Bmp280Session(m).1 ==
        m.(words := m.words[12..], blocks := m.blocks[2..], issued := m.issued + 15,
           trace := m.trace + SessionTrace())
  {
    if SessionCompletes(m) {
      var (c, m1) := Calibrate(m);
      var t1 := m.trace + [ResetWrite, Sleep(50)] + WordReads(CalibRegs);
      assert c.Some? && m1 == m.(words := m.words[12..], issued := m.issued + 13, trace := t1) by {
        CalibrateSucceeds(m);
        CalibrateState(m);
      }
      assert AnswersFor(m1, 2) && |m1.blocks| >= 2 && |m1.blocks[0]| == 3 && |m1.blocks[1]| == 3;
      var (raw, m2) := Sample(m1);
      assert raw.Some? && m2 == m1.(blocks := m1.blocks[2..], issued := m1.issued + 2, trace := t1 + [TempRead, PresRead]) by {
        SampleExact(m1);
      }
      assert Bmp280Session(m).1 == m2;
      Regroup(m.trace, [ResetWrite, Sleep(50)], WordReads(CalibRegs), [TempRead, PresRead]);
    }
  }

  /**
   * The result is a reading or a degenerate calibration exactly when the run
   * completes, and it is then the compensation, with the reference reading of
   * the twelve words, of the two queued blocks; otherwise it is Absent. The
   * bus state after the call is given exactly.
   */
  lemma Bmp280Exact(m: Mock)
    ensures Bmp280Spec(m).0 != Absent <==> Completes(m)
    ensures Completes(m) ==>
      Bmp280Spec(m) ==
        (Compensate(CalibrationOf(m.words[..12]), m.blocks[0], m.blocks[1]),
         m.(words := m.words[12..], blocks := m.blocks[2..], issued := m.issued + 16,
            trace := m.trace + Bmp280Trace() + [Close]))
  {
    Bmp280Succeeds(m);
    Bmp280Value(m);
    Bmp280State(m);
  }

  lemma Bmp280Succeeds(m: Mock)
    ensures Bmp280Spec(m).0 != Absent <==> Completes(m)
  {
    var m1 := Issue(m, Command.Open(1));
    if Answers(m) {
      SessionSucceeds(m1);
    }
  }

  lemma Bmp280Value(m: Mock)
    ensures Completes(m) ==>
      Bmp280Spec(m).0 == Compensate(CalibrationOf(m.words[..12]), m.blocks[0], m.blocks[1])
  {
    var m1 := Issue(m, Command.Open(1));
    if Answers(m) {
      SessionValue(m1);
    }
  }

  lemma Bmp280State(m: Mock)
    ensures Completes(m) ==>
      Bmp280Spec(m).1 ==
        m.(words := m.words[12..], blocks := m.blocks[2..], issued := m.issued + 16,
           trace := m.trace + Bmp280Trace() + [Close])
  {
    var m1 := Issue(m, Command.Open(1));
    if Answers(m) {
      SessionState(m1);
      assert m1.trace + SessionTrace() == m.trace + Bmp280Trace() by {
        Regroup(m.trace, [Command.Open(1)], SessionTrace(), []);
      }
    }
  }

  /** Any transport error before the run completes gives no reading at all, never part of one. */
  lemma FailureIsAbsent(m: Mock, j: nat)
    requires j < 16 && m.failAt == Some(m.issued + j)
    ensures Bmp280Spec(m).0 == Absent
  {
    Bmp280Exact(m);
  }

  /** The guard fires exactly when the divisor of the reference coefficients is zero. */
  lemma DegenerateExact(m: Mock)
    ensures Bmp280Spec(m).0 == Degenerate <==>
      Completes(m) &&
      var c := CalibrationOf(m.words[..12]);
      PressureDivisor(c, TFine(c, Adc20(m.blocks[0][0], m.blocks[0][1], m.blocks[0][2]))) == 0
  {
    Bmp280Exact(m);
  }

  /** A zero dig_P1 word, in a complete run, is always reported as a degenerate calibration. */
  lemma ZeroP1Degenerate(m: Mock)
    requires Completes(m) && m.words[3] == 0
    ensures Bmp280Spec(m).0 == Degenerate
  {
    Bmp280Exact(m);
    assert m.words[..12][3] == 0;
  }

  /**
   * Two runs in succession on a device that gives the same replies twice give
   * the same result; no state is carried from one run to the next.
   */
  lemma RunTwice(w: seq<Word>, rawT: seq<Byte>, rawP: seq<Byte>, trace: seq<Command>)
    requires |w| == 12 && |rawT| == 3 && |rawP| == 3
    ensures var m := Mock([rawT, rawP, rawT, rawP], w + w, None, 0, trace);
            Bmp280Spec(Bmp280Spec(m).1).0 == Bmp280Spec(m).0 != Absent
  {
    var m := Mock([rawT, rawP, rawT, rawP], w + w, None, 0, trace);
    Bmp280Exact(m);
    var m' := Bmp280Spec(m).1;
    assert m'.words == w && m'.blocks == [rawT, rawP];
    Bmp280Exact(m');
    assert m.words[..12] == w && m'.words[..12] == w;
  }

  /** Once the bus is opened it is closed, on every path; if opening fails nothing else is issued. */
  lemma Bmp280ReleasesBus(m: Mock)
    ensures var t := Bmp280Spec(m).1.trace;
            |t| > |m.trace| && t[..|m.trace|] == m.trace && t[|m.trace|] == Command.Open(1)
    ensures Answers(m) ==> Bmp280Spec(m).1.trace[|Bmp280Spec(m).1.trace| - 1] == Close
    ensures !Answers(m) ==> Bmp280Spec(m) == (Absent, Issue(m, Command.Open(1)))
  {
    var m1 := Issue(m, Command.Open(1));
    if Answers(m) {
      var (result, m2) := Bmp280Session(m1);
      assert Bmp280Spec(m) == (result, Release(m2));
      SessionExtendsTrace(m1);
      var t := m2.trace + [Close];
      assert t[..|m.trace|] == m2.trace[..|m1.trace|][..|m.trace|];
      assert t[|m.trace|] == m2.trace[..|m1.trace|][|m.trace|];
    } else {
      assert Bmp280Spec(m) == (Absent, m1);
    }
  }

  lemma SessionExtendsTrace(m: Mock)
    ensures |Bmp280Session(m).1.trace| >= |m.trace| && Bmp280Session(m).1.trace[..|m.trace|] == m.trace
  {
    CalibrateExtendsTrace(m);
    var (c, m1) := Calibrate(m);
    if c.Some? {
      SampleExtendsTrace(m1);
      var t := Sample(m1).1.trace;
      assert t[..|m.trace|] == t[..|m1.trace|][..|m.trace|];
    }
  }

  lemma CalibrateExtendsTrace(m: Mock)
    ensures |Calibrate(m).1.trace| >= |m.trace| && Calibrate(m).1.trace[..|m.trace|] == m.trace
  {
    if Answers(m) {
      var m2 := Delay(Issue(m, ResetWrite), 50);
      ReadWordsExtendsTrace(m2, CalibRegs);
      var t := ReadWords(m2, CalibRegs).1.trace;
      assert t[..|m.trace|] == t[..|m2.trace|][..|m.trace|];
    }
  }

  lemma SampleExtendsTrace(m: Mock)
    ensures |Sample(m).1.trace| >= |m.trace| && Sample(m).1.trace[..|m.trace|] == m.trace
  {
  }

  // ----- The zero-divisor return -----

  /** A value read_BMP280 can hand back to its caller. */
  datatype PyValue = Pair(first: real, second: real) | NonePair | BareZero

  /** What the function as written returns: the bare integer 0 on the zero-divisor path. */
  function AsWrittenReturn(r: Bmp280Result): PyValue
  {
    match r
    case Reading(t, p) => Pair(t, p)
    case Absent => NonePair
    case Degenerate => BareZero
  }

  /** The callers unpack the result into two names; only a two-element tuple can be unpacked. */
  predicate Unpackable(v: PyValue)
  {
    v.Pair? || v.NonePair?
  }

  /**
   * As written: with a zero dig_P1 word every complete run returns the bare 0,
   * which the callers cannot unpack into temperature and pressure, and which is
   * not a reading of zero pascals either.
   */
  lemma ZeroCalibrationReturnsBareZero(w: seq<Word>, rawT: seq<Byte>, rawP: seq<Byte>)
    requires |w| == 12 && w[3] == 0 && |rawT| == 3 && |rawP| == 3
    ensures var v := AsWrittenReturn(Bmp280Spec(Mock([rawT, rawP], w, None, 0, [])).0);
            v == BareZero && !Unpackable(v)
  {
    ZeroP1Degenerate(Mock([rawT, rawP], w, None, 0, []));
  }

  /**
   * Corrected: the result is a tagged value; the degenerate calibration is its
   * own case, told apart from a bus error and from every reading, and it is
   * reported exactly when the divisor is zero.
   */
  lemma DegenerateIsDistinct(m: Mock)
    ensures Bmp280Spec(m).0.Reading? <==>
      Completes(m) &&
      var c := CalibrationOf(m.words[..12]);
      PressureDivisor(c, TFine(c, Adc20(m.blocks[0][0], m.blocks[0][1], m.blocks[0][2]))) != 0
    ensures Bmp280Spec(m).0 == Degenerate ==> Completes(m)
  {
    Bmp280Exact(m);
    DegenerateExact(m);
  }
}
