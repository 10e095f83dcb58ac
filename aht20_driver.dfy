/**
 * The AHT20 read sequence over the mock bus: soft reset, poll the status byte
 * until it reads 0x18 (sending the init command after every other value),
 * trigger a measurement, wait, read the 7-byte frame and decode it. A bus that
 * stops answering at any step gives no reading at all.
 *
 * `Aht20Spec` is the sequence as a function of the bus state; the method
 * `ReadAht20` performs it on a `MockBus` and is proved to agree with it. The
 * lemmas after it are about `Aht20Spec`.
 */
module Aht20Driver {
  import opened Wrappers
  import opened Bus
  import opened Aht20

  const InitWrite: Command := WriteBlock(Address, InitReg, InitData)
  const StatusRead: Command := ReadBlock(Address, StatusReg, 1)
  const MeasureWrite: Command := WriteBlock(Address, MeasureReg, MeasureData)
  const FrameRead: Command := ReadBlock(Address, 0x00, FrameLength)

  /** One pass of the polling loop's body: the init command, 50 ms, a fresh status read. */
  function Round(m: Mock): (r: (Option<Byte>, Mock))
    ensures r.0.Some? <==> AnswersFor(m, 2) && |m.blocks| > 0 && |m.blocks[0]| == 1
    ensures r.0.Some? ==>
      r.0.value == m.blocks[0][0] &&
      r.1 == m.(blocks := m.blocks[1..], issued := m.issued + 2,
                trace := m.trace + [InitWrite, Sleep(50), StatusRead])
    ensures |r.1.blocks| <= |m.blocks|
    ensures |r.1.trace| > |m.trace| && r.1.trace[..|m.trace|] == m.trace
  {
    var (written, m1) := Transmit(m, InitWrite);
    if !written then (None, m1)
    else
      var m2 := Delay(m1, 50);
      var (reply, m3) := ReceiveBlock(m2, Address, StatusReg, 1);
      assert m3.trace == m.trace + [InitWrite, Sleep(50), StatusRead];
      if reply.None? then (None, m3) else (Some(reply.value[0]), m3)
  }

  /** The polling loop, entered with the status byte already read. */
  function Poll(m: Mock, status: Byte): (r: (bool, Mock))
    decreases |m.blocks|
  {
    if status == Calibrated then (true, m)
    else
      var (next, m1) := Round(m);
      if next.None? then (false, m1) else Poll(m1, next.value)
  }

  /** Everything done while the bus is open; the frame, or None on a bus error. */
  function Session(m: Mock): (r: (Option<seq<Byte>>, Mock))
    ensures r.0.Some? ==> |r.0.value| == FrameLength
  {
    var (status, m1) := Start(m);
    if status.None? then (None, m1) else Continue(m1, status.value)
  }

  /** Soft reset, 40 ms, the first status read. */
  function Start(m: Mock): (r: (Option<Byte>, Mock))
    ensures r.0.Some? <==> AnswersFor(m, 2) && |m.blocks| > 0 && |m.blocks[0]| == 1
    ensures r.0.Some? ==>
      r.0.value == m.blocks[0][0] &&
      r.1 == m.(blocks := m.blocks[1..], issued := m.issued + 2,
                trace := m.trace + [WriteByte(Address, SoftReset), Sleep(40), StatusRead])
    ensures |r.1.trace| > |m.trace| && r.1.trace[..|m.trace|] == m.trace
  {
    var (reset, m1) := Transmit(m, WriteByte(Address, SoftReset));
    if !reset then (None, m1)
    else
      var m2 := Delay(m1, 40);
      var (reply, m3) := ReceiveBlock(m2, Address, StatusReg, 1);
      assert m3.trace == m.trace + [WriteByte(Address, SoftReset), Sleep(40), StatusRead];
      if reply.None? then (None, m3) else (Some(reply.value[0]), m3)
  }

  /** The polling loop from the first status, then the measurement. */
  function Continue(m: Mock, status: Byte): (r: (Option<seq<Byte>>, Mock))
    ensures r.0.Some? ==> |r.0.value| == FrameLength
  {
    var (ready, m1) := Poll(m, status);
    if !ready then (None, m1) else Trigger(m1)
  }

  /** Once calibrated: 50 ms, the measure command, 80 ms of conversion, the 7-byte read. */
  function Trigger(m: Mock): (r: (Option<seq<Byte>>, Mock))
    ensures r.0.Some? ==> |r.0.value| == FrameLength
    ensures |r.1.trace| > |m.trace| && r.1.trace[..|m.trace|] == m.trace
  {
    var m1 := Delay(m, 50);
    var (measured, m2) := Transmit(m1, MeasureWrite);
    if !measured then (None, m2)
    else
      var m3 := Delay(m2, 80);
      ReceiveBlock(m3, Address, 0x00, FrameLength)
  }

  /** `read_AHT20`: open the bus, run the session, close the bus, decode. */
  function Aht20Spec(m: Mock): (r: (Option<Reading>, Mock))
  {
    var (isOpen, m1) := Transmit(m, Command.Open(1));
    if !isOpen then (None, m1)
    else
      var (frame, m2) := Session(m1);
      (if frame.None? then None else Some(Decode(frame.value)), Release(m2))
  }

  method AwaitCalibration(bus: MockBus, status: Byte) returns (ready: bool)
    modifies bus
    ensures (ready, bus.State()) == Poll(old(bus.State()), status)
  {
    var current := status;
    while current != Calibrated
      invariant Poll(bus.State(), current) == Poll(old(bus.State()), status)
      decreases |bus.blocks|
    {
      var written := bus.WriteBlockData(Address, InitReg, InitData);
      if !written {
        return false;
      }
      bus.Sleep(50);
      var reply := bus.ReadBlockData(Address, StatusReg, 1);
      if reply.None? {
        return false;
      }
      current := reply.value[0];
    }
    ready := true;
  }

  method Measure(bus: MockBus) returns (frame: Option<seq<Byte>>)
    modifies bus
    ensures (frame, bus.State()) == Session(old(bus.State()))
  {
    var reset := bus.WriteByte(Address, SoftReset);
    if !reset {
      return None;
    }
    bus.Sleep(40);
    var status := bus.ReadBlockData(Address, StatusReg, 1);
    if status.None? {
      return None;
    }
    var ready := AwaitCalibration(bus, status.value[0]);
    if !ready {
      return None;
    }
    bus.Sleep(50);
    var measured := bus.WriteBlockData(Address, MeasureReg, MeasureData);
    if !measured {
      return None;
    }
    bus.Sleep(80);
    frame := bus.ReadBlockData(Address, 0x00, FrameLength);
  }

  method ReadAht20(bus: MockBus) returns (r: Option<Reading>)
    modifies bus
    ensures (r, bus.State()) == Aht20Spec(old(bus.State()))
  {
    var isOpen := bus.Open(1);
    if !isOpen {
      return None;
    }
    var frame := Measure(bus);
    bus.Close();
    if frame.None? {
      return None;
    }
    r := Some(Decode(frame.value));
  }

  // ----- What the sequence does -----

  /**
   * The index of the first status reply that reads 0x18, provided every
   * earlier status reply is a single other byte; None if there is none.
   */
  function ReadyIndex(blocks: seq<seq<Byte>>): (r: Option<nat>)
    ensures r.Some? ==> r.value < |blocks| && blocks[r.value] == [Calibrated]
    ensures r.Some? ==> forall i :: 0 <= i < r.value ==> |blocks[i]| == 1 && blocks[i][0] != Calibrated
  {
    if |blocks| == 0 || |blocks[0]| != 1 then None
    else if blocks[0][0] == Calibrated then Some(0)
    else
      match ReadyIndex(blocks[1..])
      case None => None
      case Some(k) => Some(k + 1)
  }

  /** ReadyIndex finds exactly that index wherever there is one. */
  lemma {:induction false} ReadyIndexExact(blocks: seq<seq<Byte>>, k: nat)
    requires k < |blocks| && blocks[k] == [Calibrated]
    requires forall i :: 0 <= i < k ==> |blocks[i]| == 1 && blocks[i][0] != Calibrated
    ensures ReadyIndex(blocks) == Some(k)
  {
    if k > 0 {
      assert blocks[0] == [blocks[0][0]];
      forall i | 0 <= i < k - 1
        ensures |blocks[1..][i]| == 1 && blocks[1..][i][0] != Calibrated
      {
        assert blocks[1..][i] == blocks[i + 1];
      }
      ReadyIndexExact(blocks[1..], k - 1);
    }
  }

  /** k rounds of the loop body: init write, 50 ms, status read. */
  function InitRounds(k: nat): (t: seq<Command>)
    ensures |t| == 3 * k
  {
    if k == 0 then [] else [InitWrite, Sleep(50), StatusRead] + InitRounds(k - 1)
  }

  /** Everything a successful run issues before closing, with k rounds of polling. */
  function Aht20Trace(k: nat): seq<Command>
  {
    [Command.Open(1)] + SessionTrace(k)
  }

  /** The polling loop stops exactly at the first 0x18 status, after one init write per earlier status. */
  lemma PollExact(m: Mock, status: Byte)
    ensures var k := ReadyIndex([[status]] + m.blocks);
            Poll(m, status).0 <==> k.Some? && AnswersFor(m, 2 * k.value)
    ensures var k := ReadyIndex([[status]] + m.blocks);
            Poll(m, status).0 ==>
              k.Some? &&
              Poll(m, status).1 == m.(blocks := m.blocks[k.value..],
                                      issued := m.issued + 2 * k.value,
                                      trace := m.trace + InitRounds(k.value))
  {
    PollSucceeds(m, status);
    PollState(m, status);
  }

  lemma {:induction false} PollSucceeds(m: Mock, status: Byte)
    ensures var k := ReadyIndex([[status]] + m.blocks);
            Poll(m, status).0 <==> k.Some? && AnswersFor(m, 2 * k.value)
    decreases |m.blocks|
  {
    ReadyIndexCons(status, m.blocks);
    if status != Calibrated {
      var (next, m1) := Round(m);
      if next.Some? {
        assert [[next.value]] + m1.blocks == m.blocks by {
          assert m.blocks[0] == [next.value];
        }
        PollSucceeds(m1, next.value);
      } else if AnswersFor(m, 2) {
        assert ReadyIndex(m.blocks).None?;
      }
    }
  }

  lemma {:induction false} PollState(m: Mock, status: Byte)
    ensures var k := ReadyIndex([[status]] + m.blocks);
            Poll(m, status).0 && k.Some? ==>
              Poll(m, status).1 == m.(blocks := m.blocks[k.value..],
                                      issued := m.issued + 2 * k.value,
                                      trace := m.trace + InitRounds(k.value))
    decreases |m.blocks|
  {
    ReadyIndexCons(status, m.blocks);
    if status == Calibrated {
      assert m.blocks[0..] == m.blocks && m.trace + [] == m.trace;
    } else {
      var (next, m1) := Round(m);
      if next.Some? {
        assert [[next.value]] + m1.blocks == m.blocks by {
          assert m.blocks[0] == [next.value];
        }
        PollState(m1, next.value);
        var j := ReadyIndex(m.blocks);
        if j.Some? {
          OneMoreRound(m, m1, j.value);
        }
      }
    }
  }

  /** A round followed by j more is j + 1 rounds. */
  lemma OneMoreRound(m: Mock, m1: Mock, j: nat)
    requires j < |m.blocks|
    requires m1 == m.(blocks := m.blocks[1..], issued := m.issued + 2,
                      trace := m.trace + [InitWrite, Sleep(50), StatusRead])
    ensures m1.(blocks := m1.blocks[j..], issued := m1.issued + 2 * j,
                trace := m1.trace + InitRounds(j))
         == m.(blocks := m.blocks[j + 1..], issued := m.issued + 2 * (j + 1),
               trace := m.trace + InitRounds(j + 1))
  {
    assert m1.blocks[j..] == m.blocks[j + 1..];
    Regroup(m.trace, [InitWrite, Sleep(50), StatusRead], InitRounds(j), []);
  }

  lemma ReadyIndexCons(status: Byte, blocks: seq<seq<Byte>>)
    ensures ReadyIndex([[status]] + blocks) ==
      if status == Calibrated then Some(0)
      else match ReadyIndex(blocks) case None => None case Some(j) => Some(j + 1)
  {
    var all := [[status]] + blocks;
    assert all[0] == [status] && all[1..] == blocks;
  }

  /** The measurement after calibration succeeds exactly when the device answers and a 7-byte frame is queued. */
  lemma TriggerExact(m: Mock)
    ensures Trigger(m).0.Some? <==> AnswersFor(m, 2) && |m.blocks| > 0 && |m.blocks[0]| == FrameLength
    ensures Trigger(m).0.Some? ==>
      Trigger(m) == (Some(m.blocks[0]),
                     m.(blocks := m.blocks[1..], issued := m.issued + 2,
                        trace := m.trace + [Sleep(50), MeasureWrite, Sleep(80), FrameRead]))
  {
    var m3 := Delay(Issue(Delay(m, 50), MeasureWrite), 80);
    assert m3.trace + [FrameRead] == m.trace + [Sleep(50), MeasureWrite, Sleep(80), FrameRead];
  }

  /** The commands of a successful session with k polling rounds. */
  function SessionTrace(k: nat): seq<Command>
  {
    [WriteByte(Address, SoftReset), Sleep(40), StatusRead] + InitRounds(k)
    + [Sleep(50), MeasureWrite, Sleep(80), FrameRead]
  }

  /** The session, with the bus open, reaches a frame exactly when the replies and the device allow it. */
  predicate SessionCompletes(m: Mock)
  {
    var k := ReadyIndex(m.blocks);
    k.Some? && k.value + 1 < |m.blocks| && |m.blocks[k.value + 1]| == FrameLength
    && AnswersFor(m, 4 + 2 * k.value)
  }

  /** From the first status on, with k statuses before the first 0x18. */
  lemma ContinueExact(m: Mock, status: Byte)
    ensures var k := ReadyIndex([[status]] + m.blocks);
            Continue(m, status).0.Some? <==>
              k.Some? && k.value < |m.blocks| && |m.blocks[k.value]| == FrameLength
              && AnswersFor(m, 2 + 2 * k.value)
    ensures var k := ReadyIndex([[status]] + m.blocks);
            Continue(m, status).0.Some? ==>
              k.Some? && k.value < |m.blocks| &&
              Continue(m, status) ==
                (Some(m.blocks[k.value]),
                 m.(blocks := m.blocks[k.value + 1..], issued := m.issued + 2 + 2 * k.value,
                    trace := m.trace + InitRounds(k.value)
                             + [Sleep(50), MeasureWrite, Sleep(80), FrameRead]))
  {
    ContinueSucceeds(m, status);
    ContinueState(m, status);
  }

  lemma ContinueSucceeds(m: Mock, status: Byte)
    ensures var k := ReadyIndex([[status]] + m.blocks);
            Continue(m, status).0.Some? <==>
              k.Some? && k.value < |m.blocks| && |m.blocks[k.value]| == FrameLength
              && AnswersFor(m, 2 + 2 * k.value)
  {
    PollSucceeds(m, status);
    PollState(m, status);
    var (ready, m1) := Poll(m, status);
    var k := ReadyIndex([[status]] + m.blocks);
    if ready {
      TriggerExact(m1);
      assert m1.blocks == m.blocks[k.value..];
    }
  }

  lemma ContinueState(m: Mock, status: Byte)
    ensures var k := ReadyIndex([[status]] + m.blocks);
            Continue(m, status).0.Some? && k.Some? && k.value < |m.blocks| ==>
              Continue(m, status) ==
                (Some(m.blocks[k.value]),
                 m.(blocks := m.blocks[k.value + 1..], issued := m.issued + 2 + 2 * k.value,
                    trace := m.trace + InitRounds(k.value)
                             + [Sleep(50), MeasureWrite, Sleep(80), FrameRead]))
  {
    PollState(m, status);
    var (ready, m1) := Poll(m, status);
    var k := ReadyIndex([[status]] + m.blocks);
    if ready && k.Some? && k.value < |m.blocks| {
      TriggerExact(m1);
      TriggerAfterRounds(m, m1, k.value);
    }
  }

  /** k polling rounds followed by the measurement. */
  lemma TriggerAfterRounds(m: Mock, m1: Mock, k: nat)
    requires k < |m.blocks|
    requires m1 == m.(blocks := m.blocks[k..], issued := m.issued + 2 * k,
                      trace := m.trace + InitRounds(k))
    ensures m1.blocks[0] == m.blocks[k]
    ensures m1.(blocks := m1.blocks[1..], issued := m1.issued + 2,
                trace := m1.trace + [Sleep(50), MeasureWrite, Sleep(80), FrameRead])
         == m.(blocks := m.blocks[k + 1..], issued := m.issued + 2 + 2 * k,
               trace := m.trace + InitRounds(k) + [Sleep(50), MeasureWrite, Sleep(80), FrameRead])
  {
    assert m1.blocks[1..] == m.blocks[k + 1..];
  }

  lemma SessionExact(m: Mock)
    ensures Session(m).0.Some? <==> SessionCompletes(m)
    ensures SessionCompletes(m) ==>
      var k := ReadyIndex(m.blocks).value;
      Session(m) == (Some(m.blocks[k + 1]),
                     m.(blocks := m.blocks[k + 2..], issued := m.issued + 4 + 2 * k,
                        trace := m.trace + SessionTrace(k)))
  {
    SessionSucceeds(m);
    SessionState(m);
  }

  /** The session after a successful start is the polling loop and the measurement from the first status. */
  lemma StartedSession(m: Mock) returns (s: Byte, m1: Mock)
    requires Start(m).0.Some?
    ensures (Some(s), m1) == Start(m)
    ensures m.blocks == [[s]] + m1.blocks
    ensures Session(m) == Continue(m1, s)
  {
    s, m1 := Start(m).0.value, Start(m).1;
    assert m.blocks[0] == [s];
  }

  lemma SessionSucceeds(m: Mock)
    ensures Session(m).0.Some? <==> SessionCompletes(m)
  {
    if Start(m).0.None? {
      if |m.blocks| > 0 && |m.blocks[0]| == 1 {
        assert !AnswersFor(m, 2);
      }
      assert !SessionCompletes(m);
    } else {
      var s, m1 := StartedSession(m);
      ContinueSucceeds(m1, s);
      var k := ReadyIndex(m.blocks);
      if k.Some? && k.value < |m1.blocks| {
        assert m1.blocks[k.value] == m.blocks[k.value + 1];
      }
    }
  }

  lemma SessionState(m: Mock)
    ensures SessionCompletes(m) ==>
      var k := ReadyIndex(m.blocks).value;
      Session(m) == (Some(m.blocks[k + 1]),
                     m.(blocks := m.blocks[k + 2..], issued := m.issued + 4 + 2 * k,
                        trace := m.trace + SessionTrace(k)))
  {
    if SessionCompletes(m) {
      SessionSucceeds(m);
      var s, m1 := StartedSession(m);
      ContinueState(m1, s);
      ContinueAfterStart(m, m1, ReadyIndex(m.blocks).value);
    }
  }

  /** The start followed by k polling rounds and the measurement is the whole session. */
  lemma ContinueAfterStart(m: Mock, m1: Mock, k: nat)
    requires k + 1 < |m.blocks|
    requires m1 == m.(blocks := m.blocks[1..], issued := m.issued + 2,
                      trace := m.trace + [WriteByte(Address, SoftReset), Sleep(40), StatusRead])
    ensures m1.blocks[k] == m.blocks[k + 1]
    ensures m1.(blocks := m1.blocks[k + 1..], issued := m1.issued + 2 + 2 * k,
                trace := m1.trace + InitRounds(k) + [Sleep(50), MeasureWrite, Sleep(80), FrameRead])
         == m.(blocks := m.blocks[k + 2..], issued := m.issued + 4 + 2 * k,
               trace := m.trace + SessionTrace(k))
  {
    assert m1.blocks[k + 1..] == m.blocks[k + 2..];
    Regroup(m.trace, [WriteByte(Address, SoftReset), Sleep(40), StatusRead], InitRounds(k),
            [Sleep(50), MeasureWrite, Sleep(80), FrameRead]);
  }

  /** The run completes: a 0x18 status arrives, a 7-byte frame follows it, and the device answers throughout. */
  predicate Completes(m: Mock)
  {
    var k := ReadyIndex(m.blocks);
    k.Some? && k.value + 1 < |m.blocks| && |m.blocks[k.value + 1]| == FrameLength
    && AnswersFor(m, 5 + 2 * k.value)
  }

  /**
   * A reading comes back exactly when the run completes; it is then the frame
   * after the first 0x18 status, decoded, and the trace is Aht20Trace of the
   * number of statuses before it, followed by closing the bus.
   */
  lemma Aht20Exact(m: Mock)
    ensures Aht20Spec(m).0.Some? <==> Completes(m)
    ensures Completes(m) ==>
      var k := ReadyIndex(m.blocks).value;
      Aht20Spec(m) == (Some(Decode(m.blocks[k + 1])),
                       m.(blocks := m.blocks[k + 2..],
                          issued := m.issued + 5 + 2 * k,
                          trace := m.trace + Aht20Trace(k) + [Close]))
  {
    Aht20Succeeds(m);
    Aht20State(m);
  }

  lemma Aht20Succeeds(m: Mock)
    ensures Aht20Spec(m).0.Some? <==> Completes(m)
  {
    CompletesAfterOpen(m);
    if Answers(m) {
      Aht20AfterOpen(m);
      SessionSucceeds(Issue(m, Command.Open(1)));
    }
  }

  lemma Aht20State(m: Mock)
    ensures Completes(m) ==>
      var k := ReadyIndex(m.blocks).value;
      Aht20Spec(m) == (Some(Decode(m.blocks[k + 1])),
                       m.(blocks := m.blocks[k + 2..],
                          issued := m.issued + 5 + 2 * k,
                          trace := m.trace + Aht20Trace(k) + [Close]))
  {
    if Completes(m) {
      CompletesAfterOpen(m);
      var m1 := Issue(m, Command.Open(1));
      var k := ReadyIndex(m.blocks).value;
      Aht20AfterOpen(m);
      SessionState(m1);
      assert ReadyIndex(m1.blocks).value == k;
      SessionAfterOpen(m, m1, k);
    }
  }

  /** Opening the bus, a session with k polling rounds, and closing the bus. */
  lemma SessionAfterOpen(m: Mock, m1: Mock, k: nat)
    requires k + 2 <= |m.blocks|
    requires m1 == m.(issued := m.issued + 1, trace := m.trace + [Command.Open(1)])
    ensures Release(m1.(blocks := m1.blocks[k + 2..], issued := m1.issued + 4 + 2 * k,
                        trace := m1.trace + SessionTrace(k)))
         == m.(blocks := m.blocks[k + 2..], issued := m.issued + 5 + 2 * k,
               trace := m.trace + Aht20Trace(k) + [Close])
  {
    Regroup(m.trace, [Command.Open(1)], SessionTrace(k), [Close]);
  }

  lemma Aht20AfterOpen(m: Mock)
    requires Answers(m)
    ensures var (frame, m2) := Session(Issue(m, Command.Open(1)));
            Aht20Spec(m) == (if frame.None? then None else Some(Decode(frame.value)), Release(m2))
  {
  }

  lemma CompletesAfterOpen(m: Mock)
    ensures Completes(m) <==> Answers(m) && SessionCompletes(Issue(m, Command.Open(1)))
  {
    assert ReadyIndex(m.blocks) == ReadyIndex(Issue(m, Command.Open(1)).blocks);
  }

  lemma {:induction false} InitRoundsInitWrites(k: nat)
    ensures multiset(InitRounds(k))[InitWrite] == k
  {
    if k > 0 {
      InitRoundsInitWrites(k - 1);
    }
  }

  /** A run with k statuses before the first 0x18 sends exactly k init commands. */
  lemma InitWritesCount(k: nat)
    ensures multiset(Aht20Trace(k))[InitWrite] == k
  {
    InitRoundsInitWrites(k);
  }

  /** The j-th command of the polling rounds: init write, 50 ms delay, status read, over again. */
  lemma {:induction false} InitRoundsAt(k: nat, j: nat)
    requires j < 3 * k
    ensures InitRounds(k)[j] == [InitWrite, Sleep(50), StatusRead][j % 3]
  {
    if j >= 3 {
      InitRoundsAt(k - 1, j - 3);
    }
  }

  /** Every init write is followed by a 50 ms delay and then a fresh one-byte read of the status register. */
  lemma InitWriteFollowedByStatusRead(k: nat, i: nat)
    requires i < |Aht20Trace(k)| && Aht20Trace(k)[i] == InitWrite
    ensures i + 2 < |Aht20Trace(k)|
    ensures Aht20Trace(k)[i + 1] == Sleep(50) && Aht20Trace(k)[i + 2] == StatusRead
  {
    var t := Aht20Trace(k);
    assert 4 <= i < 4 + 3 * k;
    InitRoundsAt(k, i - 4);
    assert (i - 4) % 3 == 0;
    InitRoundsAt(k, i - 3);
    InitRoundsAt(k, i - 2);
  }

  /** The statuses 0x00, 0x00, 0x18: two init writes, and the frame after them is decoded. */
  lemma TwoStatusesBeforeReady(frame: seq<Byte>)
    requires |frame| == FrameLength
    ensures var m := Mock([[0x00], [0x00], [Calibrated], frame], [], None, 0, []);
            Aht20Spec(m).0 == Some(Decode(frame))
            && multiset(Aht20Spec(m).1.trace)[InitWrite] == 2
  {
    var m := Mock([[0x00], [0x00], [Calibrated], frame], [], None, 0, []);
    ReadyIndexExact(m.blocks, 2);
    Aht20Exact(m);
    InitWritesCount(2);
  }

  /** Once the bus is opened it is closed, on every path; if opening fails nothing else is issued. */
  lemma Aht20ReleasesBus(m: Mock)
    ensures var t := Aht20Spec(m).1.trace;
            |t| > |m.trace| && t[..|m.trace|] == m.trace && t[|m.trace|] == Command.Open(1)
    ensures Answers(m) ==> Aht20Spec(m).1.trace[|Aht20Spec(m).1.trace| - 1] == Close
    ensures !Answers(m) ==> Aht20Spec(m) == (None, Issue(m, Command.Open(1)))
  {
    if Answers(m) {
      var m1 := Issue(m, Command.Open(1));
      SessionExtendsTrace(m1);
    }
  }

  lemma SessionExtendsTrace(m: Mock)
    ensures |Session(m).1.trace| >= |m.trace| && Session(m).1.trace[..|m.trace|] == m.trace
  {
    var (status, m1) := Start(m);
    if status.Some? {
      PollExtendsTrace(m1, status.value);
    }
  }

  lemma {:induction false} PollExtendsTrace(m: Mock, status: Byte)
    ensures |Poll(m, status).1.trace| >= |m.trace| && Poll(m, status).1.trace[..|m.trace|] == m.trace
    decreases |m.blocks|
  {
    if status != Calibrated {
      var (next, m1) := Round(m);
      if next.Some? {
        PollExtendsTrace(m1, next.value);
      }
    }
  }
}
