/**
 * A mock of the two-wire bus both drivers talk to. It answers block reads and
 * word reads from two queues of canned replies, records every transaction and
 * every delay in a trace, and stops answering (the transport error that the
 * drivers catch as OSError) from a chosen transaction onwards.
 *
 * `Mock` is the bus state as a value, with one pure step function per bus
 * operation; the class `MockBus` is the handle the driver methods mutate, and
 * each of its methods is proved to perform exactly the matching step.
 */
module Bus {
  import opened Wrappers

  type Byte = x: int | 0 <= x < 0x100
  type Word = x: int | 0 <= x < 0x1_0000

  /** One event on the bus, or a delay between two of them. */
  datatype Command =
    | Open(index: nat)                                // smbus.SMBus(index)
    | WriteByte(addr: Byte, value: Byte)              // write_byte
    | WriteByteData(addr: Byte, reg: Byte, value: Byte)  // write_byte_data
    | WriteBlock(addr: Byte, reg: Byte, data: seq<Byte>) // write_i2c_block_data
    | ReadBlock(addr: Byte, reg: Byte, count: nat)    // read_i2c_block_data
    | ReadWord(addr: Byte, reg: Byte)                 // read_word_data
    | Sleep(ms: nat)                                  // time.sleep
    | Close                                           // leaving the `with` block

  /**
   * blocks: replies to block reads, in order; words: replies to word reads,
   * in order; failAt: the index of the first transaction the device does not
   * answer (None: it always answers); issued: transactions issued so far;
   * trace: everything issued so far.
   */
  datatype Mock = Mock(
    blocks: seq<seq<Byte>>,
    words: seq<Word>,
    failAt: Option<nat>,
    issued: nat,
    trace: seq<Command>)

  /** The device answers the next transaction. */
  predicate Answers(m: Mock)
  {
    m.failAt.None? || m.issued < m.failAt.value
  }

  /** The device answers each of the next n transactions. */
  predicate AnswersFor(m: Mock, n: nat)
  {
    n == 0 || m.failAt.None? || m.issued + n <= m.failAt.value
  }

  /** Any transaction: logged and counted. */
  function Issue(m: Mock, c: Command): Mock
  {
    m.(issued := m.issued + 1, trace := m.trace + [c])
  }

  /** Opening the bus or writing to it: it succeeds exactly when the device answers. */
  function Transmit(m: Mock, c: Command): (bool, Mock)
  {
    (Answers(m), Issue(m, c))
  }

  /**
   * A block read of `count` bytes: it succeeds when the device answers and
   * the next queued reply has exactly `count` bytes, and then consumes it.
   */
  function ReceiveBlock(m: Mock, addr: Byte, reg: Byte, count: nat): (Option<seq<Byte>>, Mock)
  {
    var m' := Issue(m, ReadBlock(addr, reg, count));
    if Answers(m) && |m.blocks| > 0 && |m.blocks[0]| == count then
      (Some(m.blocks[0]), m'.(blocks := m.blocks[1..]))
    else
      (None, m')
  }

  /** A word read: it succeeds when the device answers and a word is queued, and consumes it. */
  function ReceiveWord(m: Mock, addr: Byte, reg: Byte): (Option<Word>, Mock)
  {
    var m' := Issue(m, ReadWord(addr, reg));
    if Answers(m) && |m.words| > 0 then (Some(m.words[0]), m'.(words := m.words[1..])) else (None, m')
  }

  /** A delay is logged; it is not a transaction and cannot fail. */
  function Delay(m: Mock, ms: nat): Mock
  {
    m.(trace := m.trace + [Sleep(ms)])
  }

  /** Releasing the bus is logged; it cannot fail. */
  function Release(m: Mock): Mock
  {
    m.(trace := m.trace + [Close])
  }

  /** Concatenation regrouped: a trace extended piece by piece is the trace extended by the pieces together. */
  lemma Regroup(a: seq<Command>, b: seq<Command>, c: seq<Command>, d: seq<Command>)
    ensures a + b + c + d == a + (b + c + d)
    ensures a + b + c == a + (b + c)
  {
  }

  /** The bus handle the drivers use. */
  class MockBus {
    var blocks: seq<seq<Byte>>
    var words: seq<Word>
    const failAt: Option<nat>
    var issued: nat
    var trace: seq<Command>

    function State(): Mock
      reads this
    {
      Mock(blocks, words, failAt, issued, trace)
    }

    constructor (blocks: seq<seq<Byte>>, words: seq<Word>, failAt: Option<nat>)
      ensures State() == Mock(blocks, words, failAt, 0, [])
    {
      this.blocks := blocks;
      this.words := words;
      this.failAt := failAt;
      this.issued := 0;
      this.trace := [];
    }

    method Log(c: Command)
      modifies this
      ensures State() == Issue(old(State()), c)
    {
      issued := issued + 1;
      trace := trace + [c];
    }

    method Open(index: nat) returns (ok: bool)
      modifies this
      ensures (ok, State()) == Transmit(old(State()), Command.Open(index))
    {
      ok := Answers(State());
      Log(Command.Open(index));
    }

    method WriteByte(addr: Byte, value: Byte) returns (ok: bool)
      modifies this
      ensures (ok, State()) == Transmit(old(State()), Command.WriteByte(addr, value))
    {
      ok := Answers(State());
      Log(Command.WriteByte(addr, value));
    }

    method WriteByteData(addr: Byte, reg: Byte, value: Byte) returns (ok: bool)
      modifies this
      ensures (ok, State()) == Transmit(old(State()), Command.WriteByteData(addr, reg, value))
    {
      ok := Answers(State());
      Log(Command.WriteByteData(addr, reg, value));
    }

    method WriteBlockData(addr: Byte, reg: Byte, data: seq<Byte>) returns (ok: bool)
      modifies this
      ensures (ok, State()) == Transmit(old(State()), WriteBlock(addr, reg, data))
    {
      ok := Answers(State());
      Log(WriteBlock(addr, reg, data));
    }

    method ReadBlockData(addr: Byte, reg: Byte, count: nat) returns (r: Option<seq<Byte>>)
      modifies this
      ensures (r, State()) == ReceiveBlock(old(State()), addr, reg, count)
    {
      if Answers(State()) && |blocks| > 0 && |blocks[0]| == count {
        r := Some(blocks[0]);
        blocks := blocks[1..];
      } else {
        r := None;
      }
      Log(ReadBlock(addr, reg, count));
    }

    method ReadWordData(addr: Byte, reg: Byte) returns (r: Option<Word>)
      modifies this
      ensures (r, State()) == ReceiveWord(old(State()), addr, reg)
    {
      if Answers(State()) && |words| > 0 {
        r := Some(words[0]);
        words := words[1..];
      } else {
        r := None;
      }
      Log(ReadWord(addr, reg));
    }

    method Sleep(ms: nat)
      modifies this
      ensures State() == Delay(old(State()), ms)
    {
      trace := trace + [Command.Sleep(ms)];
    }

    method Close()
      modifies this
      ensures State() == Release(old(State()))
    {
      trace := trace + [Command.Close];
    }
  }
}
