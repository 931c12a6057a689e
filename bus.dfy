/** The I2C bus vocabulary shared by both library files: bytes, the
    address/R-W byte (I2C-bus specification UM10204, section 3.1.10), the
    primitive operations a command link holds, and a small state machine of
    the bus phases that says which sequences of operations are legal.  */
module I2cBus {

  /** A C `uint8_t`. */
  type Byte = x: int | 0 <= x < 256

  /** The R/W bit of an address byte: WRITE_MODE = 0, READ_MODE = 1. */
  datatype Mode = Write | Read

  function ModeBit(m: Mode): (bit: int)
    ensures bit == 0 <==> m == Write
    ensures bit == 1 <==> m == Read
  {
    match m
    case Write => 0
    case Read => 1
  }

  /** `(addr << 1) | mode`, computed in C's `int` and then converted to the
      `uint8_t` data parameter of `i2c_master_write_byte`.  The shift leaves
      bit 0 clear, so the `|` adds the mode bit; the conversion keeps the
      value modulo 256.  */
  function AddrByte(addr: Byte, mode: Mode): (b: Byte)
    ensures b == (addr * 2) % 256 + ModeBit(mode)
    ensures b % 2 == ModeBit(mode)
    ensures b / 2 == addr % 128
  {
    (addr * 2 + ModeBit(mode)) % 256
  }

  /** The 7-bit address a receiving slave reads from an address byte. */
  function AddressOf(b: Byte): int
  {
    b / 2
  }

  /** The direction a receiving slave reads from an address byte. */
  function ModeOf(b: Byte): Mode
  {
    if b % 2 == 0 then Write else Read
  }

  /** Every 7-bit address and mode survive encoding. */
  lemma AddrByteRoundTrip(addr: Byte, mode: Mode)
    requires addr <= 127
    ensures AddressOf(AddrByte(addr, mode)) == addr
    ensures ModeOf(AddrByte(addr, mode)) == mode
  {
  }

  /** Every byte on the bus is the address byte of exactly one 7-bit
      address and mode: the converse of AddrByteRoundTrip.  */
  lemma AddrByteOnto(b: Byte)
    ensures AddressOf(b) <= 127
    ensures AddrByte(AddressOf(b), ModeOf(b)) == b
  {
  }

  /** An address above 127 is silently truncated to its low seven bits:
      it selects the same slave as `addr - 128`.  */
  lemma AddrByteTruncates(addr: Byte, mode: Mode)
    requires addr >= 128
    ensures AddrByte(addr, mode) == AddrByte(addr - 128, mode)
  {
  }

  /** What the master sends after receiving a byte; the library passes
      NACK_VAL = 1 for the NACK it sends after the last byte it reads
      (UM10204, section 3.1.6).  */
  datatype AckPolicy = Ack | Nack

  /** One entry of an ESP-IDF command link: `i2c_master_start`,
      `i2c_master_stop`, `i2c_master_write_byte(data, ack_en)` and
      `i2c_master_read_byte(&slot, ack)`.  */
  datatype Op =
    | Start
    | Stop
    | WriteByte(value: Byte, checkAck: bool)
    | ReadByte(ack: AckPolicy)

  /** The phase of the bus as the master drives it.  Started: a (repeated)
      START was sent and the next byte is an address byte; Transmitting: the
      slave was addressed for writing; AddressedRead: the slave was
      addressed for reading and drives SDA until the master has clocked out
      a byte; ReceivingAcked: the master ACKed the byte it just read, so the
      slave drives SDA for its next byte; Receiving: the master NACKed the
      byte it just read, so the slave has released SDA; Illegal: the
      program asked for a step the protocol does not allow.  */
  datatype Phase = Released | Started | Transmitting | AddressedRead | ReceivingAcked | Receiving | Illegal

  /** The phases in which the slave-transmitter drives SDA, so the master
      must clock out a byte before it can do anything else.  */
  predicate SlaveHoldsSda(s: Phase)
  {
    s == AddressedRead || s == ReceivingAcked
  }

  /** The phases in which the master controls SDA and can signal START or
      STOP.  */
  predicate MasterHoldsSda(s: Phase)
  {
    s != Illegal && !SlaveHoldsSda(s)
  }

  /** The phase after one operation.  START and STOP are legal whenever
      the master holds SDA (a repeated START switches direction; a STOP is
      harmless on a released bus); the byte after a START is an address byte
      whose low bit chooses the direction; the master writes only while
      transmitting, and reads only while the slave drives SDA.  A slave
      addressed for reading holds SDA, so its first byte must be read before
      anything else (UM10204, section 3.1.10); after a byte the master ACKs,
      the slave drives SDA again for the next one, and after the byte the
      master NACKs it releases SDA and sends no more (UM10204, section
      3.1.6).  A START directly followed
      by a STOP, which UM10204 calls a void message, is accepted on purpose:
      the recovery program is STOP, START, STOP.  */
  function Step(s: Phase, op: Op): Phase
  {
    if s == Illegal then Illegal
    else match op
      case Start => if SlaveHoldsSda(s) then Illegal else Started
      case Stop => if SlaveHoldsSda(s) then Illegal else Released
      case WriteByte(b, _) =>
        if s == Started then (if ModeOf(b) == Write then Transmitting else AddressedRead)
        else if s == Transmitting then Transmitting
        else Illegal
      case ReadByte(ack) =>
        if !SlaveHoldsSda(s) then Illegal
        else if ack == Ack then ReceivingAcked
        else Receiving
  }

  /** The phase after running a whole program, operation by operation. */
  function Run(p: seq<Op>, s: Phase): Phase
    decreases |p|
  {
    if p == [] then s else Run(p[1..], Step(s, p[0]))
  }

  /** The master ends every run of reads with its NACK, and only there: a
      read is directly followed by another read exactly when the master
      ACKs it.  After the NACK the slave-transmitter releases SDA and the
      master's next operation is START or STOP (UM10204, section 3.1.6).  */
  ghost predicate MasterNacksLast(p: seq<Op>)
  {
    forall i :: 0 <= i < |p| && p[i].ReadByte? ==> (p[i].ack == Ack <==> i + 1 < |p| && p[i + 1].ReadByte?)
  }

  /** A program that, started on a released bus, makes only legal steps,
      leaves the bus released and ends every run of reads with NACK.  The
      second conjunct follows from the first (`ReleasingRunNacksLast`); it
      is kept to state the rule of UM10204, section 3.1.6 directly.  */
  ghost predicate WellFormed(p: seq<Op>)
  {
    Run(p, Released) == Released && MasterNacksLast(p)
  }

  /** The number of ReadByte slots a program fills. */
  function CountReads(p: seq<Op>): nat
    decreases |p|
  {
    if p == [] then 0 else (if p[0].ReadByte? then 1 else 0) + CountReads(p[1..])
  }

  /** Counts the read slot at position k of a program, if there is one;
      used to walk a program one operation at a time.  */
  lemma CountReadsAt(p: seq<Op>, k: nat)
    requires k < |p|
    ensures CountReads(p[k..]) == (if p[k].ReadByte? then 1 else 0) + CountReads(p[k + 1..])
  {
    assert p[k..][1..] == p[k + 1..];
  }

  /** The read slots of two programs run one after the other are those of
      the first followed by those of the second.  */
  lemma {:induction false} CountReadsConcat(p: seq<Op>, q: seq<Op>)
    ensures CountReads(p + q) == CountReads(p) + CountReads(q)
    decreases |p|
  {
    if p == [] {
      assert p + q == q;
    } else {
      assert (p + q)[1..] == p[1..] + q;
      CountReadsConcat(p[1..], q);
    }
  }

  /** Running two programs one after the other is running their
      concatenation.  */
  lemma {:induction false} RunConcat(p: seq<Op>, q: seq<Op>, s: Phase)
    ensures Run(p + q, s) == Run(q, Run(p, s))
    decreases |p|
  {
    if p == [] {
      assert p + q == q;
    } else {
      assert (p + q)[1..] == p[1..] + q;
      RunConcat(p[1..], q, Step(s, p[0]));
    }
  }

  /** An illegal step cannot be repaired by later operations. */
  lemma {:induction false} IllegalIsFinal(p: seq<Op>)
    ensures Run(p, Illegal) == Illegal
    decreases |p|
  {
    if p != [] {
      IllegalIsFinal(p[1..]);
    }
  }

  /** A non-empty program that ends on a released bus ends with STOP: STOP
      is the only operation that releases the bus.  */
  lemma EndsReleasedEndsWithStop(p: seq<Op>, s: Phase)
    requires p != [] && Run(p, s) == Released
    ensures p[|p| - 1] == Stop
  {
    var init, last := p[..|p| - 1], p[|p| - 1];
    assert init + [last] == p;
    RunConcat(init, [last], s);
    var t := Run(init, s);
    assert Run([last], t) == Step(t, last);
  }

  /** On a bus released before the program was run, no byte can be read
      before some START has been issued.  */
  lemma {:induction false} ReadNeedsStart(p: seq<Op>)
    requires Run(p, Released) != Illegal
    ensures forall i :: 0 <= i < |p| && p[i].ReadByte? ==> exists j :: 0 <= j < i && p[j] == Start
    decreases |p|
  {
    if p != [] {
      match p[0]
      case Start =>
        forall i | 0 <= i < |p| && p[i].ReadByte?
          ensures exists j :: 0 <= j < i && p[j] == Start
        {
          assert p[0] == Start;
        }
      case Stop =>
        ReadNeedsStart(p[1..]);
        forall i | 0 <= i < |p| && p[i].ReadByte?
          ensures exists j :: 0 <= j < i && p[j] == Start
        {
          assert p[1..][i - 1] == p[i];
          var j :| 0 <= j < i - 1 && p[1..][j] == Start;
          assert p[j + 1] == Start;
        }
      case WriteByte(_, _) =>
        IllegalIsFinal(p[1..]);
      case ReadByte(_) =>
        IllegalIsFinal(p[1..]);
    }
  }

  /** In a program that makes only legal steps, a read that is not
      followed by another read is followed by START or STOP: the master
      never writes while receiving.  */
  lemma {:induction false} ReadEndsWithStartOrStop(p: seq<Op>, s: Phase)
    requires Run(p, s) != Illegal
    ensures forall i :: 0 <= i < |p| - 1 && p[i].ReadByte? && !p[i + 1].ReadByte? ==> p[i + 1] == Start || p[i + 1] == Stop
    decreases |p|
  {
    if |p| >= 2 {
      if p[0].ReadByte? && p[1].WriteByte? {
        assert Step(Step(s, p[0]), p[1]) == Illegal;
        assert p[1..][1..] == p[2..];
        IllegalIsFinal(p[2..]);
      } else {
        ReadEndsWithStartOrStop(p[1..], Step(s, p[0]));
        forall i | 1 <= i < |p| - 1 && p[i].ReadByte? && !p[i + 1].ReadByte?
          ensures p[i + 1] == Start || p[i + 1] == Stop
        {
          assert p[1..][i - 1] == p[i] && p[1..][i] == p[i + 1];
        }
      }
    }
  }

  /** The rule of `MasterNacksLast` at one read of a program. */
  lemma NacksLastAt(q: seq<Op>, j: int)
    requires MasterNacksLast(q) && 0 <= j < |q| && q[j].ReadByte?
    ensures q[j].ack == Ack <==> j + 1 < |q| && q[j + 1].ReadByte?
  {
  }

  /** The rule of `MasterNacksLast` at the first operation of a program
      that makes only legal steps and releases the bus.  */
  lemma HeadReadNacksLast(p: seq<Op>, s: Phase)
    requires Run(p, s) == Released
    requires p != [] && p[0].ReadByte?
    ensures p[0].ack == Ack <==> |p| > 1 && p[1].ReadByte?
  {
    var t := Step(s, p[0]);
    assert Run(p, s) == Run(p[1..], t);
    if |p| == 1 {
      assert false;
    } else {
      var u := Step(t, p[1]);
      assert p[1..][0] == p[1] && p[1..][1..] == p[2..];
      assert Run(p[1..], t) == Run(p[2..], u);
      if p[0].ack == Ack <==> !p[1].ReadByte? {
        assert u == Illegal;
        IllegalIsFinal(p[2..]);
        assert false;
      }
    }
  }

  /** A program that makes only legal steps and releases the bus ACKs a
      read exactly when another read follows it: after an ACK the slave
      still drives SDA and only a read may come next, and after a NACK the
      slave sends no more.  */
  lemma {:induction false} ReleasingRunNacksLast(p: seq<Op>, s: Phase)
    requires Run(p, s) == Released
    ensures MasterNacksLast(p)
    decreases |p|
  {
    if p != [] {
      var q := p[1..];
      ReleasingRunNacksLast(q, Step(s, p[0]));
      forall i | 0 <= i < |p| && p[i].ReadByte?
        ensures p[i].ack == Ack <==> i + 1 < |p| && p[i + 1].ReadByte?
      {
        if i == 0 {
          HeadReadNacksLast(p, s);
        } else {
          var j := i - 1;
          assert q[j] == p[i];
          NacksLastAt(q, j);
          if i + 1 < |p| {
            assert q[j + 1] == p[i + 1];
          }
        }
      }
    }
  }

  /** The shape every well-formed program has: it ends with STOP unless it
      is empty, every ReadByte comes after a START, and every read the
      master NACKs is followed by START or STOP.  */
  lemma WellFormedShape(p: seq<Op>)
    requires WellFormed(p)
    ensures p != [] ==> p[|p| - 1] == Stop
    ensures forall i :: 0 <= i < |p| && p[i].ReadByte? ==> exists j :: 0 <= j < i && p[j] == Start
    ensures forall i :: 0 <= i < |p| && p[i] == ReadByte(Nack) ==> i + 1 < |p| && (p[i + 1] == Start || p[i + 1] == Stop)
  {
    if p != [] {
      EndsReleasedEndsWithStop(p, Released);
    }
    ReadNeedsStart(p);
    ReadEndsWithStartOrStop(p, Released);
  }
}
