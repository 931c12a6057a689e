/** The fixed command programs the library's link-queue functions build,
    one function per program, with what each of them is proved to be: a
    well-formed I2C transaction with the right number of read slots, whose
    address bytes carry the intended address and direction.  The library
    methods are proved to submit exactly these programs.  */
module Programs {
  import opened I2cBus
  import opened IdfDriver

  /** Register read: address for writing, register number, repeated START,
      address for reading, one byte read with NACK, STOP.  */
  function ReadRegisterProgram(addr: Byte, reg: Byte): seq<Op>
  {
    [Start, WriteByte(AddrByte(addr, Write), true), WriteByte(reg, true),
     Start, WriteByte(AddrByte(addr, Read), true), ReadByte(Nack), Stop]
  }

  /** Plain read: address for reading, one byte read with NACK, STOP. */
  function ReadByteFromSlaveProgram(addr: Byte): seq<Op>
  {
    [Start, WriteByte(AddrByte(addr, Read), true), ReadByte(Nack), Stop]
  }

  /** Register write: address for writing, register number, value, STOP. */
  function WriteToRegisterProgram(addr: Byte, reg: Byte, value: Byte): seq<Op>
  {
    [Start, WriteByte(AddrByte(addr, Write), true), WriteByte(reg, true), WriteByte(value, true), Stop]
  }

  /** Register write followed, without a STOP, by a read-back of the same
      register, all in one program.  */
  function WriteToRegisterExProgram(addr: Byte, reg: Byte, value: Byte): seq<Op>
  {
    [Start, WriteByte(AddrByte(addr, Write), true), WriteByte(reg, true), WriteByte(value, true),
     Start, WriteByte(AddrByte(addr, Write), true), WriteByte(reg, true),
     Start, WriteByte(AddrByte(addr, Read), true), ReadByte(Nack), Stop]
  }

  /** Plain write: address for writing, value, STOP. */
  function WriteByteToSlaveProgram(addr: Byte, value: Byte): seq<Op>
  {
    [Start, WriteByte(AddrByte(addr, Write), true), WriteByte(value, true), Stop]
  }

  /** Raw write: the caller's byte goes on the bus as it is, with no
      address encoding.  */
  function WriteByteToBusRawProgram(value: Byte): seq<Op>
  {
    [Start, WriteByte(value, true), Stop]
  }

  /** Bus recovery: STOP, START, STOP. */
  function ResetBusProgram(): seq<Op>
  {
    [Stop, Start, Stop]
  }

  /** The presence probe of the scan and of the ping: the two-byte buffer
      {0, 0} written to one address.  */
  function Probe(port: int, addr: Byte): Request
  {
    WriteToDevice(port, addr, [0, 0])
  }

  /** Each program is what its link holds after the appends that build
      it, one operation at a time, starting from the empty link.  */
  lemma ReadRegisterProgramQueued(addr: Byte, reg: Byte)
    ensures [] + [Start] + [WriteByte(AddrByte(addr, Write), true)] + [WriteByte(reg, true)]
          + [Start] + [WriteByte(AddrByte(addr, Read), true)] + [ReadByte(Nack)] + [Stop]
         == ReadRegisterProgram(addr, reg)
  {
  }

  lemma ReadByteFromSlaveProgramQueued(addr: Byte)
    ensures [] + [Start] + [WriteByte(AddrByte(addr, Read), true)] + [ReadByte(Nack)] + [Stop]
         == ReadByteFromSlaveProgram(addr)
  {
  }

  lemma WriteToRegisterProgramQueued(addr: Byte, reg: Byte, value: Byte)
    ensures [] + [Start] + [WriteByte(AddrByte(addr, Write), true)] + [WriteByte(reg, true)]
          + [WriteByte(value, true)] + [Stop]
         == WriteToRegisterProgram(addr, reg, value)
  {
  }

  lemma WriteToRegisterExProgramQueued(addr: Byte, reg: Byte, value: Byte)
    ensures [] + [Start] + [WriteByte(AddrByte(addr, Write), true)] + [WriteByte(reg, true)]
          + [WriteByte(value, true)]
          + [Start] + [WriteByte(AddrByte(addr, Write), true)] + [WriteByte(reg, true)]
          + [Start] + [WriteByte(AddrByte(addr, Read), true)] + [ReadByte(Nack)] + [Stop]
         == WriteToRegisterExProgram(addr, reg, value)
  {
  }

  lemma WriteByteToSlaveProgramQueued(addr: Byte, value: Byte)
    ensures [] + [Start] + [WriteByte(AddrByte(addr, Write), true)] + [WriteByte(value, true)] + [Stop]
         == WriteByteToSlaveProgram(addr, value)
  {
  }

  lemma WriteByteToBusRawProgramQueued(value: Byte)
    ensures [] + [Start] + [WriteByte(value, true)] + [Stop] == WriteByteToBusRawProgram(value)
  {
  }

  lemma ResetBusProgramQueued()
    ensures [] + [Stop] + [Start] + [Stop] == ResetBusProgram()
  {
  }

  /** Runs the operation at position k of a program; the calculations
      below use it to walk a program one operation at a time, naming the
      bus phase after each step.  */
  lemma RunAt(p: seq<Op>, k: nat, s: Phase)
    requires k < |p|
    ensures Run(p[k..], s) == Run(p[k + 1..], Step(s, p[k]))
  {
    assert p[k..][1..] == p[k + 1..];
  }

  /** The register-read program leaves the bus released from any legal
      phase; the calculation names the phase after each operation.  */
  lemma ReadRegisterProgramReleases(addr: Byte, reg: Byte, s: Phase)
    requires MasterHoldsSda(s)
    ensures Run(ReadRegisterProgram(addr, reg), s) == Released
  {
    var p := ReadRegisterProgram(addr, reg);
    calc {
      Run(p, s);
      { assert p[0..] == p; RunAt(p, 0, s); }
      Run(p[1..], Started);
      { RunAt(p, 1, Started); }
      Run(p[2..], Transmitting);
      { RunAt(p, 2, Transmitting); }
      Run(p[3..], Transmitting);
      { RunAt(p, 3, Transmitting); }
      Run(p[4..], Started);
      { RunAt(p, 4, Started); }
      Run(p[5..], AddressedRead);
      { RunAt(p, 5, AddressedRead); }
      Run(p[6..], Receiving);
      { RunAt(p, 6, Receiving); assert p[7..] == []; }
      Released;
    }
  }

  /** ReadRegister's program is a well-formed transaction: its one read
      is ended by NACK.  */
  lemma ReadRegisterProgramWellFormed(addr: Byte, reg: Byte)
    ensures WellFormed(ReadRegisterProgram(addr, reg))
  {
    ReadRegisterProgramReleases(addr, reg, Released);
  }

  /** ReadRegister's program has one read slot. */
  lemma ReadRegisterProgramReads(addr: Byte, reg: Byte)
    ensures CountReads(ReadRegisterProgram(addr, reg)) == 1
  {
    var p := ReadRegisterProgram(addr, reg);
    assert p[0..] == p && p[7..] == [];
    CountReadsAt(p, 0); CountReadsAt(p, 1); CountReadsAt(p, 2); CountReadsAt(p, 3);
    CountReadsAt(p, 4); CountReadsAt(p, 5); CountReadsAt(p, 6);
  }

  /** Both address bytes of the register read name the slave's 7-bit
      address: the first for writing the register number, the second, after
      the repeated START, for reading.  */
  lemma ReadRegisterProgramAddresses(addr: Byte, reg: Byte)
    requires addr <= 127
    ensures AddressOf(ReadRegisterProgram(addr, reg)[1].value) == addr
    ensures ModeOf(ReadRegisterProgram(addr, reg)[1].value) == Write
    ensures AddressOf(ReadRegisterProgram(addr, reg)[4].value) == addr
    ensures ModeOf(ReadRegisterProgram(addr, reg)[4].value) == Read
  {
    AddrByteRoundTrip(addr, Write);
    AddrByteRoundTrip(addr, Read);
  }

  lemma ReadByteFromSlaveProgramReleases(addr: Byte, s: Phase)
    requires MasterHoldsSda(s)
    ensures Run(ReadByteFromSlaveProgram(addr), s) == Released
  {
    var p := ReadByteFromSlaveProgram(addr);
    calc {
      Run(p, s);
      { assert p[0..] == p; RunAt(p, 0, s); }
      Run(p[1..], Started);
      { RunAt(p, 1, Started); }
      Run(p[2..], AddressedRead);
      { RunAt(p, 2, AddressedRead); }
      Run(p[3..], Receiving);
      { RunAt(p, 3, Receiving); assert p[4..] == []; }
      Released;
    }
  }

  /** ReadByteFromSlave's program is a well-formed transaction. */
  lemma ReadByteFromSlaveProgramWellFormed(addr: Byte)
    ensures WellFormed(ReadByteFromSlaveProgram(addr))
  {
    ReadByteFromSlaveProgramReleases(addr, Released);
  }

  /** ReadByteFromSlave's program has one read slot. */
  lemma ReadByteFromSlaveProgramReads(addr: Byte)
    ensures CountReads(ReadByteFromSlaveProgram(addr)) == 1
  {
    var p := ReadByteFromSlaveProgram(addr);
    assert p[0..] == p && p[4..] == [];
    CountReadsAt(p, 0); CountReadsAt(p, 1); CountReadsAt(p, 2); CountReadsAt(p, 3);
  }

  lemma WriteToRegisterProgramReleases(addr: Byte, reg: Byte, value: Byte, s: Phase)
    requires MasterHoldsSda(s)
    ensures Run(WriteToRegisterProgram(addr, reg, value), s) == Released
  {
    var p := WriteToRegisterProgram(addr, reg, value);
    calc {
      Run(p, s);
      { assert p[0..] == p; RunAt(p, 0, s); }
      Run(p[1..], Started);
      { RunAt(p, 1, Started); }
      Run(p[2..], Transmitting);
      { RunAt(p, 2, Transmitting); }
      Run(p[3..], Transmitting);
      { RunAt(p, 3, Transmitting); }
      Run(p[4..], Transmitting);
      { RunAt(p, 4, Transmitting); assert p[5..] == []; }
      Released;
    }
  }

  /** WriteToRegister's program is a well-formed transaction whose address
      byte has the R/W bit 0.  */
  lemma WriteToRegisterProgramWellFormed(addr: Byte, reg: Byte, value: Byte)
    ensures WellFormed(WriteToRegisterProgram(addr, reg, value))
    ensures ModeOf(WriteToRegisterProgram(addr, reg, value)[1].value) == Write
  {
    WriteToRegisterProgramReleases(addr, reg, value, Released);
  }

  /** WriteToRegister's program has no read slot. */
  lemma WriteToRegisterProgramReads(addr: Byte, reg: Byte, value: Byte)
    ensures CountReads(WriteToRegisterProgram(addr, reg, value)) == 0
  {
    var p := WriteToRegisterProgram(addr, reg, value);
    assert p[0..] == p && p[5..] == [];
    CountReadsAt(p, 0); CountReadsAt(p, 1); CountReadsAt(p, 2); CountReadsAt(p, 3);
    CountReadsAt(p, 4);
  }

  /** The verifying write is the plain register write with its STOP
      replaced by the whole register-read program (a repeated START), so
      the bus is never released between the write and the read-back.  */
  lemma WriteToRegisterExProgramShape(addr: Byte, reg: Byte, value: Byte)
    ensures WriteToRegisterExProgram(addr, reg, value)
         == WriteToRegisterProgram(addr, reg, value)[..4] + ReadRegisterProgram(addr, reg)
    ensures |WriteToRegisterExProgram(addr, reg, value)| == 11
    ensures forall i :: 0 <= i < 10 ==> WriteToRegisterExProgram(addr, reg, value)[i] != Stop
  {
  }

  lemma WriteToRegisterExProgramReleases(addr: Byte, reg: Byte, value: Byte, s: Phase)
    requires MasterHoldsSda(s)
    ensures Run(WriteToRegisterExProgram(addr, reg, value), s) == Released
  {
    var w := WriteToRegisterProgram(addr, reg, value)[..4];
    WriteToRegisterExProgramShape(addr, reg, value);
    RunConcat(w, ReadRegisterProgram(addr, reg), s);
    calc {
      Run(w, s);
      { assert w[0..] == w; RunAt(w, 0, s); }
      Run(w[1..], Started);
      { RunAt(w, 1, Started); }
      Run(w[2..], Transmitting);
      { RunAt(w, 2, Transmitting); }
      Run(w[3..], Transmitting);
      { RunAt(w, 3, Transmitting); assert w[4..] == []; }
      Transmitting;
    }
    ReadRegisterProgramReleases(addr, reg, Transmitting);
  }

  /** WriteToRegister_EX's program is a well-formed transaction. */
  lemma WriteToRegisterExProgramWellFormed(addr: Byte, reg: Byte, value: Byte)
    ensures WellFormed(WriteToRegisterExProgram(addr, reg, value))
  {
    WriteToRegisterExProgramReleases(addr, reg, value, Released);
  }

  /** WriteToRegister_EX's program has one read slot: the read-back. */
  lemma WriteToRegisterExProgramReads(addr: Byte, reg: Byte, value: Byte)
    ensures CountReads(WriteToRegisterExProgram(addr, reg, value)) == 1
  {
    var w, r := WriteToRegisterProgram(addr, reg, value)[..4], ReadRegisterProgram(addr, reg);
    WriteToRegisterExProgramShape(addr, reg, value);
    CountReadsConcat(w, r);
    ReadRegisterProgramReads(addr, reg);
    assert w[0..] == w && w[4..] == [];
    CountReadsAt(w, 0); CountReadsAt(w, 1); CountReadsAt(w, 2); CountReadsAt(w, 3);
  }

  lemma WriteByteToSlaveProgramReleases(addr: Byte, value: Byte, s: Phase)
    requires MasterHoldsSda(s)
    ensures Run(WriteByteToSlaveProgram(addr, value), s) == Released
  {
    var p := WriteByteToSlaveProgram(addr, value);
    calc {
      Run(p, s);
      { assert p[0..] == p; RunAt(p, 0, s); }
      Run(p[1..], Started);
      { RunAt(p, 1, Started); }
      Run(p[2..], Transmitting);
      { RunAt(p, 2, Transmitting); }
      Run(p[3..], Transmitting);
      { RunAt(p, 3, Transmitting); assert p[4..] == []; }
      Released;
    }
  }

  /** WriteByteToSlave's program is a well-formed transaction whose address
      byte has the R/W bit 0.  */
  lemma WriteByteToSlaveProgramWellFormed(addr: Byte, value: Byte)
    ensures WellFormed(WriteByteToSlaveProgram(addr, value))
    ensures ModeOf(WriteByteToSlaveProgram(addr, value)[1].value) == Write
  {
    WriteByteToSlaveProgramReleases(addr, value, Released);
  }

  /** WriteByteToSlave's program has no read slot. */
  lemma WriteByteToSlaveProgramReads(addr: Byte, value: Byte)
    ensures CountReads(WriteByteToSlaveProgram(addr, value)) == 0
  {
    var p := WriteByteToSlaveProgram(addr, value);
    assert p[0..] == p && p[4..] == [];
    CountReadsAt(p, 0); CountReadsAt(p, 1); CountReadsAt(p, 2); CountReadsAt(p, 3);
  }

  /** The raw write is well-formed exactly when the byte it sends, which
      the slaves read as an address byte, has the R/W bit 0: with the bit
      set, the addressed slave holds SDA for a byte the program never
      reads, and the STOP cannot be signalled.  */
  lemma WriteByteToBusRawProgramWellFormed(value: Byte)
    ensures WellFormed(WriteByteToBusRawProgram(value)) <==> ModeOf(value) == Write
  {
    var p := WriteByteToBusRawProgram(value);
    var t := Step(Started, p[1]);
    calc {
      Run(p, Released);
      { assert p[0..] == p; RunAt(p, 0, Released); }
      Run(p[1..], Started);
      { RunAt(p, 1, Started); }
      Run(p[2..], t);
      { RunAt(p, 2, t); assert p[3..] == []; }
      Step(t, Stop);
    }
  }

  /** The raw write has no read slot. */
  lemma WriteByteToBusRawProgramReads(value: Byte)
    ensures CountReads(WriteByteToBusRawProgram(value)) == 0
  {
    var p := WriteByteToBusRawProgram(value);
    assert p[0..] == p && p[3..] == [];
    CountReadsAt(p, 0); CountReadsAt(p, 1); CountReadsAt(p, 2);
  }

  /** The recovery program releases the bus from every phase in which the
      master holds SDA.  */
  lemma ResetBusReleasesFromAnyPhase(s: Phase)
    requires MasterHoldsSda(s)
    ensures Run(ResetBusProgram(), s) == Released
    ensures WellFormed(ResetBusProgram())
  {
    var p := ResetBusProgram();
    assert p[1..] == [Start, Stop] && p[2..] == [Stop] && p[3..] == [];
  }

  /** The recovery program has no read slot. */
  lemma ResetBusProgramReads()
    ensures CountReads(ResetBusProgram()) == 0
  {
    var p := ResetBusProgram();
    assert p[0..] == p && p[3..] == [];
    CountReadsAt(p, 0); CountReadsAt(p, 1); CountReadsAt(p, 2);
  }
}
