/** The FULL version of the SUS I2C master library.  Each function is a
    method over the driver: the link-queue functions build their program on
    a fresh command link and run it once with `i2c_master_cmd_begin`; the
    "_EZ" functions make one call to an ESP-IDF convenience wrapper.  A
    function the library declares `void` returns here what it reports in
    its log: the outcome code, the addresses found, or which of the
    read-back messages it prints.  */
module SusFull {
  import opened I2cBus
  import opened IdfDriver
  import opened Programs

  /** The scan stops before this address: address 127 is never probed. */
  const ScanLimit: int := 127

  /** The read-back message WriteToRegister_EX logs: "Write success
      confirmed", "Data mismatch", or none when the transaction failed.  */
  datatype WriteCheck = Confirmed | Mismatch | NotChecked

  /** What a sweep reports, given the exchanges of its probes in order: the
      position of every probe that was answered with ESP_OK.  */
  function ScanReport(sweep: seq<Exchange>): seq<int>
    decreases |sweep|
  {
    if sweep == [] then []
    else
      var n := |sweep| - 1;
      ScanReport(sweep[..n]) + (if sweep[n].resp.outcome == ESP_OK then [n] else [])
  }

  /** The report names exactly the probe positions answered with ESP_OK. */
  lemma {:induction false} ScanReportMembers(sweep: seq<Exchange>)
    ensures forall a :: a in ScanReport(sweep) <==> 0 <= a < |sweep| && sweep[a].resp.outcome == ESP_OK
    decreases |sweep|
  {
    if sweep != [] {
      var n := |sweep| - 1;
      ScanReportMembers(sweep[..n]);
      forall a
        ensures a in ScanReport(sweep) <==> 0 <= a < |sweep| && sweep[a].resp.outcome == ESP_OK
      {
        if 0 <= a < n {
          assert sweep[..n][a] == sweep[a];
        }
      }
    }
  }

  /** The report lists the positions in increasing order, each once, and
      all of them below the length of the sweep.  */
  lemma {:induction false} ScanReportSorted(sweep: seq<Exchange>)
    ensures forall j, k :: 0 <= j < k < |ScanReport(sweep)| ==> ScanReport(sweep)[j] < ScanReport(sweep)[k]
    ensures forall k :: 0 <= k < |ScanReport(sweep)| ==> 0 <= ScanReport(sweep)[k] < |sweep|
    decreases |sweep|
  {
    if sweep != [] {
      ScanReportSorted(sweep[..|sweep| - 1]);
    }
  }

  /** SUS_I2C_ScanForDevices: probes addresses 0, 1, ..., 126 in order
      and reports those that answer with ESP_OK.  */
  method ScanForDevices(drv: Driver, port: int) returns (found: seq<int>)
    requires drv.Valid()
    modifies drv
    ensures drv.Valid()
    ensures |drv.log| == |old(drv.log)| + ScanLimit && drv.log[..|old(drv.log)|] == old(drv.log)
    ensures forall a :: 0 <= a < ScanLimit ==> drv.log[|old(drv.log)|..][a].req == Probe(port, a)
    ensures found == ScanReport(drv.log[|old(drv.log)|..])
    ensures forall a :: a in found <==> 0 <= a < ScanLimit && drv.log[|old(drv.log)|..][a].resp.outcome == ESP_OK
    ensures forall j, k :: 0 <= j < k < |found| ==> found[j] < found[k]
  {
    ghost var sweep: seq<Exchange> := [];
    var writeBuf: seq<Byte> := [0x00, 0];
    found := [];
    var i := 0;
    while i < ScanLimit
      invariant 0 <= i <= ScanLimit
      invariant drv.Valid()
      invariant drv.log == old(drv.log) + sweep && |sweep| == i
      invariant forall a :: 0 <= a < i ==> sweep[a].req == Probe(port, a)
      invariant found == ScanReport(sweep)
    {
      var resp := drv.WriteToDevice(port, i, writeBuf);
      ghost var earlier := sweep;
      sweep := sweep + [Exchange(Probe(port, i), resp)];
      assert sweep[..i] == earlier;
      assert drv.log == old(drv.log) + earlier + [Exchange(Probe(port, i), resp)];
      if resp.outcome == ESP_OK {
        found := found + [i];
      }
      i := i + 1;
    }
    assert drv.log[|old(drv.log)|..] == sweep;
    ScanReportMembers(sweep);
    ScanReportSorted(sweep);
  }

  /** SUS_I2C_PingAddress: the scan's probe, sent once to one address. */
  method PingAddress(drv: Driver, port: int, addr: Byte) returns (outcome: EspErr)
    requires drv.Valid()
    modifies drv
    ensures drv.Valid()
    ensures drv.SubmittedOnce(old(drv.log), Probe(port, addr))
    ensures outcome == drv.Last().outcome
  {
    var writeBuf: seq<Byte> := [0x00, 0];
    var resp := drv.WriteToDevice(port, addr, writeBuf);
    outcome := resp.outcome;
  }

  /** SUS_I2C_ReadRegister: one register-read program, run once; the byte
      read on ESP_OK, 0 otherwise.  */
  method ReadRegister(drv: Driver, port: Byte, addr: Byte, reg: Byte) returns (value: Byte)
    requires drv.Valid()
    modifies drv
    ensures drv.Valid()
    ensures drv.SubmittedOnce(old(drv.log), CmdBegin(port, ReadRegisterProgram(addr, reg)))
    ensures drv.Last().outcome == ESP_OK ==> |drv.Last().received| == 1 && value == drv.Last().received[0]
    ensures drv.Last().outcome != ESP_OK ==> value == 0
  {
    var readValue: Byte := 0xf1;
    var link := new CommandLink();
    link.Start();
    link.WriteByte(AddrByte(addr, Write), true);
    link.WriteByte(reg, true);
    link.Start();
    link.WriteByte(AddrByte(addr, Read), true);
    link.ReadByte(Nack);
    link.Stop();
    assert link.ops == ReadRegisterProgram(addr, reg) && CountReads(link.ops) == 1 by {
      ReadRegisterProgramQueued(addr, reg);
      ReadRegisterProgramReads(addr, reg);
    }
    var resp := drv.Begin(port, link, 1);
    readValue := Received(resp, 0, readValue);
    if resp.outcome != ESP_OK {
      return 0;
    }
    value := readValue;
  }

  /** SUS_I2C_ReadRegister_EZ: one write-read call with the register
      number as the one byte written and one byte to read.  It passes port
      0 to the driver whatever its port argument.  */
  method ReadRegisterEz(drv: Driver, port: int, addr: int, reg: Byte) returns (value: Byte)
    requires drv.Valid()
    modifies drv
    ensures drv.Valid()
    ensures drv.SubmittedOnce(old(drv.log), WriteReadDevice(0, DeviceAddress(addr), [reg], 1))
    ensures drv.Last().outcome == ESP_OK ==> |drv.Last().received| == 1 && value == drv.Last().received[0]
    ensures drv.Last().outcome != ESP_OK ==> value == 0
  {
    var readValue: Byte := 0xf1;
    var resp := drv.WriteReadDevice(0, DeviceAddress(addr), [reg], 1);
    readValue := Received(resp, 0, readValue);
    if resp.outcome != ESP_OK {
      return 0;
    }
    value := readValue;
  }

  /** SUS_I2C_ReadByteFromSlave: one plain-read program, run once; the
      byte read on ESP_OK, 0 otherwise.  */
  method ReadByteFromSlave(drv: Driver, port: Byte, addr: Byte) returns (value: Byte)
    requires drv.Valid()
    modifies drv
    ensures drv.Valid()
    ensures drv.SubmittedOnce(old(drv.log), CmdBegin(port, ReadByteFromSlaveProgram(addr)))
    ensures drv.Last().outcome == ESP_OK ==> |drv.Last().received| == 1 && value == drv.Last().received[0]
    ensures drv.Last().outcome != ESP_OK ==> value == 0
  {
    var readValue: Byte := 0xf1;
    var link := new CommandLink();
    link.Start();
    link.WriteByte(AddrByte(addr, Read), true);
    link.ReadByte(Nack);
    link.Stop();
    assert link.ops == ReadByteFromSlaveProgram(addr) && CountReads(link.ops) == 1 by {
      ReadByteFromSlaveProgramQueued(addr);
      ReadByteFromSlaveProgramReads(addr);
    }
    var resp := drv.Begin(port, link, 1);
    readValue := Received(resp, 0, readValue);
    if resp.outcome != ESP_OK {
      return 0;
    }
    value := readValue;
  }

  /** SUS_I2C_ReadByteFromSlave_EZ: one read-from-device call for one
      byte.  The function is `void` and does not log the byte, so the byte
      read is lost; only the outcome is reported.  */
  method ReadByteFromSlaveEz(drv: Driver, port: int, addr: int) returns (outcome: EspErr)
    requires drv.Valid()
    modifies drv
    ensures drv.Valid()
    ensures drv.SubmittedOnce(old(drv.log), ReadFromDevice(port, DeviceAddress(addr), 1))
    ensures outcome == drv.Last().outcome
  {
    var resp := drv.ReadFromDevice(port, DeviceAddress(addr), 1);
    outcome := resp.outcome;
  }

  /** SUS_I2C_WriteToRegister: one register-write program, run once. */
  method WriteToRegister(drv: Driver, port: Byte, addr: Byte, reg: Byte, value: Byte) returns (outcome: EspErr)
    requires drv.Valid()
    modifies drv
    ensures drv.Valid()
    ensures drv.SubmittedOnce(old(drv.log), CmdBegin(port, WriteToRegisterProgram(addr, reg, value)))
    ensures outcome == drv.Last().outcome
  {
    var link := new CommandLink();
    link.Start();
    link.WriteByte(AddrByte(addr, Write), true);
    link.WriteByte(reg, true);
    link.WriteByte(value, true);
    link.Stop();
    assert link.ops == WriteToRegisterProgram(addr, reg, value) && CountReads(link.ops) == 0 by {
      WriteToRegisterProgramQueued(addr, reg, value);
      WriteToRegisterProgramReads(addr, reg, value);
    }
    var resp := drv.Begin(port, link, 0);
    outcome := resp.outcome;
  }

  /** SUS_I2C_WriteToRegister_EX: the register write and a read-back of
      the same register in one program, run once.  The read-back is
      compared with the value written only when the outcome is ESP_OK.  */
  method WriteToRegisterEx(drv: Driver, port: Byte, addr: Byte, reg: Byte, value: Byte)
    returns (outcome: EspErr, check: WriteCheck)
    requires drv.Valid()
    modifies drv
    ensures drv.Valid()
    ensures drv.SubmittedOnce(old(drv.log), CmdBegin(port, WriteToRegisterExProgram(addr, reg, value)))
    ensures outcome == drv.Last().outcome
    ensures outcome == ESP_OK ==> |drv.Last().received| == 1
    ensures check == Confirmed <==> outcome == ESP_OK && drv.Last().received[0] == value
    ensures check == Mismatch <==> outcome == ESP_OK && drv.Last().received[0] != value
    ensures check == NotChecked <==> outcome != ESP_OK
  {
    var readValue: Byte := 0xf1;
    var link := new CommandLink();
    link.Start();
    link.WriteByte(AddrByte(addr, Write), true);
    link.WriteByte(reg, true);
    link.WriteByte(value, true);
    link.Start();
    link.WriteByte(AddrByte(addr, Write), true);
    link.WriteByte(reg, true);
    link.Start();
    link.WriteByte(AddrByte(addr, Read), true);
    link.ReadByte(Nack);
    link.Stop();
    assert link.ops == WriteToRegisterExProgram(addr, reg, value) && CountReads(link.ops) == 1 by {
      WriteToRegisterExProgramQueued(addr, reg, value);
      WriteToRegisterExProgramReads(addr, reg, value);
    }
    var resp := drv.Begin(port, link, 1);
    readValue := Received(resp, 0, readValue);
    outcome := resp.outcome;
    if outcome == ESP_OK {
      if readValue == value {
        check := Confirmed;
      } else {
        check := Mismatch;
      }
    } else {
      check := NotChecked;
    }
  }

  /** SUS_I2C_WriteToRegister_EZ: one write-to-device call with the
      two-byte buffer {register, value}.  */
  method WriteToRegisterEz(drv: Driver, port: int, addr: int, reg: Byte, value: Byte) returns (outcome: EspErr)
    requires drv.Valid()
    modifies drv
    ensures drv.Valid()
    ensures drv.SubmittedOnce(old(drv.log), WriteToDevice(port, DeviceAddress(addr), [reg, value]))
    ensures outcome == drv.Last().outcome
  {
    var writeBuffer: seq<Byte> := [reg, value];
    var resp := drv.WriteToDevice(port, DeviceAddress(addr), writeBuffer);
    outcome := resp.outcome;
  }

  /** SUS_I2C_WriteByteToSlave: one plain-write program, run once. */
  method WriteByteToSlave(drv: Driver, port: Byte, addr: Byte, value: Byte) returns (outcome: EspErr)
    requires drv.Valid()
    modifies drv
    ensures drv.Valid()
    ensures drv.SubmittedOnce(old(drv.log), CmdBegin(port, WriteByteToSlaveProgram(addr, value)))
    ensures outcome == drv.Last().outcome
  {
    var link := new CommandLink();
    link.Start();
    link.WriteByte(AddrByte(addr, Write), true);
    link.WriteByte(value, true);
    link.Stop();
    assert link.ops == WriteByteToSlaveProgram(addr, value) && CountReads(link.ops) == 0 by {
      WriteByteToSlaveProgramQueued(addr, value);
      WriteByteToSlaveProgramReads(addr, value);
    }
    var resp := drv.Begin(port, link, 0);
    outcome := resp.outcome;
  }

  /** SUS_I2C_WriteByteToSlave_EZ: one write-to-device call with the
      one-byte buffer {value}.  */
  method WriteByteToSlaveEz(drv: Driver, port: int, addr: int, value: Byte) returns (outcome: EspErr)
    requires drv.Valid()
    modifies drv
    ensures drv.Valid()
    ensures drv.SubmittedOnce(old(drv.log), WriteToDevice(port, DeviceAddress(addr), [value]))
    ensures outcome == drv.Last().outcome
  {
    var resp := drv.WriteToDevice(port, DeviceAddress(addr), [value]);
    outcome := resp.outcome;
  }

  /** SUS_I2C_WriteByteArrayToSlave_EZ: one write-to-device call with the
      first `amount` bytes of the caller's array, unchanged; on ESP_OK it
      prints those bytes one by one.  */
  method WriteByteArrayToSlaveEz(drv: Driver, port: int, addr: int, values: array<Byte>, amount: Byte)
    returns (outcome: EspErr, printed: seq<Byte>)
    requires drv.Valid()
    requires amount <= values.Length
    modifies drv
    ensures drv.Valid()
    ensures drv.SubmittedOnce(old(drv.log), WriteToDevice(port, DeviceAddress(addr), values[..amount]))
    ensures outcome == drv.Last().outcome
    ensures printed == if outcome == ESP_OK then values[..amount] else []
  {
    var resp := drv.WriteToDevice(port, DeviceAddress(addr), values[..amount]);
    outcome := resp.outcome;
    printed := [];
    if outcome == ESP_OK {
      var i := 0;
      while i < amount
        invariant 0 <= i <= amount
        invariant printed == values[..i]
      {
        printed := printed + [values[i]];
        i := i + 1;
      }
    }
  }

  /** SUS_I2C_WriteByteToBus_RAW: one program that sends the caller's byte
      after a START, without address encoding, then STOP.  */
  method WriteByteToBusRaw(drv: Driver, port: Byte, value: Byte) returns (outcome: EspErr)
    requires drv.Valid()
    modifies drv
    ensures drv.Valid()
    ensures drv.SubmittedOnce(old(drv.log), CmdBegin(port, WriteByteToBusRawProgram(value)))
    ensures outcome == drv.Last().outcome
  {
    var link := new CommandLink();
    link.Start();
    link.WriteByte(value, true);
    link.Stop();
    assert link.ops == WriteByteToBusRawProgram(value) && CountReads(link.ops) == 0 by {
      WriteByteToBusRawProgramQueued(value);
      WriteByteToBusRawProgramReads(value);
    }
    var resp := drv.Begin(port, link, 0);
    outcome := resp.outcome;
  }

  /** SUS_I2C_ResetBus: the STOP, START, STOP program, run once, whatever
      happened on the bus before.  */
  method ResetBus(drv: Driver, port: Byte) returns (outcome: EspErr)
    requires drv.Valid()
    modifies drv
    ensures drv.Valid()
    ensures drv.SubmittedOnce(old(drv.log), CmdBegin(port, ResetBusProgram()))
    ensures outcome == drv.Last().outcome
  {
    var link := new CommandLink();
    link.Stop();
    link.Start();
    link.Stop();
    assert link.ops == ResetBusProgram() && CountReads(link.ops) == 0 by {
      ResetBusProgramQueued();
      ResetBusProgramReads();
    }
    var resp := drv.Begin(port, link, 0);
    outcome := resp.outcome;
  }
}
