/** The BAREBONES version of the library: a subset of the FULL version's
    functions (no link-queue plain read, verifying write, plain link-queue
    write, array write or raw write), each with the same parameters and the
    same body as its FULL counterpart.  Each method here therefore states
    the FULL contract and runs the FULL method.  */
module SusBarebones {
  import opened I2cBus
  import opened IdfDriver
  import opened Programs
  import SusFull

  /** SUS_I2C_ScanForDevices. */
  method ScanForDevices(drv: Driver, port: int) returns (found: seq<int>)
    requires drv.Valid()
    modifies drv
    ensures drv.Valid()
    ensures |drv.log| == |old(drv.log)| + SusFull.ScanLimit && drv.log[..|old(drv.log)|] == old(drv.log)
    ensures forall a :: 0 <= a < SusFull.ScanLimit ==> drv.log[|old(drv.log)|..][a].req == Probe(port, a)
    ensures found == SusFull.ScanReport(drv.log[|old(drv.log)|..])
    ensures forall a :: a in found <==> 0 <= a < SusFull.ScanLimit && drv.log[|old(drv.log)|..][a].resp.outcome == ESP_OK
    ensures forall j, k :: 0 <= j < k < |found| ==> found[j] < found[k]
  {
    found := SusFull.ScanForDevices(drv, port);
  }

  /** SUS_I2C_PingAddress. */
  method PingAddress(drv: Driver, port: int, addr: Byte) returns (outcome: EspErr)
    requires drv.Valid()
    modifies drv
    ensures drv.Valid()
    ensures drv.SubmittedOnce(old(drv.log), Probe(port, addr))
    ensures outcome == drv.Last().outcome
  {
    outcome := SusFull.PingAddress(drv, port, addr);
  }

  /** SUS_I2C_ReadRegister. */
  method ReadRegister(drv: Driver, port: Byte, addr: Byte, reg: Byte) returns (value: Byte)
    requires drv.Valid()
    modifies drv
    ensures drv.Valid()
    ensures drv.SubmittedOnce(old(drv.log), CmdBegin(port, ReadRegisterProgram(addr, reg)))
    ensures drv.Last().outcome == ESP_OK ==> |drv.Last().received| == 1 && value == drv.Last().received[0]
    ensures drv.Last().outcome != ESP_OK ==> value == 0
  {
    value := SusFull.ReadRegister(drv, port, addr, reg);
  }

  /** SUS_I2C_ReadRegister_EZ, which also passes port 0 to the driver. */
  method ReadRegisterEz(drv: Driver, port: int, addr: int, reg: Byte) returns (value: Byte)
    requires drv.Valid()
    modifies drv
    ensures drv.Valid()
    ensures drv.SubmittedOnce(old(drv.log), WriteReadDevice(0, DeviceAddress(addr), [reg], 1))
    ensures drv.Last().outcome == ESP_OK ==> |drv.Last().received| == 1 && value == drv.Last().received[0]
    ensures drv.Last().outcome != ESP_OK ==> value == 0
  {
    value := SusFull.ReadRegisterEz(drv, port, addr, reg);
  }

  /** SUS_I2C_ReadByteFromSlave_EZ, which loses the byte it reads. */
  method ReadByteFromSlaveEz(drv: Driver, port: int, addr: int) returns (outcome: EspErr)
    requires drv.Valid()
    modifies drv
    ensures drv.Valid()
    ensures drv.SubmittedOnce(old(drv.log), ReadFromDevice(port, DeviceAddress(addr), 1))
    ensures outcome == drv.Last().outcome
  {
    outcome := SusFull.ReadByteFromSlaveEz(drv, port, addr);
  }

  /** SUS_I2C_WriteToRegister. */
  method WriteToRegister(drv: Driver, port: Byte, addr: Byte, reg: Byte, value: Byte) returns (outcome: EspErr)
    requires drv.Valid()
    modifies drv
    ensures drv.Valid()
    ensures drv.SubmittedOnce(old(drv.log), CmdBegin(port, WriteToRegisterProgram(addr, reg, value)))
    ensures outcome == drv.Last().outcome
  {
    outcome := SusFull.WriteToRegister(drv, port, addr, reg, value);
  }

  /** SUS_I2C_WriteToRegister_EZ. */
  method WriteToRegisterEz(drv: Driver, port: int, addr: int, reg: Byte, value: Byte) returns (outcome: EspErr)
    requires drv.Valid()
    modifies drv
    ensures drv.Valid()
    ensures drv.SubmittedOnce(old(drv.log), WriteToDevice(port, DeviceAddress(addr), [reg, value]))
    ensures outcome == drv.Last().outcome
  {
    outcome := SusFull.WriteToRegisterEz(drv, port, addr, reg, value);
  }

  /** SUS_I2C_WriteByteToSlave_EZ. */
  method WriteByteToSlaveEz(drv: Driver, port: int, addr: int, value: Byte) returns (outcome: EspErr)
    requires drv.Valid()
    modifies drv
    ensures drv.Valid()
    ensures drv.SubmittedOnce(old(drv.log), WriteToDevice(port, DeviceAddress(addr), [value]))
    ensures outcome == drv.Last().outcome
  {
    outcome := SusFull.WriteByteToSlaveEz(drv, port, addr, value);
  }

  /** SUS_I2C_ResetBus. */
  method ResetBus(drv: Driver, port: Byte) returns (outcome: EspErr)
    requires drv.Valid()
    modifies drv
    ensures drv.Valid()
    ensures drv.SubmittedOnce(old(drv.log), CmdBegin(port, ResetBusProgram()))
    ensures outcome == drv.Last().outcome
  {
    outcome := SusFull.ResetBus(drv, port);
  }
}
