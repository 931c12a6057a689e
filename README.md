# SUS I2C master library: a verified model of its command programs

The library (two headers: a FULL version and a BAREBONES subset) wraps the
ESP-IDF I2C master driver in one call per bus transaction.  Its
"link-queue" functions append START, address byte, data byte, read slot and
STOP operations to a command link and run that link once with
`i2c_master_cmd_begin`.  Its "_EZ" functions make one call to an ESP-IDF
convenience wrapper.  `SUS_I2C_ScanForDevices` probes addresses 0 to 126
in a loop, each with the two-byte write `{0,0}` through
`i2c_master_write_to_device`, as `SUS_I2C_PingAddress` probes one address;
neither builds a command link.  The scan's log line announces addresses 0
to 127 (SUS_I2Cmaster_FULL.h:171), but the loop test `i < 127` stops at
126, and the model follows the loop.  Each function then reads the driver's outcome code: it returns the
byte read, or 0 on failure, or it only logs the outcome.

The model has five modules:

- `I2cBus` (`bus.dfy`) holds the vocabulary.
  - Bytes and the address/R-W byte `(addr << 1) | mode`, truncated to
    `uint8_t` (UM10204, section 3.1.10).
  - The four command-link operations.
  - A state machine of bus phases (released, started, transmitting,
    addressed for reading, receiving after an ACK, receiving after a NACK,
    illegal).  It is an independent
    reference: it decides which programs are well-formed transactions.  A
    well-formed program leaves the bus released.  It writes an address byte
    only right after a START and data bytes only while transmitting. Once a
    slave has been addressed for reading, the program reads at least one
    byte before it signals START or STOP, because that slave holds SDA
    (UM10204, section 3.1.10).  After a read the master ACKs, the slave
    drives SDA again and only another read may follow; after the read the
    master NACKs, the slave sends no more and the master signals START or
    STOP (UM10204, section 3.1.6).
  - A START directly followed by STOP is accepted, although UM10204 calls
    it a void message: the recovery program STOP, START, STOP contains one.
- `IdfDriver` (`driver.dfy`) is the ESP-IDF side.
  - `CommandLink` is a class whose `ops` sequence the append methods
    grow in place.
  - `Driver` is an oracle class.  Its `answer` function says how the bus
    responds to each request, given every earlier exchange.  Its `log`
    records every request and response in order.  `Valid()` says two
    things: the log is a faithful transcript of `answer`, and the driver
    fills every read slot when it reports ESP_OK.
- `Programs` (`programs.dfy`) has one function per fixed program a
  link-queue function builds.  Lemmas prove each program is a well-formed
  transaction with the expected number of read slots. The raw write is
  well-formed exactly when its byte has R/W bit 0.
- `SusFull` (`sus_full.dfy`) has one method per library function of the
  FULL header.  Each method builds its program on a fresh `CommandLink`, or
  makes its wrapper call, with the same statements as the C code.  Its
  contract states the exact request it submits (exactly once) and what it
  returns for each outcome.
- `SusBarebones` (`sus_barebones.dfy`) has the nine functions of the
  BAREBONES header.  Their bodies are the same text as the FULL ones, so
  each method states the same contract and calls the FULL method.

A C function declared `void` returns here what it reports in its log:
- the outcome code, for most of them;
- the addresses found, for the scan;
- which read-back message is printed, for `WriteToRegister_EX`;
- the bytes printed, for `WriteByteArrayToSlave_EZ`.

## Model

| member | source | states |
|---|---|---|
| I2cBus.AddrByte | SUS_I2Cmaster_FULL.h:242-251 | The address byte is `(addr*2) mod 256` plus the mode bit (write 0, read 1). Its low bit is the mode and its upper seven bits are `addr mod 128`. |
| I2cBus.AddrByteRoundTrip | SUS_I2Cmaster_FULL.h:242-251 | For a 7-bit address, a slave decodes the address byte back to the same address and direction. |
| I2cBus.AddrByteOnto | SUS_I2Cmaster_FULL.h:242-251 | Every byte is the address byte of exactly one 7-bit address and mode. This is the converse of the round trip. |
| I2cBus.AddrByteTruncates | SUS_I2Cmaster_FULL.h:248 | An address of 128 or more loses its top bit in the shift, so it selects the same slave as `addr - 128`. |
| I2cBus.ReadNeedsStart | SUS_I2Cmaster_FULL.h:246-253 | In any program that makes only legal steps from a released bus, every read slot comes after some START. |
| I2cBus.WellFormedShape | SUS_I2Cmaster_FULL.h:246-253 | Every well-formed program ends with STOP unless it is empty, every read slot in it follows a START, and every read the master NACKs is followed by START or STOP. |
| I2cBus.ReadEndsWithStartOrStop | SUS_I2Cmaster_FULL.h:252-253 | In any program that makes only legal steps, a read not followed by another read is followed by START or STOP, never by a written byte. |
| I2cBus.ReleasingRunNacksLast | SUS_I2Cmaster_FULL.h:252-253 | In any program that makes only legal steps and releases the bus, a read is ACKed exactly when another read follows it, so the last read of every run is NACKed. |
| I2cBus.CountReadsConcat | SUS_I2Cmaster_FULL.h:439-454 | The read slots of a concatenation are those of its parts, which is how the verifying write's one read-back slot is counted. |
| I2cBus.EndsReleasedEndsWithStop | SUS_I2Cmaster_FULL.h:652-656 | Only a STOP releases the bus, so any non-empty program that leaves the bus released ends with STOP. |
| Programs.ReadRegisterProgram | SUS_I2Cmaster_FULL.h:247-253 | The seven operations ReadRegister appends: START, address for writing, register, repeated START, address for reading, one read with NACK, STOP. Its properties are the `ReadRegisterProgram...` lemmas. |
| Programs.ReadByteFromSlaveProgram | SUS_I2Cmaster_FULL.h:319-322 | The four operations ReadByteFromSlave appends: START, address for reading, one read with NACK, STOP. |
| Programs.WriteToRegisterProgram | SUS_I2Cmaster_FULL.h:402-406 | The five operations WriteToRegister appends: START, address for writing, register, value, STOP. |
| Programs.WriteToRegisterExProgram | SUS_I2Cmaster_FULL.h:440-454 | The eleven operations WriteToRegister_EX appends: the register write without its STOP, a repeated START with the register again, then the register read's tail. |
| Programs.WriteByteToSlaveProgram | SUS_I2Cmaster_FULL.h:523-529 | The four operations WriteByteToSlave appends: START, address for writing, value, STOP. |
| Programs.WriteByteToBusRawProgram | SUS_I2Cmaster_FULL.h:612-614 | The three operations WriteByteToBusRaw appends: START, the caller's byte unencoded, STOP. |
| Programs.ResetBusProgram | SUS_I2Cmaster_FULL.h:654-656 | The three operations ResetBus appends: STOP, START, STOP. |
| Programs.Probe | SUS_I2Cmaster_FULL.h:169-175 | The presence probe of the scan and the ping: one `i2c_master_write_to_device` of the two bytes `{0,0}` to one address. |
| Programs.ReadRegisterProgramReleases | SUS_I2Cmaster_FULL.h:246-253 | The register-read program, started in any phase in which the master holds SDA, leaves the bus released. |
| Programs.ReadRegisterProgramWellFormed | SUS_I2Cmaster_FULL.h:246-253 | The register-read program is well-formed: the bus is released at the end, and its read is ended by NACK. |
| Programs.ReadRegisterProgramReads | SUS_I2Cmaster_FULL.h:252 | The register-read program has exactly one read slot, so the driver fills exactly one byte on ESP_OK. |
| Programs.ReadRegisterProgramAddresses | SUS_I2Cmaster_FULL.h:718 | For a 7-bit address, both address bytes of the register read name that address: the first for writing, the one after the repeated START for reading. |
| Programs.ReadByteFromSlaveProgramReleases | SUS_I2Cmaster_FULL.h:318-322 | The plain-read program, started in any phase in which the master holds SDA, leaves the bus released. |
| Programs.ReadByteFromSlaveProgramWellFormed | SUS_I2Cmaster_FULL.h:318-322 | The plain-read program is well-formed. |
| Programs.ReadByteFromSlaveProgramReads | SUS_I2Cmaster_FULL.h:321 | The plain-read program has exactly one read slot. |
| Programs.WriteToRegisterProgramReleases | SUS_I2Cmaster_FULL.h:401-406 | The register-write program, started in any phase in which the master holds SDA, leaves the bus released. |
| Programs.WriteToRegisterProgramWellFormed | main/SUS_esp32_I2Cmaster_library_BAREBONES.h:338-348 | The register-write program is well-formed and its address byte has R/W bit 0. |
| Programs.WriteToRegisterProgramReads | SUS_I2Cmaster_FULL.h:401-406 | The register-write program has no read slot. |
| Programs.WriteToRegisterExProgramShape | SUS_I2Cmaster_FULL.h:439-454 | The verifying write has 11 operations and no STOP before the last. It is the register write with its STOP replaced by the whole register-read program. |
| Programs.WriteToRegisterExProgramReleases | SUS_I2Cmaster_FULL.h:439-454 | The verifying-write program, started in any phase in which the master holds SDA, leaves the bus released. |
| Programs.WriteToRegisterExProgramWellFormed | SUS_I2Cmaster_FULL.h:439-454 | The verifying-write program is well-formed. |
| Programs.WriteToRegisterExProgramReads | SUS_I2Cmaster_FULL.h:439-454 | The verifying-write program has exactly one read slot, the read-back. |
| Programs.WriteByteToSlaveProgramReleases | SUS_I2Cmaster_FULL.h:522-529 | The plain-write program, started in any phase in which the master holds SDA, leaves the bus released. |
| Programs.WriteByteToSlaveProgramWellFormed | SUS_I2Cmaster_FULL.h:522-529 | The plain-write program is well-formed and its address byte has R/W bit 0. |
| Programs.WriteByteToSlaveProgramReads | SUS_I2Cmaster_FULL.h:522-529 | The plain-write program has no read slot. |
| Programs.WriteByteToBusRawProgramWellFormed | SUS_I2Cmaster_FULL.h:611-614 | The raw write is well-formed if and only if the unencoded byte it sends has R/W bit 0. With the bit set, the addressed slave holds SDA for a byte that is never read. |
| Programs.WriteByteToBusRawProgramReads | SUS_I2Cmaster_FULL.h:611-614 | The raw write has no read slot. |
| Programs.ResetBusReleasesFromAnyPhase | main/SUS_esp32_I2Cmaster_library_BAREBONES.h:435-441 | STOP, START, STOP leaves the bus released from any phase in which the master holds SDA, and it is well-formed. |
| Programs.ResetBusProgramReads | SUS_I2Cmaster_FULL.h:652-656 | The recovery program has no read slot. |
| IdfDriver.Driver.Submit | SUS_I2Cmaster_FULL.h:255 | One driver call adds exactly one exchange to the transcript, answered as the bus answers after the earlier history, and it keeps `Valid()`. |
| IdfDriver.DeviceAddress | SUS_I2Cmaster_FULL.h:495 | The `int` address the "_EZ" wrappers pass reaches the `uint8_t device_address` parameter modulo 256. Addresses 0 to 255 arrive unchanged. |
| IdfDriver.Driver.Begin | SUS_I2Cmaster_FULL.h:255 | Runs the link's program once, as one request. On ESP_OK the response holds one byte per read slot of the program, and never more than that. |
| IdfDriver.Driver.WriteToDevice | SUS_I2Cmaster_FULL.h:495 | One `i2c_master_write_to_device` call: exactly one exchange is added to the transcript, answered as the bus answers after the earlier history, and `Valid()` is kept. |
| IdfDriver.Driver.WriteReadDevice | SUS_I2Cmaster_FULL.h:286 | One `i2c_master_write_read_device` call, as one exchange. At most `readLen` bytes come back, and exactly `readLen` on ESP_OK. |
| IdfDriver.Driver.ReadFromDevice | SUS_I2Cmaster_FULL.h:356 | One `i2c_master_read_from_device` call, as one exchange. At most `readLen` bytes come back, and exactly `readLen` on ESP_OK. |
| IdfDriver.Received | SUS_I2Cmaster_FULL.h:239-252 | The value of a read slot after the call: the driver's byte for that slot when it stored one, and otherwise the variable's initial value (0xf1 in the library). |
| IdfDriver.CommandLink.constructor | SUS_I2Cmaster_FULL.h:246 | `i2c_cmd_link_create`: a fresh link that holds no operation. |
| IdfDriver.CommandLink.Start | SUS_I2Cmaster_FULL.h:247 | Appends START to the link and changes nothing else. |
| IdfDriver.CommandLink.WriteByte | SUS_I2Cmaster_FULL.h:248 | Appends one written byte, with its ACK check, to the link. |
| IdfDriver.CommandLink.ReadByte | SUS_I2Cmaster_FULL.h:252 | Appends one read slot, with its ACK/NACK, to the link. |
| IdfDriver.CommandLink.Stop | SUS_I2Cmaster_FULL.h:253 | Appends STOP to the link. |
| SusFull.ScanReport | SUS_I2Cmaster_FULL.h:176-179 | The addresses the scan logs as found: the positions of a sweep whose probe was answered with ESP_OK, in sweep order. Its properties are `ScanReportMembers` and `ScanReportSorted`. |
| SusFull.ScanReportMembers | SUS_I2Cmaster_FULL.h:172-184 | The report of a sweep names a position exactly when the probe at that position was answered with ESP_OK. |
| SusFull.ScanReportSorted | SUS_I2Cmaster_FULL.h:172-184 | The report of a sweep lists positions in strictly increasing order, each below the number of probes. |
| SusFull.ScanForDevices | SUS_I2Cmaster_FULL.h:165-186 | Makes exactly 127 probes, `{0,0}` to address 0, 1, ..., 126 in that order, so 127 is never probed. The report is `ScanReport` of those 127 exchanges. So an address is reported iff its probe returned ESP_OK, and the report is strictly increasing. |
| SusFull.PingAddress | SUS_I2Cmaster_FULL.h:193-212 | Sends the scan's probe once, to the given address, and reports its outcome. |
| SusFull.ReadRegister | SUS_I2Cmaster_FULL.h:236-270 | Submits the register-read program exactly once. On ESP_OK it returns the byte the driver read (never the initial 0xf1). On any other outcome it returns 0. |
| SusFull.ReadRegisterEz | SUS_I2Cmaster_FULL.h:278-298 | Makes one write-read call on port 0, whatever the port argument, writing `[reg]` and reading one byte. It returns that byte on ESP_OK and 0 otherwise. The device address is converted to `uint8_t` at the call. |
| SusFull.ReadByteFromSlave | SUS_I2Cmaster_FULL.h:308-339 | Submits the plain-read program exactly once. It returns the byte read on ESP_OK and 0 otherwise. |
| SusFull.ReadByteFromSlaveEz | SUS_I2Cmaster_FULL.h:349-368 | Makes one read-from-device call for one byte and reports only its outcome. The device address is converted to `uint8_t` at the call. |
| SusFull.WriteToRegister | SUS_I2Cmaster_FULL.h:393-419 | Submits the register-write program exactly once and reports its outcome. |
| SusFull.WriteToRegisterEx | SUS_I2Cmaster_FULL.h:428-478 | Submits the 11-operation program exactly once. On ESP_OK exactly one byte was read back: equal to the written value means "confirmed", unequal means "mismatch". On failure there is neither. |
| SusFull.WriteToRegisterEz | SUS_I2Cmaster_FULL.h:489-505 | Makes one write-to-device call with the two-byte buffer `[reg, value]`. The device address is converted to `uint8_t` at the call. |
| SusFull.WriteByteToSlave | SUS_I2Cmaster_FULL.h:515-542 | Submits the plain-write program exactly once and reports its outcome. |
| SusFull.WriteByteToSlaveEz | SUS_I2Cmaster_FULL.h:552-566 | Makes one write-to-device call with the one-byte buffer `[value]`. The device address is converted to `uint8_t` at the call. |
| SusFull.WriteByteArrayToSlaveEz | SUS_I2Cmaster_FULL.h:576-597 | Makes one write-to-device call with the first `amount` bytes of the array, unchanged. On ESP_OK it prints exactly those bytes in order, and otherwise none. The device address is converted to `uint8_t` at the call. |
| SusFull.WriteByteToBusRaw | SUS_I2Cmaster_FULL.h:606-626 | Submits START, the unencoded byte, STOP exactly once and reports its outcome. |
| SusFull.ResetBus | SUS_I2Cmaster_FULL.h:647-670 | Submits STOP, START, STOP exactly once, whatever the history, and reports its outcome. |
| SusBarebones.ScanForDevices | main/SUS_esp32_I2Cmaster_library_BAREBONES.h:146-167 | The same as the FULL scan, with the same `ScanReport`: probes 0..126 in order with `{0,0}`, and reports exactly the addresses that returned ESP_OK. |
| SusBarebones.PingAddress | main/SUS_esp32_I2Cmaster_library_BAREBONES.h:174-193 | Sends the scan's probe once and reports its outcome. |
| SusBarebones.ReadRegister | main/SUS_esp32_I2Cmaster_library_BAREBONES.h:217-251 | Submits the register-read program once. It returns the byte read on ESP_OK and 0 otherwise, never the initial 0xf1. |
| SusBarebones.ReadRegisterEz | main/SUS_esp32_I2Cmaster_library_BAREBONES.h:259-279 | Makes one write-read call on port 0 whatever the port argument. It returns the byte on ESP_OK and 0 otherwise. The device address is converted to `uint8_t` at the call. |
| SusBarebones.ReadByteFromSlaveEz | main/SUS_esp32_I2Cmaster_library_BAREBONES.h:289-308 | Makes one read-from-device call for one byte and reports only its outcome. The device address is converted to `uint8_t` at the call. |
| SusBarebones.WriteToRegister | main/SUS_esp32_I2Cmaster_library_BAREBONES.h:333-359 | Submits the register-write program once and reports its outcome. |
| SusBarebones.WriteToRegisterEz | main/SUS_esp32_I2Cmaster_library_BAREBONES.h:369-385 | Makes one write-to-device call with `[reg, value]`. The device address is converted to `uint8_t` at the call. |
| SusBarebones.WriteByteToSlaveEz | main/SUS_esp32_I2Cmaster_library_BAREBONES.h:395-409 | Makes one write-to-device call with `[value]`. The device address is converted to `uint8_t` at the call. |
| SusBarebones.ResetBus | main/SUS_esp32_I2Cmaster_library_BAREBONES.h:430-453 | Submits STOP, START, STOP once and reports its outcome. |

## Left out

- `SUS_I2C_Master_Init` (SUS_I2Cmaster_FULL.h:93-144, main/SUS_esp32_I2Cmaster_library_BAREBONES.h:74-125) is not modelled. It only fills the driver's configuration structure and installs the driver.
- What the ESP-IDF functions do on the wires is not modelled. This covers `i2c_master_cmd_begin`, `i2c_master_write_to_device`, `i2c_master_write_read_device` and `i2c_master_read_from_device`. They are the oracle `Driver.answer`. The one thing assumed of it is that it stores no more bytes than there are read slots, and all of them on ESP_OK.
- The model does not say which operations the "_EZ" wrappers put on the bus. Only the port, address, buffer and read length they pass are modelled.
- The timeouts (`10/portTICK_PERIOD_MS`, and `5/portTICK_PERIOD_MS` in ReadRegister_EZ and WriteByteToSlave_EZ) are not modelled, because the oracle cannot observe time.
- Log text and tags are not modelled. Only the fact each log line reports is kept: the outcome, the addresses found, the read-back verdict, and the bytes printed.
- `i2c_cmd_link_create` and `i2c_cmd_link_delete` are modelled only as the allocation of a fresh `CommandLink`. The model does not capture that the failure branches of ReadRegister and ReadByteFromSlave return before the delete (SUS_I2Cmaster_FULL.h:264, SUS_I2Cmaster_FULL.h:333, main/SUS_esp32_I2Cmaster_library_BAREBONES.h:245), which leaks the handle.
- Per-port locking, multi-master arbitration, clock stretching and electrical behaviour are not modelled. The code does none of them itself.
- There is no validation of addresses or programs, no typed error results and no retries, because the code has none.
  - An address above 127 is passed on and silently truncated; `I2cBus.AddrByteTruncates` states what then goes on the bus.
  - The programs are fixed. The lemmas in `Programs` prove each of them well-formed at verification time, except the raw write.
  - The raw write is well-formed only for bytes with R/W bit 0. A RAW byte with R/W bit 1 addresses a slave for reading, and that slave is left driving SDA when the program signals STOP (`Programs.WriteByteToBusRawProgramWellFormed`).
- Programs.ResetBusReleasesFromAnyPhase: it does not promise recovery from the phases in which a slave-transmitter holds SDA: right after it was addressed for reading, or after the master ACKed a byte it read. From there, the master cannot signal the first STOP. The same holds for every `...ProgramReleases` lemma.
- SusFull.ReadByteFromSlaveEz: the byte the driver reads is not returned, because the C function is `void` and neither logs nor returns it.
- SusBarebones: its methods delegate to the FULL methods instead of repeating their bodies, because the two headers hold the same text for these functions.
