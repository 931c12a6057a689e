/** The ESP-IDF I2C master driver as the library sees it: a command link
    that programs are appended to, and the driver itself as an oracle that
    answers each request with an outcome code and the bytes it read.  What
    the driver does on the wires is not modelled; only what goes in and what
    comes out.  */
module IdfDriver {
  import opened I2cBus

  /** `esp_err_t`; ESP_OK is 0, every other value is an error code. */
  type EspErr = int

  const ESP_OK: EspErr := 0

  /** An `i2c_cmd_handle_t`: the list of operations that
      `i2c_master_start`, `i2c_master_write_byte`, `i2c_master_read_byte`
      and `i2c_master_stop` append to.  The handle does no checking of its
      own; it runs only when passed to `i2c_master_cmd_begin`.  */
  class CommandLink {
    var ops: seq<Op>

    /** `i2c_cmd_link_create`. */
    constructor ()
      ensures ops == []
    {
      ops := [];
    }

    method Start()
      modifies this
      ensures ops == old(ops) + [Op.Start]
    {
      ops := ops + [Op.Start];
    }

    method Stop()
      modifies this
      ensures ops == old(ops) + [Op.Stop]
    {
      ops := ops + [Op.Stop];
    }

    method WriteByte(value: Byte, checkAck: bool)
      modifies this
      ensures ops == old(ops) + [Op.WriteByte(value, checkAck)]
    {
      ops := ops + [Op.WriteByte(value, checkAck)];
    }

    /** Registers a slot (the `uint8_t *` argument) that the driver fills
        when the program runs. */
    method ReadByte(ack: AckPolicy)
      modifies this
      ensures ops == old(ops) + [Op.ReadByte(ack)]
    {
      ops := ops + [Op.ReadByte(ack)];
    }
  }

  /** The `uint8_t device_address` parameter of the ESP-IDF convenience
      wrappers: C converts the library's `int` address modulo 256 at the
      call.  */
  function DeviceAddress(addr: int): (b: Byte)
    ensures 0 <= addr < 256 ==> b == addr
    ensures (addr - b) % 256 == 0
  {
    addr % 256
  }

  /** The four driver entry points the library calls.  The port is passed
      through as the library passes it, the device address as the wrappers'
      `uint8_t` parameter receives it.  */
  datatype Request =
    | CmdBegin(port: int, program: seq<Op>)                                // i2c_master_cmd_begin
    | WriteToDevice(port: int, addr: Byte, data: seq<Byte>)                 // i2c_master_write_to_device
    | WriteReadDevice(port: int, addr: Byte, data: seq<Byte>, readLen: nat) // i2c_master_write_read_device
    | ReadFromDevice(port: int, addr: Byte, readLen: nat)                   // i2c_master_read_from_device

  /** The number of bytes a request asks the driver to read. */
  function ReadSlots(q: Request): nat
  {
    match q
    case CmdBegin(_, program) => CountReads(program)
    case WriteToDevice(_, _, _) => 0
    case WriteReadDevice(_, _, _, n) => n
    case ReadFromDevice(_, _, n) => n
  }

  /** An outcome code and the bytes the driver stored, in slot order. */
  datatype Response = Response(outcome: EspErr, received: seq<Byte>)

  /** The driver's own promise about read buffers: it never stores more
      bytes than were asked for, and on ESP_OK it has stored all of them.  */
  predicate Delivers(q: Request, r: Response)
  {
    |r.received| <= ReadSlots(q) && (r.outcome == ESP_OK ==> |r.received| == ReadSlots(q))
  }

  datatype Exchange = Exchange(req: Request, resp: Response)

  /** The driver and everything on the bus behind it.  `answer` says how
      the slaves respond to a request given every earlier exchange, so
      devices may appear, disappear or change their registers over time;
      `log` records every request, in order, with the response it got.  */
  class Driver {
    const answer: (seq<Exchange>, Request) -> Response
    var log: seq<Exchange>

    ghost predicate Valid()
      reads this
    {
      && (forall h, q :: Delivers(q, answer(h, q)))
      && (forall k :: 0 <= k < |log| ==> log[k].resp == answer(log[..k], log[k].req))
    }

    constructor (answer: (seq<Exchange>, Request) -> Response)
      requires forall h, q :: Delivers(q, answer(h, q))
      ensures Valid() && this.answer == answer && log == []
    {
      this.answer := answer;
      log := [];
    }

    /** The response to the most recent request. */
    ghost function Last(): Response
      reads this
      requires log != []
    {
      log[|log| - 1].resp
    }

    /** Since `before`, exactly one request was made, namely `q`, and it
        was answered as the bus answers it after `before`.  */
    ghost predicate SubmittedOnce(before: seq<Exchange>, q: Request)
      reads this
    {
      log == before + [Exchange(q, answer(before, q))]
    }

    /** One call into the driver. */
    method Submit(q: Request) returns (resp: Response)
      requires Valid()
      modifies this
      ensures Valid()
      ensures SubmittedOnce(old(log), q) && resp == Last()
      ensures Delivers(q, resp)
    {
      resp := answer(log, q);
      log := log + [Exchange(q, resp)];
      assert forall k :: 0 <= k < |old(log)| ==> log[..k] == old(log)[..k];
    }

    /** `i2c_master_cmd_begin(port, link, ...)`: runs the link's program
        once.  `slots` is the number of read slots the program holds.  */
    method Begin(port: int, link: CommandLink, ghost slots: nat) returns (resp: Response)
      requires Valid()
      requires CountReads(link.ops) == slots
      modifies this
      ensures Valid()
      ensures SubmittedOnce(old(log), CmdBegin(port, link.ops)) && resp == Last()
      ensures |resp.received| <= slots && (resp.outcome == ESP_OK ==> |resp.received| == slots)
    {
      resp := Submit(CmdBegin(port, link.ops));
    }

    /** `i2c_master_write_to_device(port, addr, data, len, ...)`. */
    method WriteToDevice(port: int, addr: Byte, data: seq<Byte>) returns (resp: Response)
      requires Valid()
      modifies this
      ensures Valid()
      ensures SubmittedOnce(old(log), Request.WriteToDevice(port, addr, data)) && resp == Last()
    {
      resp := Submit(Request.WriteToDevice(port, addr, data));
    }

    /** `i2c_master_write_read_device(port, addr, data, len, &slots, readLen, ...)`. */
    method WriteReadDevice(port: int, addr: Byte, data: seq<Byte>, readLen: nat) returns (resp: Response)
      requires Valid()
      modifies this
      ensures Valid()
      ensures SubmittedOnce(old(log), Request.WriteReadDevice(port, addr, data, readLen)) && resp == Last()
      ensures |resp.received| <= readLen && (resp.outcome == ESP_OK ==> |resp.received| == readLen)
    {
      resp := Submit(Request.WriteReadDevice(port, addr, data, readLen));
    }

    /** `i2c_master_read_from_device(port, addr, &slots, readLen, ...)`. */
    method ReadFromDevice(port: int, addr: Byte, readLen: nat) returns (resp: Response)
      requires Valid()
      modifies this
      ensures Valid()
      ensures SubmittedOnce(old(log), Request.ReadFromDevice(port, addr, readLen)) && resp == Last()
      ensures |resp.received| <= readLen && (resp.outcome == ESP_OK ==> |resp.received| == readLen)
    {
      resp := Submit(Request.ReadFromDevice(port, addr, readLen));
    }
  }

  /** The byte left in a read slot: the driver's k-th stored byte, or the
      variable's earlier contents when the driver did not store one.  */
  function Received(resp: Response, k: nat, initial: Byte): Byte
  {
    if k < |resp.received| then resp.received[k] else initial
  }
}
