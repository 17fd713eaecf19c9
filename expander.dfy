/** The MCP23008 GPIO expander driven over the polled I2C master (main.c:90-117),
    and the decision the control loop of main.c:157-160 makes on each poll.
    A transaction addresses the chip with its 7-bit address followed by the R/W bit
    (UM10204 section 3.1.10), then a register address from the MCP23008 register map. */
module Expander {
  import opened BusProtocol
  import opened BusMaster

  /** The MCP23008's 7-bit slave address with A2..A0 tied low: 0b0100000. */
  const Device: bv8 := 0x20
  /** The R/W bit: 0 = the master writes, 1 = the master reads. */
  const WriteBit: bv8 := 0
  const ReadBit: bv8 := 1

  /** MCP23008 registers used here. */
  const Iodir: Byte := 0x00   // I/O direction: 1 = input
  const Gpio: Byte := 0x09    // port value (the pins as read)
  const Olat: Byte := 0x0A    // output latch

  /** The first byte after a START or repeated START: the slave address in bits 7..1,
      the direction in bit 0. */
  function AddressByte(addr: bv8, rw: bv8): (b: Byte)
    requires addr < 0x80 && rw <= 1
    ensures b >> 1 == addr && b & 1 == rw
  {
    (addr << 1) | rw
  }

  /** An address byte says which slave it calls and in which direction, and nothing else. */
  lemma AddressByteInjective(a1: bv8, rw1: bv8, a2: bv8, rw2: bv8)
    requires a1 < 0x80 && rw1 <= 1 && a2 < 0x80 && rw2 <= 1
    ensures AddressByte(a1, rw1) == AddressByte(a2, rw2) <==> a1 == a2 && rw1 == rw2
  {
  }

  /** The two address bytes the firmware sends to the expander. */
  lemma ExpanderAddressBytes()
    ensures AddressByte(Device, WriteBit) == 0x40
    ensures AddressByte(Device, ReadBit) == 0x41
  {
  }

  /** The calls setExpander(pin, level) makes, in order. */
  function WriteOps(pin: Byte, level: Byte): seq<Op>
  {
    [MasterStart, MasterSend(AddressByte(Device, WriteBit)), MasterSend(pin), MasterSend(level), MasterStop]
  }

  /** The calls getExpander() makes, in order. */
  function ReadOps(): seq<Op>
  {
    [MasterStart, MasterSend(AddressByte(Device, WriteBit)), MasterSend(Gpio), MasterRestart,
     MasterSend(AddressByte(Device, ReadBit)), MasterRecv, MasterAck(1), MasterStop]
  }

  /** The calls initExp() makes on the bus after switching the module on. */
  function InitOps(): seq<Op>
  {
    WriteOps(Iodir, 0xF0) + WriteOps(Olat, 0x0F)
  }

  /** The bus events of a register write that every byte of which was acknowledged. */
  function WriteTrace(pin: Byte, level: Byte): seq<Event>
  {
    [Start, Send(0x40, true), Send(pin, true), Send(level, true), Stop]
  }

  /** The bus events of a register read up to the read-direction address byte. */
  function ReadPrelude(): seq<Event>
  {
    [Start, Send(0x40, true), Send(0x09, true), Restart, Send(0x41, true)]
  }

  /** The bus events of a register read that returned v, with every byte acknowledged. */
  function ReadTrace(v: Byte): seq<Event>
  {
    ReadPrelude() + [Recv(v), Ack(1), Stop]
  }

  /** The slave acknowledges all three bytes of setExpander(pin, level) started after history h. */
  predicate WriteAcked(s: Slave, h: seq<Event>, pin: Byte, level: Byte)
  {
    && !s.ackstat(h + [Start], 0x40)
    && !s.ackstat(h + [Start, Send(0x40, true)], pin)
    && !s.ackstat(h + [Start, Send(0x40, true), Send(pin, true)], level)
  }

  /** The slave acknowledges all three bytes of getExpander() started after history h. */
  predicate ReadAcked(s: Slave, h: seq<Event>)
  {
    && !s.ackstat(h + [Start], 0x40)
    && !s.ackstat(h + [Start, Send(0x40, true)], 0x09)
    && !s.ackstat(h + [Start, Send(0x40, true), Send(0x09, true), Restart], 0x41)
  }

  /** setExpander from a free bus when the expander acknowledges every byte. */
  lemma WriteCompletes(s: Slave, h: seq<Event>, pin: Byte, level: Byte)
    requires WriteAcked(s, h, pin, level)
    ensures Run(s, Config(Idle, h), WriteOps(pin, level)) == Some(Config(Idle, h + WriteTrace(pin, level)))
  {
    ExpanderAddressBytes();
    var c0 := Config(Idle, h);
    var c1 := Config(Address, h + [Start]);
    var c2 := Config(Write, c1.log + [Send(0x40, true)]);
    var c3 := Config(Write, c2.log + [Send(pin, true)]);
    var c4 := Config(Write, c3.log + [Send(level, true)]);
    var c5 := Config(Idle, c4.log + [Stop]);
    assert c1.log + [Send(0x40, true)] == h + [Start, Send(0x40, true)];
    assert c2.log + [Send(pin, true)] == h + [Start, Send(0x40, true), Send(pin, true)];
    RunSteps(s, WriteOps(pin, level), [c0, c1, c2, c3, c4, c5]);
    assert c5.log == h + WriteTrace(pin, level);
  }

  /** setExpander from a free bus when the expander refuses one of the bytes: the master hangs. */
  lemma WriteHangs(s: Slave, h: seq<Event>, pin: Byte, level: Byte)
    requires !WriteAcked(s, h, pin, level)
    ensures Run(s, Config(Idle, h), WriteOps(pin, level)).Some?
    ensures Run(s, Config(Idle, h), WriteOps(pin, level)).value.phase == Halted
  {
    ExpanderAddressBytes();
    var c0 := Config(Idle, h);
    var c1 := Config(Address, h + [Start]);
    if s.ackstat(c1.log, 0x40) {
      var hung := Config(Halted, c1.log + [Send(0x40, false)]);
      RunSteps(s, WriteOps(pin, level), [c0, c1, hung, hung, hung, hung]);
      return;
    }
    var c2 := Config(Write, c1.log + [Send(0x40, true)]);
    assert c2.log == h + [Start, Send(0x40, true)];
    if s.ackstat(c2.log, pin) {
      var hung := Config(Halted, c2.log + [Send(pin, false)]);
      RunSteps(s, WriteOps(pin, level), [c0, c1, c2, hung, hung, hung]);
      return;
    }
    var c3 := Config(Write, c2.log + [Send(pin, true)]);
    assert c3.log == h + [Start, Send(0x40, true), Send(pin, true)];
    var hung := Config(Halted, c3.log + [Send(level, false)]);
    RunSteps(s, WriteOps(pin, level), [c0, c1, c2, c3, hung, hung]);
  }

  /** When the expander refuses its address, the register address is never sent: the bus
      shows START and the refused address byte, and nothing after them. */
  lemma WriteAddressRefused(s: Slave, h: seq<Event>, pin: Byte, level: Byte)
    requires s.ackstat(h + [Start], 0x40)
    ensures Run(s, Config(Idle, h), WriteOps(pin, level)) == Some(Config(Halted, h + [Start, Send(0x40, false)]))
  {
    ExpanderAddressBytes();
    var c0 := Config(Idle, h);
    var c1 := Config(Address, h + [Start]);
    var hung := Config(Halted, c1.log + [Send(0x40, false)]);
    assert hung.log == h + [Start, Send(0x40, false)];
    RunSteps(s, WriteOps(pin, level), [c0, c1, hung, hung, hung, hung]);
  }

  /** setExpander from a free bus: the calls are in protocol order, the bus ends free or
      hung, it ends free exactly when the expander acknowledges every byte, and then the
      bus saw START, 0x40, the register address, the value, STOP -- no repeated START and
      no reception. */
  lemma WriteTransaction(s: Slave, h: seq<Event>, pin: Byte, level: Byte)
    ensures Run(s, Config(Idle, h), WriteOps(pin, level)).Some?
    ensures var c := Run(s, Config(Idle, h), WriteOps(pin, level)).value;
      && (c.phase == Idle || c.phase == Halted)
      && (c.phase == Idle <==> WriteAcked(s, h, pin, level))
      && (c.phase == Idle ==> c.log == h + WriteTrace(pin, level))
  {
    if WriteAcked(s, h, pin, level) {
      WriteCompletes(s, h, pin, level);
    } else {
      WriteHangs(s, h, pin, level);
    }
  }

  /** The addressing half of getExpander when the expander acknowledges every byte: the
      register pointer is set to GPIO and the chip is addressed again for reading. */
  lemma ReadAddresses(s: Slave, h: seq<Event>)
    requires ReadAcked(s, h)
    ensures Run(s, Config(Idle, h), ReadOps()[..5]) == Some(Config(Read, h + ReadPrelude()))
  {
    ExpanderAddressBytes();
    var c0 := Config(Idle, h);
    var c1 := Config(Address, h + [Start]);
    var c2 := Config(Write, c1.log + [Send(0x40, true)]);
    var c3 := Config(Write, c2.log + [Send(0x09, true)]);
    var c4 := Config(Address, c3.log + [Restart]);
    var c5 := Config(Read, c4.log + [Send(0x41, true)]);
    assert c2.log == h + [Start, Send(0x40, true)];
    assert c4.log == h + [Start, Send(0x40, true), Send(0x09, true), Restart];
    RunSteps(s, ReadOps()[..5], [c0, c1, c2, c3, c4, c5]);
    assert c5.log == h + ReadPrelude();
  }

  /** getExpander from a free bus when the expander acknowledges every byte. */
  lemma ReadCompletes(s: Slave, h: seq<Event>)
    requires ReadAcked(s, h)
    ensures Run(s, Config(Idle, h), ReadOps()) == Some(Config(Idle, h + ReadTrace(s.rcv(h + ReadPrelude()))))
  {
    ExpanderAddressBytes();
    var c0 := Config(Idle, h);
    var c1 := Config(Address, h + [Start]);
    var c2 := Config(Write, c1.log + [Send(0x40, true)]);
    var c3 := Config(Write, c2.log + [Send(0x09, true)]);
    var c4 := Config(Address, c3.log + [Restart]);
    var c5 := Config(Read, c4.log + [Send(0x41, true)]);
    assert c2.log == h + [Start, Send(0x40, true)];
    assert c4.log == h + [Start, Send(0x40, true), Send(0x09, true), Restart];
    assert c5.log == h + ReadPrelude();
    var v := s.rcv(c5.log);
    var c6 := Config(AckDue, c5.log + [Recv(v)]);
    var c7 := Config(ReadDone, c6.log + [Ack(1)]);
    var c8 := Config(Idle, c7.log + [Stop]);
    RunSteps(s, ReadOps(), [c0, c1, c2, c3, c4, c5, c6, c7, c8]);
    assert c8.log == h + ReadTrace(v);
  }

  /** getExpander from a free bus when the expander refuses one of the bytes: the master hangs. */
  lemma ReadHangs(s: Slave, h: seq<Event>)
    requires !ReadAcked(s, h)
    ensures Run(s, Config(Idle, h), ReadOps()).Some?
    ensures Run(s, Config(Idle, h), ReadOps()).value.phase == Halted
  {
    ExpanderAddressBytes();
    var c0 := Config(Idle, h);
    var c1 := Config(Address, h + [Start]);
    if s.ackstat(c1.log, 0x40) {
      var hung := Config(Halted, c1.log + [Send(0x40, false)]);
      RunSteps(s, ReadOps(), [c0, c1, hung, hung, hung, hung, hung, hung, hung]);
      return;
    }
    var c2 := Config(Write, c1.log + [Send(0x40, true)]);
    assert c2.log == h + [Start, Send(0x40, true)];
    if s.ackstat(c2.log, 0x09) {
      var hung := Config(Halted, c2.log + [Send(0x09, false)]);
      RunSteps(s, ReadOps(), [c0, c1, c2, hung, hung, hung, hung, hung, hung]);
      return;
    }
    var c3 := Config(Write, c2.log + [Send(0x09, true)]);
    var c4 := Config(Address, c3.log + [Restart]);
    assert c4.log == h + [Start, Send(0x40, true), Send(0x09, true), Restart];
    var hung := Config(Halted, c4.log + [Send(0x41, false)]);
    RunSteps(s, ReadOps(), [c0, c1, c2, c3, c4, hung, hung, hung, hung]);
  }

  /** getExpander from a free bus: the calls are in protocol order, the bus ends free or
      hung, it ends free exactly when the expander acknowledges every byte, and then the bus
      saw START, 0x40, 0x09, repeated START, 0x41, one received byte, NACK, STOP. */
  lemma ReadTransaction(s: Slave, h: seq<Event>)
    ensures Run(s, Config(Idle, h), ReadOps()).Some?
    ensures var c := Run(s, Config(Idle, h), ReadOps()).value;
      && (c.phase == Idle || c.phase == Halted)
      && (c.phase == Idle <==> ReadAcked(s, h))
      && (c.phase == Idle ==> c.log == h + ReadTrace(s.rcv(h + ReadPrelude())))
  {
    if ReadAcked(s, h) {
      ReadCompletes(s, h);
    } else {
      ReadHangs(s, h);
    }
  }

  /** initExp: two register writes in order -- IODIR := 0xF0 (GP7..GP4 inputs, GP3..GP0
      outputs), then OLAT := 0x0F -- the second issued only if the first completed. */
  lemma InitSequence(s: Slave, h: seq<Event>)
    ensures Run(s, Config(Idle, h), InitOps()).Some?
    ensures var c := Run(s, Config(Idle, h), InitOps()).value;
      && (c.phase == Idle || c.phase == Halted)
      && (c.phase == Idle <==>
            WriteAcked(s, h, Iodir, 0xF0) && WriteAcked(s, h + WriteTrace(Iodir, 0xF0), Olat, 0x0F))
      && (c.phase == Idle ==> c.log == h + WriteTrace(Iodir, 0xF0) + WriteTrace(Olat, 0x0F))
  {
    var c0 := Config(Idle, h);
    RunAppend(s, c0, WriteOps(Iodir, 0xF0), WriteOps(Olat, 0x0F));
    WriteTransaction(s, h, Iodir, 0xF0);
    var c1 := Run(s, c0, WriteOps(Iodir, 0xF0)).value;
    if c1.phase == Halted {
      RunFromHalted(s, c1, WriteOps(Olat, 0x0F));
    } else {
      WriteTransaction(s, c1.log, Olat, 0x0F);
      assert h + WriteTrace(Iodir, 0xF0) + WriteTrace(Olat, 0x0F) == c1.log + WriteTrace(Olat, 0x0F);
    }
  }

  /** The byte written to OLAT for a GPIO sample (main.c:157-160): GP7 high (button
      released) drives GP0 low, which lights the LED; GP7 low (button pressed) drives GP0 high. */
  function LedLevel(sample: Byte): (level: Byte)
    ensures level == 0x00 <==> sample & 0x80 != 0
    ensures level == 0x00 || level == 0x01
  {
    if sample >> 7 == 1 then 0x00 else 0x01
  }

  /** One poll of the control loop from a free bus: exactly one register read, then exactly
      one register write of OLAT with the byte LedLevel chooses for the value read; the bus
      ends free exactly when the expander acknowledges every byte of both. */
  lemma PollSequence(s: Slave, h: seq<Event>)
    ensures var v := s.rcv(h + ReadPrelude());
      var r := Run(s, Config(Idle, h), ReadOps() + WriteOps(Olat, LedLevel(v)));
      && r.Some?
      && (r.value.phase == Idle || r.value.phase == Halted)
      && (r.value.phase == Idle <==> ReadAcked(s, h) && WriteAcked(s, h + ReadTrace(v), Olat, LedLevel(v)))
      && (r.value.phase == Idle ==> r.value.log == h + ReadTrace(v) + WriteTrace(Olat, LedLevel(v)))
  {
    var v := s.rcv(h + ReadPrelude());
    var c0 := Config(Idle, h);
    RunAppend(s, c0, ReadOps(), WriteOps(Olat, LedLevel(v)));
    ReadTransaction(s, h);
    var c1 := Run(s, c0, ReadOps()).value;
    if c1.phase == Halted {
      RunFromHalted(s, c1, WriteOps(Olat, LedLevel(v)));
    } else {
      WriteTransaction(s, c1.log, Olat, LedLevel(v));
      assert h + ReadTrace(v) + WriteTrace(Olat, LedLevel(v)) == c1.log + WriteTrace(Olat, LedLevel(v));
    }
  }

  /** setExpander(pin, level): write level into expander register pin. */
  method SetExpander(bus: Bus, pin: Byte, level: Byte)
    requires bus.on && bus.Valid() && (bus.phase == Idle || bus.phase == Halted)
    modifies bus`phase, bus`log
    ensures bus.Valid() && (bus.phase == Idle || bus.phase == Halted)
    ensures Run(bus.slave, old(Config(bus.phase, bus.log)), WriteOps(pin, level)) == Some(Config(bus.phase, bus.log))
    ensures old(bus.phase) == Idle && bus.phase == Idle ==> bus.log == old(bus.log) + WriteTrace(pin, level)
    ensures old(bus.phase) == Halted ==> bus.phase == Halted && bus.log == old(bus.log)
  {
    ghost var s := bus.slave;
    ghost var c0 := Config(bus.phase, bus.log);
    bus.Start();
    ghost var c1 := Config(bus.phase, bus.log);
    bus.Send(AddressByte(Device, WriteBit));
    ghost var c2 := Config(bus.phase, bus.log);
    bus.Send(pin);
    ghost var c3 := Config(bus.phase, bus.log);
    bus.Send(level);
    ghost var c4 := Config(bus.phase, bus.log);
    bus.Stop();
    ghost var c5 := Config(bus.phase, bus.log);
    RunSteps(s, WriteOps(pin, level), [c0, c1, c2, c3, c4, c5]);
    RunKeepsTrack(s, c0, WriteOps(pin, level));
    if c0.phase == Idle {
      WriteTransaction(s, c0.log, pin, level);
    } else {
      RunFromHalted(s, c0, WriteOps(pin, level));
    }
  }

  /** What the eight calls of getExpander leave behind, given the configuration after the
      read address (c5) and the byte the reception returned. */
  lemma ReadResult(s: Slave, c0: Config, c5: Config, c8: Config, r: Byte)
    requires Track(Idle, c0.log) == Some(c0.phase) && (c0.phase == Idle || c0.phase == Halted)
    requires Run(s, c0, ReadOps()[..5]) == Some(c5)
    requires Run(s, c0, ReadOps()) == Some(c8)
    requires c5.phase != Halted ==> r == s.rcv(c5.log)
    ensures Track(Idle, c8.log) == Some(c8.phase) && (c8.phase == Idle || c8.phase == Halted)
    ensures c0.phase == Idle && c8.phase == Idle ==> c8.log == c0.log + ReadTrace(r)
    ensures c0.phase == Halted ==> c8 == c0
  {
    RunKeepsTrack(s, c0, ReadOps());
    if c0.phase == Idle {
      ReadTransaction(s, c0.log);
      if c8.phase == Idle {
        ReadAddresses(s, c0.log);
      }
    } else {
      RunFromHalted(s, c0, ReadOps());
    }
  }

  /** The eight calls of getExpander, one step each, make up its reference run. */
  lemma ReadCalls(s: Slave, c0: Config, c1: Config, c2: Config, c3: Config, c4: Config,
                  c5: Config, c6: Config, c7: Config, c8: Config, r: Byte)
    requires Track(Idle, c0.log) == Some(c0.phase) && (c0.phase == Idle || c0.phase == Halted)
    requires Step(s, c0, MasterStart) == Some(c1)
    requires Step(s, c1, MasterSend(AddressByte(Device, WriteBit))) == Some(c2)
    requires Step(s, c2, MasterSend(Gpio)) == Some(c3)
    requires Step(s, c3, MasterRestart) == Some(c4)
    requires Step(s, c4, MasterSend(AddressByte(Device, ReadBit))) == Some(c5)
    requires Step(s, c5, MasterRecv) == Some(c6)
    requires Step(s, c6, MasterAck(1)) == Some(c7)
    requires Step(s, c7, MasterStop) == Some(c8)
    requires c5.phase != Halted ==> r == s.rcv(c5.log)
    ensures Run(s, c0, ReadOps()) == Some(c8)
    ensures Track(Idle, c8.log) == Some(c8.phase) && (c8.phase == Idle || c8.phase == Halted)
    ensures c0.phase == Idle && c8.phase == Idle ==> c8.log == c0.log + ReadTrace(r)
    ensures c0.phase == Halted ==> c8 == c0
  {
    RunSteps(s, ReadOps(), [c0, c1, c2, c3, c4, c5, c6, c7, c8]);
    RunSteps(s, ReadOps()[..5], [c0, c1, c2, c3, c4, c5]);
    ReadResult(s, c0, c5, c8, r);
  }

  /** getExpander(): read the expander's GPIO register; r is the byte the reception returned. */
  method GetExpander(bus: Bus) returns (r: Byte)
    requires bus.on && bus.Valid() && (bus.phase == Idle || bus.phase == Halted)
    modifies bus`ackdt, bus`phase, bus`log
    ensures bus.Valid() && (bus.phase == Idle || bus.phase == Halted)
    ensures Run(bus.slave, old(Config(bus.phase, bus.log)), ReadOps()) == Some(Config(bus.phase, bus.log))
    ensures old(bus.phase) == Idle && bus.phase == Idle ==> bus.log == old(bus.log) + ReadTrace(r)
    ensures old(bus.phase) == Idle && bus.phase == Idle ==> bus.ackdt == 1
    ensures bus.ackdt == old(bus.ackdt) || bus.ackdt == 1
    ensures old(bus.phase) == Halted ==> bus.phase == Halted && bus.log == old(bus.log)
  {
    ghost var s := bus.slave;
    ghost var c0 := Config(bus.phase, bus.log);
    bus.Start();
    ghost var c1 := Config(bus.phase, bus.log);
    bus.Send(AddressByte(Device, WriteBit));
    ghost var c2 := Config(bus.phase, bus.log);
    bus.Send(Gpio);
    ghost var c3 := Config(bus.phase, bus.log);
    bus.Restart();
    ghost var c4 := Config(bus.phase, bus.log);
    bus.Send(AddressByte(Device, ReadBit));
    ghost var c5 := Config(bus.phase, bus.log);
    r := bus.Recv();
    ghost var c6 := Config(bus.phase, bus.log);
    bus.Ack(1);
    ghost var c7 := Config(bus.phase, bus.log);
    bus.Stop();
    ghost var c8 := Config(bus.phase, bus.log);
    ReadCalls(s, c0, c1, c2, c3, c4, c5, c6, c7, c8, r);
  }

  /** initExp(): switch the I2C module on, make GP7..GP4 inputs and GP3..GP0 outputs, then
      set the output latch to 0x0F. */
  method InitExp(bus: Bus)
    requires bus.Valid() && (bus.phase == Idle || bus.phase == Halted)
    modifies bus`on, bus`phase, bus`log
    ensures bus.on && bus.Valid() && (bus.phase == Idle || bus.phase == Halted)
    ensures Run(bus.slave, old(Config(bus.phase, bus.log)), InitOps()) == Some(Config(bus.phase, bus.log))
    ensures old(bus.phase) == Idle && bus.phase == Idle ==>
      bus.log == old(bus.log) + WriteTrace(Iodir, 0xF0) + WriteTrace(Olat, 0x0F)
  {
    ghost var c0 := Config(bus.phase, bus.log);
    bus.Setup();
    SetExpander(bus, Iodir, 0xF0);
    ghost var c1 := Config(bus.phase, bus.log);
    SetExpander(bus, Olat, 0x0F);
    RunAppend(bus.slave, c0, WriteOps(Iodir, 0xF0), WriteOps(Olat, 0x0F));
  }

  /** The body of main's endless loop after the LED blink (main.c:157-160): read GPIO, then
      write OLAT with the byte chosen by bit 7 of what was read.  Returns the sample. */
  method PollButton(bus: Bus) returns (sample: Byte)
    requires bus.on && bus.Valid() && (bus.phase == Idle || bus.phase == Halted)
    modifies bus`ackdt, bus`phase, bus`log
    ensures bus.Valid() && (bus.phase == Idle || bus.phase == Halted)
    ensures Run(bus.slave, old(Config(bus.phase, bus.log)), ReadOps() + WriteOps(Olat, LedLevel(sample)))
            == Some(Config(bus.phase, bus.log))
    ensures old(bus.phase) == Idle && bus.phase == Idle ==>
      bus.log == old(bus.log) + ReadTrace(sample) + WriteTrace(Olat, LedLevel(sample))
    ensures old(bus.phase) == Idle && bus.phase == Idle ==> bus.ackdt == 1
    ensures bus.ackdt == old(bus.ackdt) || bus.ackdt == 1
  {
    ghost var c0 := Config(bus.phase, bus.log);
    sample := GetExpander(bus);
    if sample >> 7 == 1 {
      SetExpander(bus, Olat, 0x00);
    } else {
      SetExpander(bus, Olat, 0x01);
    }
    RunAppend(bus.slave, c0, ReadOps(), WriteOps(Olat, LedLevel(sample)));
  }
}
