# Polled I2C master and MCP23008 expander

This project models the bus core of a PIC32 firmware (main.c). The firmware drives
an MCP23008 8-bit GPIO expander over the I2C2 peripheral. The I2C master is polled:
each primitive sets a trigger bit or writes the transmit register, then spins until
the hardware reports completion. On top of the primitives sit three expander routines:

- `setExpander`: a register write.
- `getExpander`: a register read. It writes the register address, sends a repeated
  START, reads one byte, answers NACK and sends STOP.
- `initExp`: GP7..GP4 become inputs, then the output latch is set.

Each pass of the main loop reads GPIO and writes OLAT. The value written depends on
bit 7 of what was read.

The model has three modules:

- `BusProtocol` (bus_protocol.dfy): the events that appear on the wire and an
  automaton, `Next`/`Track`, for the order the I2C-bus specification (NXP UM10204,
  section 3.1) allows them in, except that after a byte that is not acknowledged this
  firmware hangs (main.c:67), so `Halted` admits nothing where UM10204 (section 3.1.6)
  would allow STOP or a repeated START. It also holds the lemmas about every allowed run:
  - START/STOP balance;
  - a repeated START, and every byte transfer, only inside a transaction;
  - a byte is received only after a read-direction address byte, and a data byte is
    sent only after a write-direction address byte;
  - the address phase is entered only right after START or a repeated START;
  - acknowledge polarity;
  - a byte that is not acknowledged is the last event.
- `BusMaster` (bus_master.dfy): the six primitives.
  - The class `Bus` holds the peripheral state: the ON bit, the ACKDT bit, the
    protocol phase and the log of events on the bus.
  - Each method is specified by one step of the reference semantics `Step`. `Run`
    is that semantics applied to a sequence of calls.
  - The slave side is an oracle `Slave` that may depend on the whole bus history.
    It supplies ACKSTAT after a transmission and I2C2RCV after a reception.
- `Expander` (expander.dfy): the address byte, the exact call sequences and bus
  traces of the expander routines, and the poll decision.

When the slave does not acknowledge a byte, `i2c_master_send` spins in `while(1){}`.
The model represents this with the phase `Halted`. Once halted, nothing more happens
on the bus, and every later call is a no-op because in the firmware it never runs.

A missing acknowledge is not reported to the caller: `i2c_master_send` hangs in
`while(1){}` (main.c:67), and the model has no error result for it.
`i2c_master_setup` writes the constant 53 to I2C2BRG (main.c:48).

## Model

| member | source | states |
|---|---|---|
| BusProtocol.HaltedAdmitsNothing | main.c:67 | after the hang on a missing acknowledge, no bus event of any kind is allowed |
| BusProtocol.StartStopBalance | main.c:54-88 | in every allowed run from a free bus, STARTs = STOPs, plus one while a transaction is open: every START is matched by exactly one STOP |
| BusProtocol.RestartInsideTransaction | main.c:59-62 | a repeated START only ever occurs inside an open transaction (one more START than STOP before it) |
| BusProtocol.TransferInsideTransaction | main.c:64-83 | a byte is sent, received or acknowledged only inside an open transaction (one more START than STOP before it) |
| BusProtocol.ReadFollowsReadAddress | main.c:64-76 | the bus is in a reading phase only after an acknowledged address byte with direction bit 1, sent in the address phase, with no START or repeated START since |
| BusProtocol.RecvAfterReadAddress | main.c:72-76 | every received byte is preceded by an acknowledged read-direction address byte with no START or repeated START in between |
| BusProtocol.WriteFollowsWriteAddress | main.c:64-70 | the bus is in the writing phase only after an acknowledged address byte with direction bit 0, sent in the address phase, with no START or repeated START since |
| BusProtocol.DataAfterWriteAddress | main.c:64-70 | every byte sent outside the address phase is preceded by an acknowledged write-direction address byte with no START or repeated START in between |
| BusProtocol.AddressAfterStartOrRestart | main.c:54-62 | the address phase is reached only by the event right before it being a START or a repeated START |
| BusProtocol.AckPolarity | main.c:78-83 | after ACK (ACKDT = 0) the next event is another received byte; after NACK (ACKDT = 1) only STOP or a repeated START can follow |
| BusProtocol.HaltIsFinal | main.c:64-70 | an unacknowledged byte is the last event of any allowed run, and a run that ends halted ends with one |
| BusMaster.EnabledIffAllowed | main.c:7 | a primitive's calling-order precondition holds if and only if the event it puts on the bus is allowed by the protocol automaton, whatever the slave answers |
| BusMaster.StepKeepsTrack | main.c:54-88 | an enabled primitive always completes a step and keeps the phase equal to the protocol automaton's phase over the log |
| BusMaster.RunKeepsTrack | main.c:54-88 | any run of enabled calls keeps the phase in step with the log |
| BusMaster.RunLogGrows | main.c:54-88 | a run only appends to the log, at most one event per call; a run that emits fewer events than calls has hung, and its last event is a byte the slave did not acknowledge |
| BusMaster.RunEventAt | main.c:54-88 | the i-th event a run emits is exactly what the i-th call produces from the slave's answers to the history before it |
| BusMaster.RunFromHalted | main.c:67 | once hung, no sequence of calls changes the bus or the log |
| BusMaster.LowBitIsParity | main.c:80 | the bit the one-bit ACKDT field keeps from an int is the value's remainder modulo 2, negative values included; it is 0 exactly for even values |
| BusMaster.Bus.Setup | main.c:47-51 | the I2C module is switched on |
| BusMaster.Bus.Start | main.c:54-57 | on a free bus: a START is put on the bus and the next byte is an address |
| BusMaster.Bus.Restart | main.c:59-62 | inside a transaction: a repeated START is put on the bus and the next byte is an address |
| BusMaster.Bus.Send | main.c:64-70 | the byte goes on the bus with the slave's ACKSTAT; not acknowledged means hang; an acknowledged address byte with bit 0 = 1 turns the transfer to reading, anything else keeps writing |
| BusMaster.Bus.Recv | main.c:72-76 | returns the byte the slave drives; an acknowledge is then due |
| BusMaster.Bus.Ack | main.c:78-83 | ACKDT takes the low bit of val and that bit goes on the bus; ACK means the slave owes another byte, NACK means only STOP or a repeated START may follow |
| BusMaster.Bus.Stop | main.c:85-88 | a STOP is put on the bus and the bus is free again |
| Expander.AddressByte | main.c:92 | the address byte holds the 7-bit slave address in bits 7..1 and the direction in bit 0 |
| Expander.AddressByteInjective | main.c:100-103 | two address bytes are equal exactly when they name the same slave in the same direction |
| Expander.ExpanderAddressBytes | main.c:100-103 | the expander is addressed as 0x40 for writing and 0x41 for reading |
| Expander.WriteCompletes | main.c:90-97 | when every byte is acknowledged, setExpander leaves the bus free after exactly START, 0x40, pin, level, STOP |
| Expander.WriteHangs | main.c:90-97 | when any byte of setExpander is refused, the master hangs |
| Expander.WriteAddressRefused | main.c:90-93 | when the expander refuses its address, the register address is never sent: the bus shows START and the refused 0x40 only |
| Expander.WriteTransaction | main.c:90-97 | setExpander from a free bus is always in protocol order and ends free or hung; it ends free exactly when all three bytes are acknowledged, and then with the exact write trace |
| Expander.SetExpander | main.c:90-97 | the method makes the five calls of setExpander: the bus state afterwards is that run, it stays valid, the trace is the exact write trace when the bus ends free, and nothing happens if it was already hung |
| Expander.ReadAddresses | main.c:98-103 | with every byte acknowledged, getExpander reaches the read phase after START, 0x40, 0x09, repeated START, 0x41 |
| Expander.ReadCompletes | main.c:98-108 | with every byte acknowledged, getExpander leaves the bus free after the exact read trace, with the byte the slave drove |
| Expander.ReadHangs | main.c:98-108 | when any byte of getExpander is refused, the master hangs |
| Expander.ReadTransaction | main.c:98-108 | getExpander from a free bus is always in protocol order and ends free or hung; it ends free exactly when all three bytes are acknowledged, and then with START, 0x40, 0x09, repeated START, 0x41, one received byte, NACK, STOP |
| Expander.GetExpander | main.c:98-108 | the method makes the eight calls of getExpander: the bus state afterwards is that run, it stays valid, and when the bus ends free the log gains the exact read trace of the returned byte and ACKDT holds 1 (the NACK); ACKDT is otherwise unchanged or 1 |
| Expander.InitSequence | main.c:113-115 | initExp writes IODIR := 0xF0 and then OLAT := 0x0F, the second only if the first completed; the bus ends free exactly when all six bytes are acknowledged, and then with both write traces in order |
| Expander.InitExp | main.c:109-117 | the method switches the module on and performs the two writes in order, leaving the state the reference run gives |
| Expander.LedLevel | main.c:157-160 | OLAT is written 0x00 exactly when bit 7 of the GPIO sample is set, and 0x01 otherwise |
| Expander.PollSequence | main.c:157-160 | one poll from a free bus is exactly one GPIO read followed by one OLAT write of the value LedLevel chooses for the byte read; it ends free exactly when both are acknowledged |
| Expander.PollButton | main.c:157-160 | the method reads GPIO and writes OLAT with LedLevel of the sample; the bus state is that run and the log gains the read trace followed by the write trace; ACKDT ends at 1 after a completed poll and is otherwise unchanged or 1 |

## Left out

- Configuration fuses, clock and cache setup, interrupt control and the JTAG disable (main.c:12-44, 122-134, 143): these involve no bus protocol.
- The TRIS/LAT pin setup (main.c:137-139) and the ANSEL writes in initExp (main.c:110-111): these are pin configuration outside the bus.
- The LED blink on the core timer (main.c:147-155): this is timing only. Each pass of main's endless loop is modelled as one `PollButton`; the loop itself is not modelled.
- BusMaster.Bus.Setup: I2C2BRG = 53 and its formula are not modelled because the bus rate does not affect the protocol. Setup only sets ON.
- The busy-waits on SEN, RSEN, TRSTAT, RBF, ACKEN and PEN each become one completion step. The model assumes every wait ends. A hardware flag that never clears, and so a timeout, is not modelled.
- The slave is an arbitrary oracle and not a model of the MCP23008's registers, so the value read from GPIO and the effect of the writes on the pins are not modelled.
- xc.h, sys/attribs.h and i2c_master_noint.h are not part of this model.
