/** The polled I2C master of main.c:47-88: six blocking primitives on the I2C2
    peripheral.  Each primitive sets a trigger bit (or writes the transmit
    register) and spins until the hardware reports completion; here that spin is
    one completion step.  What the hardware reports back -- the ACKSTAT bit after
    a transmission and the byte in I2C2RCV after a reception -- comes from the
    slave on the bus and is given by a `Slave` oracle that may depend on
    everything that has happened on the bus so far. */
module BusMaster {
  import opened BusProtocol

  /** A call of one of the primitives, i2c_master_start .. i2c_master_stop. */
  datatype Op =
    | MasterStart
    | MasterRestart
    | MasterSend(b: Byte)
    | MasterRecv
    | MasterAck(val: int)
    | MasterStop

  /** The far side of the bus.  ackstat(h, b): the ACKSTAT bit (true = not acknowledged)
      after b is clocked out with history h on the bus; rcv(h): the byte the slave
      drives when the master receives with history h. */
  datatype Slave = Slave(ackstat: (seq<Event>, Byte) -> bool, rcv: seq<Event> -> Byte)

  /** The bus as the model sees it: the phase reached and every event so far. */
  datatype Config = Config(phase: Phase, log: seq<Event>)

  /** The order of calls the header comment of main.c:7 asks for ("called in the correct
      order as per the I2C protocol").  Once the master hangs, no later call runs, so
      any call is harmless. */
  predicate Enabled(p: Phase, op: Op)
  {
    p == Halted ||
    match op
    case MasterStart => p == Idle
    case MasterRestart => p == Write || p == ReadDone
    case MasterSend(_) => p == Address || p == Write
    case MasterRecv => p == Read
    case MasterAck(_) => p == AckDue
    case MasterStop => p == Write || p == ReadDone
  }

  /** The bit a one-bit register field keeps when an int is stored into it: the low bit
      of the value in two's complement (C's conversion to an unsigned bit-field). */
  function LowBit(val: int): Bit
    decreases if val < 0 then 2 - val else val
  {
    if val == 0 || val == 1 then val
    else if val < 0 then LowBit(val + 2)
    else LowBit(val - 2)
  }

  /** The bit kept is the value's remainder modulo 2, for negative values as well. */
  lemma {:induction false} LowBitIsParity(val: int)
    ensures LowBit(val) == val % 2
    ensures LowBit(val) == 0 <==> val % 2 == 0
    decreases if val < 0 then 2 - val else val
  {
    if val < 0 {
      LowBitIsParity(val + 2);
    } else if val > 1 {
      LowBitIsParity(val - 2);
    }
  }

  /** The event that op puts on the bus with history h on it. */
  function Outcome(s: Slave, h: seq<Event>, op: Op): Event
  {
    match op
    case MasterStart => Start
    case MasterRestart => Restart
    case MasterSend(b) => Send(b, !s.ackstat(h, b))
    case MasterRecv => Recv(s.rcv(h))
    case MasterAck(val) => Ack(LowBit(val))   // ACKDT is one bit wide
    case MasterStop => Stop
  }

  /** Reference semantics of one primitive call: None when the call is out of order. */
  function Step(s: Slave, c: Config, op: Op): Option<Config>
  {
    if c.phase == Halted then Some(c)
    else
      var e := Outcome(s, c.log, op);
      match Next(c.phase, e)
      case None => None
      case Some(q) => Some(Config(q, c.log + [e]))
  }

  /** Reference semantics of a sequence of primitive calls, in order. */
  function Run(s: Slave, c: Config, ops: seq<Op>): Option<Config>
    decreases |ops|
  {
    if ops == [] then Some(c)
    else match Run(s, c, ops[..|ops| - 1])
      case None => None
      case Some(c') => Step(s, c', ops[|ops| - 1])
  }

  /** The precondition of every primitive is exactly what the bus protocol allows:
      a call is enabled if and only if the event it produces is allowed, whatever the slave answers. */
  lemma EnabledIffAllowed(s: Slave, p: Phase, h: seq<Event>, op: Op)
    requires p != Halted
    ensures Enabled(p, op) <==> Next(p, Outcome(s, h, op)).Some?
  {
  }

  /** A primitive that is allowed appends its one event and keeps the phase in step with the log. */
  lemma StepKeepsTrack(s: Slave, c: Config, op: Op)
    requires Track(Idle, c.log) == Some(c.phase)
    requires Enabled(c.phase, op)
    ensures Step(s, c, op).Some?
    ensures Track(Idle, Step(s, c, op).value.log) == Some(Step(s, c, op).value.phase)
  {
    if c.phase != Halted {
      EnabledIffAllowed(s, c.phase, c.log, op);
      TrackSnoc(Idle, c.log, Outcome(s, c.log, op));
    }
  }

  lemma RunSnoc(s: Slave, c: Config, ops: seq<Op>, op: Op)
    ensures Run(s, c, ops + [op]) == (match Run(s, c, ops) case None => None case Some(c') => Step(s, c', op))
  {
    assert (ops + [op])[..|ops + [op]| - 1] == ops;
  }

  /** A chain of steps, one per call, is a run of those calls. */
  lemma {:induction false} RunSteps(s: Slave, ops: seq<Op>, cs: seq<Config>)
    requires |cs| == |ops| + 1
    requires forall k :: 0 <= k < |ops| ==> Step(s, cs[k], ops[k]) == Some(cs[k + 1])
    ensures Run(s, cs[0], ops) == Some(cs[|ops|])
    decreases |ops|
  {
    if ops != [] {
      var n := |ops| - 1;
      RunSteps(s, ops[..n], cs[..n + 1]);
      assert ops[..n] == ops[..|ops| - 1];
    }
  }

  /** Running two call sequences one after the other is running their concatenation. */
  lemma {:induction false} RunAppend(s: Slave, c: Config, ops1: seq<Op>, ops2: seq<Op>)
    ensures Run(s, c, ops1 + ops2) ==
            (match Run(s, c, ops1) case None => None case Some(c') => Run(s, c', ops2))
    decreases |ops2|
  {
    if ops2 == [] {
      assert ops1 + ops2 == ops1;
    } else {
      var front := ops2[..|ops2| - 1];
      var last := ops2[|ops2| - 1];
      assert ops2 == front + [last];
      assert ops1 + ops2 == (ops1 + front) + [last];
      RunSnoc(s, c, ops1 + front, last);
      RunAppend(s, c, ops1, front);
      if Run(s, c, ops1).Some? {
        RunSnoc(s, Run(s, c, ops1).value, front, last);
      }
    }
  }

  /** After the hang nothing changes, whatever is called. */
  lemma {:induction false} RunFromHalted(s: Slave, c: Config, ops: seq<Op>)
    requires c.phase == Halted
    ensures Run(s, c, ops) == Some(c)
    decreases |ops|
  {
    if ops != [] {
      RunFromHalted(s, c, ops[..|ops| - 1]);
    }
  }

  /** A run only appends to the log, at most one event per call; a run that adds fewer
      events than it has calls has hung, and the event that hung it -- the last one -- is a
      byte the slave did not acknowledge. */
  lemma {:induction false} RunLogGrows(s: Slave, c: Config, ops: seq<Op>)
    requires c.phase != Halted
    requires Run(s, c, ops).Some?
    ensures var c' := Run(s, c, ops).value;
      && |c.log| <= |c'.log| <= |c.log| + |ops|
      && c'.log[..|c.log|] == c.log
      && (|c'.log| < |c.log| + |ops| ==> c'.phase == Halted)
      && (c'.phase == Halted ==>
            |c'.log| > |c.log| && c'.log[|c'.log| - 1].Send? && !c'.log[|c'.log| - 1].acked)
    decreases |ops|
  {
    if ops != [] {
      var front := ops[..|ops| - 1];
      RunLogGrows(s, c, front);
      var m := Run(s, c, front).value;
      if m.phase != Halted {
        assert Run(s, c, ops).value.log == m.log + [Outcome(s, m.log, ops[|ops| - 1])];
      }
    }
  }

  /** Every event a run adds is the one its call produces from the history before it:
      the i-th new event comes from the i-th call. */
  lemma {:induction false} RunEventAt(s: Slave, c: Config, ops: seq<Op>, i: nat)
    requires c.phase != Halted
    requires Run(s, c, ops).Some?
    requires i < |Run(s, c, ops).value.log| - |c.log| && i < |ops|
    ensures Run(s, c, ops).value.log[|c.log| + i] ==
            Outcome(s, Run(s, c, ops).value.log[..|c.log| + i], ops[i])
    decreases |ops|
  {
    var front := ops[..|ops| - 1];
    RunLogGrows(s, c, front);
    var m := Run(s, c, front).value;
    var c' := Run(s, c, ops).value;
    if m.phase == Halted {
      assert c' == m;
      RunEventAt(s, c, front, i);
    } else {
      var e := Outcome(s, m.log, ops[|ops| - 1]);
      assert c'.log == m.log + [e];
      if i < |m.log| - |c.log| {
        RunEventAt(s, c, front, i);
        assert c'.log[..|c.log| + i] == m.log[..|c.log| + i];
      } else {
        assert c'.log[..|c.log| + i] == m.log;
      }
    }
  }

  /** A run of allowed calls keeps the phase in step with the log. */
  lemma {:induction false} RunKeepsTrack(s: Slave, c: Config, ops: seq<Op>)
    requires Track(Idle, c.log) == Some(c.phase)
    requires Run(s, c, ops).Some?
    ensures Track(Idle, Run(s, c, ops).value.log) == Some(Run(s, c, ops).value.phase)
    decreases |ops|
  {
    if ops != [] {
      var front := ops[..|ops| - 1];
      RunKeepsTrack(s, c, front);
      var m := Run(s, c, front).value;
      if m.phase != Halted {
        var e := Outcome(s, m.log, ops[|ops| - 1]);
        TrackSnoc(Idle, m.log, e);
      }
    }
  }

  /** The I2C2 peripheral together with the record of what it has done on the bus.
      `phase` and `log` belong to the model; `on` is I2C2CONbits.ON and `ackdt` I2C2CONbits.ACKDT.
      Each primitive is specified by the Step it takes; StepKeepsTrack shows that an enabled
      primitive keeps Valid(), and the expander transactions state Valid() before and after. */
  class Bus {
    const slave: Slave
    var on: bool
    var ackdt: Bit
    var phase: Phase
    var log: seq<Event>

    /** The phase is the one the bus protocol reaches over the recorded events. */
    ghost predicate Valid()
      reads this
    {
      Track(Idle, log) == Some(phase)
    }

    /** The peripheral after reset: switched off, bus free, nothing recorded. */
    constructor (slave: Slave)
      ensures Valid()
      ensures this.slave == slave && !on && ackdt == 0 && phase == Idle && log == []
    {
      this.slave := slave;
      on, ackdt, phase, log := false, 0, Idle, [];
    }

    /** i2c_master_setup: switches the module on (the I2C2BRG write is not modelled). */
    method Setup()
      modifies this`on
      ensures on
    {
      on := true;
    }

    /** i2c_master_start: SEN = 1, wait for the START to complete. */
    method Start()
      requires on && Enabled(phase, MasterStart)
      modifies this`phase, this`log
      ensures Step(slave, old(Config(phase, log)), MasterStart) == Some(Config(phase, log))
      ensures old(phase) == Idle ==> phase == Address && log == old(log) + [Event.Start]
      ensures old(phase) == Halted ==> phase == Halted && log == old(log)
    {
      if phase == Halted {
        return;   // the processor is spinning in an earlier send; this call never runs
      }
      phase, log := Address, log + [Event.Start];
    }

    /** i2c_master_restart: RSEN = 1, wait for the repeated START to complete. */
    method Restart()
      requires on && Enabled(phase, MasterRestart)
      modifies this`phase, this`log
      ensures Step(slave, old(Config(phase, log)), MasterRestart) == Some(Config(phase, log))
      ensures old(phase) != Halted ==> phase == Address && log == old(log) + [Event.Restart]
      ensures old(phase) == Halted ==> phase == Halted && log == old(log)
    {
      if phase == Halted {
        return;
      }
      phase, log := Address, log + [Event.Restart];
    }

    /** i2c_master_send: write I2C2TRN, wait while TRSTAT, then test ACKSTAT; when the
        slave did not acknowledge, the master loops forever (Halted). */
    method Send(b: Byte)
      requires on && Enabled(phase, MasterSend(b))
      modifies this`phase, this`log
      ensures Step(slave, old(Config(phase, log)), MasterSend(b)) == Some(Config(phase, log))
      ensures old(phase) != Halted ==> log == old(log) + [Event.Send(b, !slave.ackstat(old(log), b))]
      ensures old(phase) != Halted ==>
        phase == if slave.ackstat(old(log), b) then Halted
                 else if old(phase) == Address && b & 1 == 1 then Read
                 else Write
      ensures old(phase) == Halted ==> phase == Halted && log == old(log)
    {
      if phase == Halted {
        return;
      }
      var ackstat := slave.ackstat(log, b);
      log := log + [Event.Send(b, !ackstat)];
      if ackstat {
        phase := Halted;   // while(1){}
      } else if phase == Address && b & 1 == 1 {
        phase := Read;
      } else {
        phase := Write;
      }
    }

    /** i2c_master_recv: RCEN = 1, wait for RBF, return I2C2RCV. */
    method Recv() returns (r: Byte)
      requires on && Enabled(phase, MasterRecv)
      modifies this`phase, this`log
      ensures Step(slave, old(Config(phase, log)), MasterRecv) == Some(Config(phase, log))
      ensures old(phase) != Halted ==> r == slave.rcv(old(log)) && phase == AckDue && log == old(log) + [Event.Recv(r)]
      ensures old(phase) == Halted ==> phase == Halted && log == old(log)
    {
      if phase == Halted {
        return 0;
      }
      r := slave.rcv(log);
      phase, log := AckDue, log + [Event.Recv(r)];
    }

    /** i2c_master_ack: ACKDT = val, ACKEN = 1, wait for the acknowledge to be sent.
        The bit put on the bus is the ACKDT just written. */
    method Ack(val: int)
      requires on && Enabled(phase, MasterAck(val))
      modifies this`ackdt, this`phase, this`log
      ensures Step(slave, old(Config(phase, log)), MasterAck(val)) == Some(Config(phase, log))
      ensures old(phase) != Halted ==>
        ackdt == LowBit(val) && log == old(log) + [Event.Ack(ackdt)] && phase == (if ackdt == 0 then Read else ReadDone)
      ensures old(phase) == Halted ==> phase == Halted && log == old(log) && ackdt == old(ackdt)
    {
      if phase == Halted {
        return;
      }
      ackdt := LowBit(val);
      log := log + [Event.Ack(ackdt)];
      phase := if ackdt == 0 then Read else ReadDone;
    }

    /** i2c_master_stop: PEN = 1, wait for the STOP to complete; the bus is free again. */
    method Stop()
      requires on && Enabled(phase, MasterStop)
      modifies this`phase, this`log
      ensures Step(slave, old(Config(phase, log)), MasterStop) == Some(Config(phase, log))
      ensures old(phase) != Halted ==> phase == Idle && log == old(log) + [Event.Stop]
      ensures old(phase) == Halted ==> phase == Halted && log == old(log)
    {
      if phase == Halted {
        return;
      }
      phase, log := Idle, log + [Event.Stop];
    }
  }
}
