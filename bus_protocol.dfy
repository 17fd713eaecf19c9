/** The I2C bus as seen from the master: the conditions and byte transfers that
    appear on the wire, and the order in which they can appear.  That order is the
    one the I2C-bus specification (NXP UM10204, section 3.1) allows, except after a
    byte that is not acknowledged: UM10204 (section 3.1.6) lets the master send STOP
    or a repeated START there, but this firmware hangs (main.c:67), so `Halted`
    admits nothing.  A run of the bus is a sequence of events; the automaton `Next`
    says which event may follow which, and `Track` runs it over a whole sequence. */
module BusProtocol {

  /** An 8-bit value as the firmware holds it (C `unsigned char`). */
  type Byte = bv8

  /** A one-bit register field. */
  type Bit = b: int | 0 <= b < 2

  datatype Option<T> = None | Some(value: T)

  /** What happens on the bus during one primitive operation. */
  datatype Event =
    | Start                         // START condition
    | Restart                       // repeated START condition
    | Send(b: Byte, acked: bool)    // the master clocks out b; acked: the slave pulled SDA low on the 9th clock
    | Recv(b: Byte)                 // the master clocks in b from the slave
    | Ack(ackdt: Bit)               // the master drives its acknowledge bit: 0 = ACK, 1 = NACK
    | Stop                          // STOP condition

  /** Where the bus stands between two events.
      Address:  after START or repeated START, the next byte is a slave address
      Write:    after a write-direction address byte, or a data byte sent to the slave
      Read:     after a read-direction address byte, or after an ACK: the slave owes a byte
      AckDue:   a byte was received; the master must acknowledge it
      ReadDone: the master answered NACK; only STOP or a repeated START may follow
      Halted:   a byte was not acknowledged and the master hangs; nothing follows */
  datatype Phase = Idle | Address | Write | Read | AckDue | ReadDone | Halted

  /** The phase after event e in phase p, or None when e cannot follow there: UM10204's
      order, with nothing at all allowed once the master hangs. */
  function Next(p: Phase, e: Event): Option<Phase>
  {
    match e
    case Start => if p == Idle then Some(Address) else None
    case Restart => if p == Write || p == ReadDone then Some(Address) else None
    case Send(b, acked) =>
      if p != Address && p != Write then None
      else if !acked then Some(Halted)
      else if p == Address && b & 1 == 1 then Some(Read)
      else Some(Write)
    case Recv(_) => if p == Read then Some(AckDue) else None
    case Ack(ackdt) =>
      if p != AckDue then None
      else if ackdt == 0 then Some(Read)
      else Some(ReadDone)
    case Stop => if p == Write || p == ReadDone then Some(Idle) else None
  }

  /** The phase reached by running the automaton over es from p; None when some event is out of order. */
  function Track(p: Phase, es: seq<Event>): Option<Phase>
    decreases |es|
  {
    if es == [] then Some(p)
    else match Track(p, es[..|es| - 1])
      case None => None
      case Some(q) => Next(q, es[|es| - 1])
  }

  /** 1 while a transaction is open (started and not stopped), 0 when the bus is free. */
  function Open(p: Phase): nat
  {
    if p == Idle then 0 else 1
  }

  function Starts(es: seq<Event>): nat
    decreases |es|
  {
    if es == [] then 0 else Starts(es[..|es| - 1]) + (if es[|es| - 1].Start? then 1 else 0)
  }

  function Stops(es: seq<Event>): nat
    decreases |es|
  {
    if es == [] then 0 else Stops(es[..|es| - 1]) + (if es[|es| - 1].Stop? then 1 else 0)
  }

  /** Appending one event runs the automaton one more step. */
  lemma TrackSnoc(p: Phase, es: seq<Event>, e: Event)
    ensures Track(p, es + [e]) == (match Track(p, es) case None => None case Some(q) => Next(q, e))
  {
    assert (es + [e])[..|es + [e]| - 1] == es;
  }

  /** Once the bus hangs after a missing acknowledge, no event of any kind is allowed. */
  lemma HaltedAdmitsNothing(e: Event)
    ensures Next(Halted, e) == None
  {
  }

  /** Every prefix of an allowed run is allowed, and the event after it is allowed in the phase it reaches. */
  lemma {:induction false} TrackPrefix(p: Phase, es: seq<Event>, i: nat)
    requires Track(p, es).Some?
    requires i <= |es|
    ensures Track(p, es[..i]).Some?
    ensures i < |es| ==> Next(Track(p, es[..i]).value, es[i]).Some?
    ensures i < |es| ==> Track(p, es[..i + 1]) == Next(Track(p, es[..i]).value, es[i])
    decreases |es|
  {
    if i == |es| {
      assert es[..i] == es;
    } else {
      var front := es[..|es| - 1];
      assert Track(p, front).Some?;
      if i < |front| {
        TrackPrefix(p, front, i);
        assert front[..i] == es[..i];
        assert front[..i + 1] == es[..i + 1];
        assert front[i] == es[i];
      } else {
        assert front == es[..i];
        assert es[..i + 1] == es;
      }
    }
  }

  /** Every START is matched by exactly one STOP: in an allowed run from a free bus,
      the STOPs fall short of the STARTs by one exactly while a transaction is open. */
  lemma {:induction false} StartStopBalance(es: seq<Event>)
    requires Track(Idle, es).Some?
    ensures Starts(es) == Stops(es) + Open(Track(Idle, es).value)
    decreases |es|
  {
    if es != [] {
      var front := es[..|es| - 1];
      StartStopBalance(front);
    }
  }

  /** A repeated START only ever occurs inside an open transaction. */
  lemma RestartInsideTransaction(es: seq<Event>, i: nat)
    requires Track(Idle, es).Some?
    requires i < |es| && es[i] == Restart
    ensures Starts(es[..i]) == Stops(es[..i]) + 1
  {
    TrackPrefix(Idle, es, i);
    StartStopBalance(es[..i]);
  }

  /** Bytes are sent, received and acknowledged only inside an open transaction. */
  lemma TransferInsideTransaction(es: seq<Event>, i: nat)
    requires Track(Idle, es).Some?
    requires i < |es| && (es[i].Send? || es[i].Recv? || es[i].Ack?)
    ensures Starts(es[..i]) == Stops(es[..i]) + 1
  {
    TrackPrefix(Idle, es, i);
    StartStopBalance(es[..i]);
  }

  /** Event j of es is an acknowledged read-direction address byte (bit 0 = 1) sent in
      the address phase, and no START or repeated START comes after it. */
  ghost predicate ReadAddressedAt(es: seq<Event>, j: nat)
  {
    && j < |es|
    && Track(Idle, es[..j]) == Some(Address)
    && es[j].Send? && es[j].acked && es[j].b & 1 == 1
    && (forall k :: j < k < |es| ==> !es[k].Start? && !es[k].Restart?)
  }

  /** The direction bit decides the transfer: the bus is in a reading phase only after an
      acknowledged read-direction address byte, with no new address phase since. */
  lemma {:induction false} ReadFollowsReadAddress(es: seq<Event>)
    requires Track(Idle, es).Some?
    requires Track(Idle, es).value == Read || Track(Idle, es).value == AckDue || Track(Idle, es).value == ReadDone
    ensures exists j: nat :: ReadAddressedAt(es, j)
    decreases |es|
  {
    var front := es[..|es| - 1];
    var e := es[|es| - 1];
    var q := Track(Idle, front).value;
    if e.Send? {
      assert q == Address && e.b & 1 == 1;
      assert es[..|es| - 1] == front;
      assert ReadAddressedAt(es, |es| - 1);
    } else {
      assert e.Recv? || e.Ack?;
      ReadFollowsReadAddress(front);
      var j: nat :| ReadAddressedAt(front, j);
      assert es[..j] == front[..j];
      assert forall k :: j < k < |front| ==> es[k] == front[k];
      assert ReadAddressedAt(es, j);
    }
  }

  /** A byte is received only after an acknowledged read-direction address byte, with no
      START or repeated START between them. */
  lemma RecvAfterReadAddress(es: seq<Event>, i: nat)
    requires Track(Idle, es).Some?
    requires i < |es| && es[i].Recv?
    ensures exists j: nat :: ReadAddressedAt(es[..i], j)
  {
    TrackPrefix(Idle, es, i);
    ReadFollowsReadAddress(es[..i]);
  }

  /** Event j of es is an acknowledged write-direction address byte (bit 0 = 0) sent in
      the address phase, and no START or repeated START comes after it. */
  ghost predicate WriteAddressedAt(es: seq<Event>, j: nat)
  {
    && j < |es|
    && Track(Idle, es[..j]) == Some(Address)
    && es[j].Send? && es[j].acked && es[j].b & 1 == 0
    && (forall k :: j < k < |es| ==> !es[k].Start? && !es[k].Restart?)
  }

  /** The other half of the direction bit: the bus is in the writing phase only after an
      acknowledged write-direction address byte, with no new address phase since. */
  lemma {:induction false} WriteFollowsWriteAddress(es: seq<Event>)
    requires Track(Idle, es) == Some(Write)
    ensures exists j: nat :: WriteAddressedAt(es, j)
    decreases |es|
  {
    var front := es[..|es| - 1];
    var e := es[|es| - 1];
    var q := Track(Idle, front).value;
    assert e.Send?;
    if q == Address {
      assert es[..|es| - 1] == front;
      assert WriteAddressedAt(es, |es| - 1);
    } else {
      assert q == Write;
      WriteFollowsWriteAddress(front);
      var j: nat :| WriteAddressedAt(front, j);
      assert es[..j] == front[..j];
      assert forall k :: j < k < |front| ==> es[k] == front[k];
      assert WriteAddressedAt(es, j);
    }
  }

  /** Every byte sent outside the address phase -- a data byte -- is preceded by an
      acknowledged write-direction address byte with no START or repeated START in between. */
  lemma DataAfterWriteAddress(es: seq<Event>, i: nat)
    requires Track(Idle, es).Some?
    requires i < |es| && es[i].Send? && Track(Idle, es[..i]) != Some(Address)
    ensures exists j: nat :: WriteAddressedAt(es[..i], j)
  {
    TrackPrefix(Idle, es, i);
    WriteFollowsWriteAddress(es[..i]);
  }

  /** The address phase is entered only by a START or a repeated START, right before it. */
  lemma AddressAfterStartOrRestart(es: seq<Event>)
    requires Track(Idle, es) == Some(Address)
    ensures es != [] && (es[|es| - 1] == Start || es[|es| - 1] == Restart)
  {
  }

  /** Acknowledge polarity: after ACK (ACKDT = 0) the next event is another received byte;
      after NACK (ACKDT = 1) only STOP or a repeated START can follow. */
  lemma AckPolarity(es: seq<Event>, i: nat)
    requires Track(Idle, es).Some?
    requires i + 1 < |es| && es[i].Ack?
    ensures es[i].ackdt == 0 ==> es[i + 1].Recv?
    ensures es[i].ackdt == 1 ==> es[i + 1].Stop? || es[i + 1].Restart?
  {
    TrackPrefix(Idle, es, i);
    TrackPrefix(Idle, es, i + 1);
  }

  /** A byte that is not acknowledged is the last event of the run: nothing is sent,
      received, restarted or stopped after it; and a run that ends halted ends with one. */
  lemma HaltIsFinal(es: seq<Event>)
    requires Track(Idle, es).Some?
    ensures forall i :: 0 <= i < |es| && es[i].Send? && !es[i].acked ==> i == |es| - 1
    ensures Track(Idle, es) == Some(Halted) ==> es != [] && es[|es| - 1].Send? && !es[|es| - 1].acked
  {
    forall i | 0 <= i < |es| && es[i].Send? && !es[i].acked
      ensures i == |es| - 1
    {
      TrackPrefix(Idle, es, i);
      if i < |es| - 1 {
        TrackPrefix(Idle, es, i + 1);
        assert false;
      }
    }
    if Track(Idle, es) == Some(Halted) {
      assert es != [];
    }
  }
}
