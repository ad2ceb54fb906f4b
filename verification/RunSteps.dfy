/**
 The object of `Controllers` performs the events of a run: one event changes the state
 it holds exactly as the run says.
 */
module RunSteps {
  import opened Frames
  import opened ControllerModel
  import opened Controllers
  import opened Telemetry
  import opened Runs

  /** What a call hands out besides its status: the frame read from the queue or the
      telemetry record. */
  datatype Output = Silence | Taken(frame: Frame) | Reported(bytes: seq<bv8>)

  method Perform(c: Controller, e: Event) returns (status: Status, output: Output)
    requires c.Valid()
    modifies c, c.queue, c.queue.entries, c.registers
    ensures c.Valid() && c.Abs() == Act(old(c.Abs()), e)
    ensures status == Reply(old(c.Abs()), e)
    ensures output == match e
                      case QueueRead => if old(c.Abs()).queue == [] then Silence else Taken(old(c.Abs()).queue[0])
                      case TelemetryCall => Reported(Record(c.Abs()))
                      case _ => Silence
  {
    hide MarkSelfTest, Heartbeat, SetSetpoint, LatchFault, Recover, Tick, WriteRegister, Receive, Decode, Record;
    status, output := Ok, Silence;
    match e {
      case SelfTest => c.MarkSelfTestPassed();
      case Beat(number) => status := c.AcceptHeartbeat(number);
      case Command(number, value) => status := c.CommandSetpoint(number, value);
      case Fault(bits, critical) => c.Latch(bits, critical);
      case Recovery => status := c.TryRecover();
      case Millisecond => c.OneTick();
      case Arrival(frame) => status := c.ReceiveFrame(frame);
      case Delivery(interfaceType, bytes) => status := Deliver(c, interfaceType, bytes);
      case TelemetryCall =>
        var buffer := new bv8[TELEMETRY_SIZE](_ => 0);
        var size := c.WriteTelemetry(buffer);
        output := Reported(buffer[..size]);
      case RegisterWrite(address, data) => status := c.SpiWrite(address, data);
      case QueueRead => status, output := TakeOne(c);
    }
  }

  /** A buffer from the wire is decoded, and received if it is a frame. */
  method Deliver(c: Controller, interfaceType: int, bytes: seq<bv8>) returns (status: Status)
    requires c.Valid()
    modifies c, c.queue, c.queue.entries
    ensures c.Valid() && c.Abs() == Act(old(c.Abs()), Delivery(interfaceType, bytes))
    ensures status == Reply(old(c.Abs()), Delivery(interfaceType, bytes))
  {
    hide Receive, Decode;
    var input := new bv8[|bytes|](i requires 0 <= i < |bytes| => bytes[i]);
    assert input[..|bytes|] == bytes;
    var frame := new Cell<Frame>(Frame(UART, 0, 0, 0, seq(MAX_PAYLOAD, _ => 0)));
    status := DecodeInto(interfaceType, input, |bytes|, frame);
    if status == Ok {
      status := c.ReceiveFrame(frame.value);
    }
  }

  /** The consumer takes the oldest frame. */
  method TakeOne(c: Controller) returns (status: Status, output: Output)
    requires c.Valid()
    modifies c.queue
    ensures c.Valid() && c.Abs() == Act(old(c.Abs()), QueueRead)
    ensures status == Reply(old(c.Abs()), QueueRead)
    ensures output == if old(c.Abs()).queue == [] then Silence else Taken(old(c.Abs()).queue[0])
  {
    var cell := new Cell<Frame>(Frame(UART, 0, 0, 0, seq(MAX_PAYLOAD, _ => 0)));
    status := c.queue.Pop(cell);
    output := if status == Ok then Taken(cell.value) else Silence;
  }
}
