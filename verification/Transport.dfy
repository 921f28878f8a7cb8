/**
 * The byte stream under the client: the octets still to come from the peer, the
 * octets accepted so far, and a finite schedule of what each call will do.
 */
module Transport {
  import opened Bytes

  /** `Ready(n)`: up to `n` octets (at least one) are there; an ended stream reads as 0 octets. */
  datatype ReadEvent = Ready(n: nat) | ReadInterrupted | ReadBlocked | ReadFailed

  /** A read as it was served: its event, and the octets unread when it was made. */
  datatype ServedRead = ServedRead(event: ReadEvent, unread: bytes)

  datatype WriteEvent = Accept(n: nat) | WriteInterrupted | WriteBlocked | WriteFailed

  /** The stream takes nothing more: a failure, or an acceptance of no octets. */
  predicate Hard(e: WriteEvent) {
    e == Accept(0) || e == WriteFailed
  }

  /** The stream takes nothing now. */
  predicate Refusal(e: WriteEvent) {
    e == WriteBlocked || e == Accept(0) || e == WriteFailed
  }

  /** Some write after the first `n` was refused. */
  ghost predicate Refused(served: seq<WriteEvent>, n: nat) {
    exists k | n <= k < |served| :: Refusal(served[k])
  }

  datatype ReadOutcome = Got(data: bytes) | GotInterrupted | GotBlocked | GotError

  datatype WriteOutcome = Wrote(n: nat) | PutInterrupted | PutBlocked | PutError

  datatype TransportFlush = FlushDone | FlushBlocked | FlushFailed

  /** A flush of the transport: its outcome, and how many octets it had accepted by then. */
  datatype ServedFlush = ServedFlush(outcome: TransportFlush, accepted: nat)

  class Stream {
    var input: bytes
    var readPlan: seq<ReadEvent>
    var output: bytes
    var writePlan: seq<WriteEvent>
    ghost var served: seq<ServedRead>         // reads made so far
    ghost var servedWrites: seq<WriteEvent>   // write events used up so far
    ghost var hardWrites: nat                 // how many of them were hard
    ghost var flushes: seq<ServedFlush>       // flushes of the transport so far

    constructor (input: bytes, readPlan: seq<ReadEvent>, writePlan: seq<WriteEvent>)
      ensures this.input == input && this.readPlan == readPlan && this.writePlan == writePlan
      ensures output == [] && served == [] && servedWrites == [] && hardWrites == 0 && flushes == []
    {
      this.input, this.readPlan, this.writePlan := input, readPlan, writePlan;
      output, served, servedWrites, hardWrites, flushes := [], [], [], 0, [];
    }

    /** What was unread when the last read was made. */
    ghost function LastUnread(): bytes
      reads this
    {
      if served == [] then [] else served[|served| - 1].unread
    }

    /** The transport has been flushed since it accepted its last octet. */
    ghost predicate Pushed()
      reads this
    {
      flushes != [] && flushes[|flushes| - 1].accepted == |output|
    }

    /** The event the next read meets; a schedule that has run out blocks. */
    function NextRead(): ReadEvent
      reads this
    {
      if readPlan == [] then ReadBlocked else readPlan[0]
    }

    function NextWrite(): WriteEvent
      reads this
    {
      if writePlan == [] then WriteBlocked else writePlan[0]
    }

    /** `Read::read` into a slice of `space` octets. */
    method Read(space: nat) returns (r: ReadOutcome)
      modifies this`input, this`readPlan, this`served
      ensures served == old(served) + [ServedRead(old(NextRead()), old(input))]
      ensures readPlan == if old(readPlan) == [] then [] else old(readPlan)[1..]
      ensures match old(NextRead())
              case Ready(n) =>
                && r.Got?
                && old(input) == r.data + input
                && |r.data| == Min(Min(Max(n, 1), space), |old(input)|)
              case ReadInterrupted => r.GotInterrupted? && input == old(input)
              case ReadBlocked => r.GotBlocked? && input == old(input)
              case ReadFailed => r.GotError? && input == old(input)
    {
      var e := NextRead();
      readPlan := if readPlan == [] then [] else readPlan[1..];
      served := served + [ServedRead(e, input)];
      match e {
        case Ready(n) =>
          var k := Min(Min(Max(n, 1), space), |input|);
          r := Got(input[..k]);
          input := input[k..];
        case ReadInterrupted => r := GotInterrupted;
        case ReadBlocked => r := GotBlocked;
        case ReadFailed => r := GotError;
      }
    }

    /** `Write::write`: accepts a beginning of `data`. */
    method Write(data: bytes) returns (r: WriteOutcome)
      modifies this`output, this`writePlan, this`servedWrites, this`hardWrites
      ensures servedWrites == old(servedWrites) + [old(NextWrite())]
      ensures hardWrites == old(hardWrites) + if Hard(old(NextWrite())) then 1 else 0
      ensures writePlan == if old(writePlan) == [] then [] else old(writePlan)[1..]
      ensures match old(NextWrite())
              case Accept(n) => r == Wrote(Min(n, |data|)) && output == old(output) + data[..r.n]
              case WriteInterrupted => r.PutInterrupted? && output == old(output)
              case WriteBlocked => r.PutBlocked? && output == old(output)
              case WriteFailed => r.PutError? && output == old(output)
    {
      var e := NextWrite();
      writePlan := if writePlan == [] then [] else writePlan[1..];
      servedWrites := servedWrites + [e];
      hardWrites := hardWrites + if Hard(e) then 1 else 0;
      match e {
        case Accept(n) =>
          r := Wrote(Min(n, |data|));
          output := output + data[..r.n];
        case WriteInterrupted => r := PutInterrupted;
        case WriteBlocked => r := PutBlocked;
        case WriteFailed => r := PutError;
      }
    }

    /** `Write::flush` on the transport itself: its outcome is not under the client's control. */
    method FlushTransport() returns (r: TransportFlush)
      modifies this`flushes
      ensures flushes == old(flushes) + [ServedFlush(r, |output|)]
    {
      var choice: nat := *;
      r := if choice == 0 then FlushBlocked else if choice == 1 then FlushFailed else FlushDone;
      flushes := flushes + [ServedFlush(r, |output|)];
    }
  }
}
