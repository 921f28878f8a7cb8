/**
 * The client: `WebSocket` with its buffers and session.  Every method reports,
 * as ghost results, the steps of `Connection` that it performed, and is proved
 * to have moved the abstract state by exactly those steps.
 */
module Client {
  import opened Bytes
  import opened Frames
  import opened Messages
  import opened Connection
  import opened Transport
  import opened TextAssembly
  import RB = ReadBuffer
  import SB = SendBuffer
  import FrameIo
  import Handshake
  import Outbound
  import R = Reading
  import Utf8

  /** 16 MiB of payload, 1 MiB of buffer, no frame budget, a flood limit of 1000. */
  const DEFAULTS := Config(16 * 1024 * 1024, 1024 * 1024, USIZE_LIMIT - 1, 1000)

  datatype SendStatus = Done | Queued | RetryLater

  datatype ReadStatus = Received(message: Message) | Quiet

  datatype CallError = Reconnect(error: ConnError) | Fatal(cause: CallerError)

  /** What one turn of the read loop led to. */
  datatype Pass = Again | Yield(message: Message) | Blocked | Failed(why: Ending)

  /** What the read loop as a whole led to. */
  datatype LoopResult = Produced(message: Message) | BudgetSpent | WouldBlock | Broke(why: Ending)

  function ErrorOf(why: Ending): ConnError
    requires why != ByPeer
  {
    match why
    case ByError(e) => e
    case ByEof => ConnClosed
    case ByAbort(e) => e
  }

  class WebSocket {
    var config: Config
    var stream: Stream
    const read: RB.ReadBuf
    const send: SB.SendBuf
    const text: FrameIo.TextBuffer
    var fragmentBin: bytes
    var fragmentOpcode: byte
    var closeState: CloseState
    var floodScore: nat
    var pingDeadline: Option<int>
    var draws: seq<bool>                   // random decisions to come: whether to shrink the read buffer
    ghost var base: nat                    // octets the stream had accepted before this connection
    ghost var frames: seq<OutFrame>
    ghost var delivered: seq<Message>
    ghost var endScore: nat                // the flood score when the connection was closed

    ghost predicate Valid()
      reads this, stream, read, send, text, text.tail
    {
      && config.Ok()
      && read.Valid() && send.Valid() && text.Valid()
      && base <= |stream.output|
      && (fragmentOpcode == 0 || fragmentOpcode == OP_TEXT || fragmentOpcode == OP_BINARY)
      && TailOk(text.State().tail)
    }

    ghost function Reassembly(): (r: Recv)
      requires Valid()
      reads this, stream, read, send, text, text.tail
      ensures r.Carried()
    {
      if closeState.Closed? || fragmentOpcode == 0 then Idle
      else if fragmentOpcode == OP_TEXT then InText(text.State())
      else InBinary(fragmentBin)
    }

    ghost function Wire(): bytes
      requires Valid()
      reads this, stream, read, send, text, text.tail
    {
      read.Pending() + stream.input
    }

    /** The connection as its steps see it. */
    ghost function Abs(): (s: Endpoint)
      requires Valid()
      reads this, stream, read, send, text, text.tail
      ensures s.recv.Carried()
    {
      Endpoint(Wire(), Reassembly(), closeState, if closeState.Closed? then endScore else floodScore,
               stream.output[base..], send.Pending(), frames, delivered)
    }

    /** What decides how much the next reads fetch. */
    ghost function Supply(): (u: R.Supply)
      requires Valid()
      reads this, stream, read, send, text, text.tail
      ensures R.InOrder(u)
    {
      R.Supply(read.IntakeOf(stream), draws)
    }

    /** What decides how far the next writes get. */
    ghost function Outflow(): SB.Outflow
      requires Valid()
      reads this, stream, read, send, text, text.tail
    {
      send.OutflowOf(stream)
    }

    /** How the sending side shows. */
    ghost function Writes(): SB.Writes
      requires Valid()
      reads this, stream, read, send, text, text.tail
    {
      send.WritesOf(stream)
    }

    /** `WebSocket::new` and `with_stream`: default limits, empty buffers. */
    constructor (stream: Stream, draws: seq<bool>)
      ensures Valid() && this.stream == stream && config == DEFAULTS
      ensures config == Config(16777216, 1048576, 18446744073709551615, 1000)
      ensures Supply() == R.Unread(0, |stream.input|, stream.readPlan, draws)
      ensures fresh(read) && fresh(send) && fresh(text) && fresh(text.tail)
      ensures Abs() == Fresh(stream.input) && pingDeadline == None
    {
      config := DEFAULTS;
      this.stream, this.draws := stream, draws;
      read := new RB.ReadBuf();
      send := new SB.SendBuf();
      text := new FrameIo.TextBuffer();
      fragmentBin, fragmentOpcode := [], 0;
      closeState, floodScore, pingDeadline := Open, 0, None;
      base, frames, delivered, endScore := |stream.output|, [], [], 0;
    }

    // ----- Sending -----

    /** `build_frame` on the send buffer, recorded as a committed frame. */
    method Commit(opcode: byte, payload: bytes) returns (ghost f: OutFrame)
      requires Valid() && FourBits(opcode) && |payload| < USIZE_LIMIT
      modifies send`buf, this`frames
      ensures Valid() && f.WellFormed() && f.opcode == opcode && f.payload == payload
      ensures Abs() == Connection.Commit(old(Abs()), f) && frames == old(frames) + [f]
    {
      var mask := FrameIo.BuildFrame(send, opcode, payload);
      f := OutFrame(opcode, payload, mask);
      frames := frames + [f];
    }

    /** `SendBuf::flush`. */
    method DrainQueue() returns (r: SB.FlushResult, ghost n: nat)
      requires Valid()
      modifies send`pos, stream`output, stream`writePlan, stream`servedWrites, stream`hardWrites
      ensures Valid() && n <= |old(Abs()).queue| && Abs() == Drained(old(Abs()), n)
      ensures r == SB.Flushed <==> Abs().queue == []
      ensures send.Explains(stream, |old(stream.servedWrites)|, r) && old(stream.servedWrites) <= stream.servedWrites
      ensures Supply() == old(Supply()) && (r == SB.Flushed <==> send.Pending() == [])
      ensures SB.AfterFlush(old(Outflow())) == (Outflow(), r)
      ensures stream.hardWrites == old(stream.hardWrites) + if SB.FailedForGood(r) then 1 else 0
      ensures |stream.writePlan| + (if SB.FailedForGood(r) then 1 else 0) <= |old(stream.writePlan)|
      ensures SB.Later(old(Writes()), Writes()) && (Writes().pending == 0 <==> r == SB.Flushed)
      ensures r != SB.Flushed ==> SB.Answers(old(Writes()), Writes())
    {
      hide SB.AfterFlush, SB.Later, SB.Answers, WebSocket.Wire, WebSocket.Reassembly, WebSocket.Writes;
      r, n := FlushOut();
      assert Abs().sent == old(Abs()).sent + old(Abs()).queue[..n];
    }

    /** The same in terms of the fields. */
    method FlushOut() returns (r: SB.FlushResult, ghost n: nat)
      requires Valid()
      modifies send`pos, stream`output, stream`writePlan, stream`servedWrites, stream`hardWrites
      ensures Valid() && n <= |old(send.Pending())| && send.Pending() == old(send.Pending())[n..]
      ensures stream.output[base..] == old(stream.output[base..]) + old(send.Pending())[..n]
      ensures Wire() == old(Wire()) && Reassembly() == old(Reassembly()) && Supply() == old(Supply())
      ensures r == SB.Flushed <==> send.Pending() == []
      ensures send.Explains(stream, |old(stream.servedWrites)|, r) && old(stream.servedWrites) <= stream.servedWrites
      ensures SB.AfterFlush(old(Outflow())) == (Outflow(), r)
      ensures stream.hardWrites == old(stream.hardWrites) + if SB.FailedForGood(r) then 1 else 0
      ensures |stream.writePlan| + (if SB.FailedForGood(r) then 1 else 0) <= |old(stream.writePlan)|
      ensures SB.Later(old(Writes()), Writes()) && (Writes().pending == 0 <==> r == SB.Flushed)
      ensures r != SB.Flushed ==> SB.Answers(old(Writes()), Writes())
    {
      hide SB.AfterFlush;
      r, n := send.Flush(stream);
      assert stream.output[base..] == old(stream.output[base..]) + old(send.Pending())[..n];
    }

    /**
     * `send_frame`.  `Done` and `Queued` commit the frame, `RetryLater` and
     * `Closing` commit nothing; `Done` leaves nothing queued.  The state reached
     * by the steps differs from the session only in what `SendClose` still sets.
     */
    method SendFrame(opcode: byte, payload: bytes)
      returns (r: Result<SendStatus, CallError>, ghost ls: seq<Label>, ghost f: Option<OutFrame>)
      requires Valid() && |payload| < USIZE_LIMIT
      requires opcode == OP_TEXT || opcode == OP_BINARY || opcode == OP_PING || opcode == OP_CLOSE
      requires IsControl(opcode) ==> |payload| <= 125
      modifies send, this`frames, stream`output, stream`writePlan, stream`servedWrites, stream`hardWrites, stream`flushes
      ensures Valid()
      ensures var s := Run(config, old(Abs()), ls);
              var closes := opcode == OP_CLOSE && r.Ok? && r.value != RetryLater;
              s == Some(Abs().(close := if closes then CloseSent else old(closeState)))
      ensures old(closeState) != Open <==> r == Err(Fatal(Closing))
      ensures old(closeState) != Open ==> ls == []
      ensures match f
              case Some(g) => g.opcode == opcode && g.payload == payload && frames == old(frames) + [g]
              case None => frames == old(frames)
      ensures r.Ok? ==> (r.value == RetryLater <==> f.None?)
      ensures r.Ok? ==> (r.value == Done <==> send.Pending() == [])
      ensures r == Ok(Done) ==> stream.Pushed()
      ensures r.Err? && r.error.Reconnect? ==> r.error.error == ConnClosed || r.error.error == Io
      ensures old(closeState) == Open ==> r.Ok? || r.error.Reconnect?
      ensures old(closeState) == Open ==> send.Explains(stream, |old(stream.servedWrites)|, FlushOf(r))
      ensures forall l | l in ls :: Outbound.FailedClose(l) ==> opcode == OP_CLOSE && r.Err? && f.Some?
      ensures forall l | l in ls :: l.Send? || l.Drain?
      ensures SendOutcome(old(closeState) == Open, old(Outflow()), WireSize(|payload|)) == (Outflow(), r)
      ensures Supply() == old(Supply())
      ensures stream.hardWrites == old(stream.hardWrites) + if r.Err? && r.error.Reconnect? then 1 else 0
      ensures |stream.writePlan| + (if r.Err? && r.error.Reconnect? then 1 else 0) <= |old(stream.writePlan)|
    {
      hide SB.AfterFlush;
      hide Run, Apply, Enabled, ParseFrame, ClientFrame, Drained, UserFrame, Outbound.FailedClose, FourBits, IsControl;
      hide WebSocket.Abs, WebSocket.Supply;
      ghost var s := Abs();
      CoreOnWire();
      f := None;
      if closeState != Open {
        ls := [];
        RunNothing(config, s);
        return Err(Fatal(Closing)), ls, f;
      }
      var q;
      ghost var n;
      q, n := DrainFirst();
      CoreOnWire();
      ls := [Drain(n)];
      RunDrain(config, s, n);
      match q {
        case Flushed =>
        case WouldBlock => return Ok(RetryLater), ls, f;
        case WriteClosed => return Err(Reconnect(ConnClosed)), ls, f;
        case WriteError => return Err(Reconnect(Io)), ls, f;
      }
      ghost var g, m;
      r, g, m := BuildAndFlush(opcode, payload);
      f := Some(g);
      UserFrameSteps(config, s, ls, g, r.Err?, m);
      ls := ls + [Send(g, r.Err?)] + [Drain(m)];
      SendFailsOnlyForClose(n, g, r.Err?, m);
    }

    /** The first half of `send_frame`: a frame still queued is drained. */
    method DrainFirst() returns (q: SB.FlushResult, ghost n: nat)
      requires Valid()
      modifies send`pos, stream`output, stream`writePlan, stream`servedWrites, stream`hardWrites
      ensures Valid() && n <= |old(Abs()).queue| && Abs() == Drained(old(Abs()), n)
      ensures q == SB.Flushed <==> Abs().queue == []
      ensures send.Explains(stream, |old(stream.servedWrites)|, q) && old(stream.servedWrites) <= stream.servedWrites
      ensures Supply() == old(Supply()) && (q == SB.Flushed <==> send.Pending() == [])
      ensures SB.AfterFlush(old(Outflow())) == (Outflow(), q)
      ensures stream.hardWrites == old(stream.hardWrites) + if SB.FailedForGood(q) then 1 else 0
      ensures |stream.writePlan| + (if SB.FailedForGood(q) then 1 else 0) <= |old(stream.writePlan)|
    {
      hide SB.AfterFlush, Drained;
      if send.HasPending() {
        q, n := DrainQueue();
      } else {
        q, n := SB.Flushed, 0;
        DrainNothing(Abs());
        NothingToFlush(Outflow());
      }
    }

    /** The second half of `send_frame`: the queue is empty, the frame is built and flushed. */
    method BuildAndFlush(opcode: byte, payload: bytes)
      returns (r: Result<SendStatus, CallError>, ghost g: OutFrame, ghost m: nat)
      requires Valid() && |payload| < USIZE_LIMIT && closeState == Open && send.Pending() == []
      requires opcode == OP_TEXT || opcode == OP_BINARY || opcode == OP_PING || opcode == OP_CLOSE
      requires IsControl(opcode) ==> |payload| <= 125
      modifies send, this`frames, stream`output, stream`writePlan, stream`servedWrites, stream`hardWrites, stream`flushes
      ensures Valid() && UserFrame(g) && g.opcode == opcode && g.payload == payload
      ensures frames == old(frames) + [g] && Supply() == old(Supply())
      ensures m <= WireSize(|payload|) && Abs() == Drained(Connection.Commit(old(Abs()), g), m)
      ensures r.Ok? ==> r.value != RetryLater && (r.value == Done <==> send.Pending() == [])
      ensures r == Ok(Done) ==> stream.Pushed()
      ensures r.Err? ==> r.error.Reconnect? && (r.error.error == ConnClosed || r.error.error == Io)
      ensures send.Explains(stream, |old(stream.servedWrites)|, FlushOf(r))
      ensures SB.AfterFlush(SB.Outflow(WireSize(|payload|), old(stream.writePlan))) == (Outflow(), FlushOf(r))
      ensures stream.hardWrites == old(stream.hardWrites) + if r.Err? then 1 else 0
      ensures |stream.writePlan| + (if r.Err? then 1 else 0) <= |old(stream.writePlan)|
    {
      hide ClientFrame, FourBits, IsControl, Drained, Connection.Commit, SB.AfterFlush, UserFrame;
      hide WebSocket.Abs, WebSocket.Supply, WebSocket.Outflow;
      QueueIsPending();
      g := StartFrame(opcode, payload);
      CommitQueues(old(Abs()), g);
      var q;
      q, m := DrainQueue();
      match q {
        case Flushed =>
          Release();
          r := Ok(Done);
        case WouldBlock => r := Ok(Queued);
        case WriteClosed => r := Err(Reconnect(ConnClosed));
        case WriteError => r := Err(Reconnect(Io));
      }
    }

    /** The frame is built in an emptied buffer. */
    method StartFrame(opcode: byte, payload: bytes) returns (ghost g: OutFrame)
      requires Valid() && |payload| < USIZE_LIMIT && send.Pending() == []
      requires opcode == OP_TEXT || opcode == OP_BINARY || opcode == OP_PING || opcode == OP_CLOSE
      requires IsControl(opcode) ==> |payload| <= 125
      modifies send, this`frames
      ensures Valid() && g.WellFormed() && UserFrame(g) && g.opcode == opcode && g.payload == payload
      ensures Abs() == Connection.Commit(old(Abs()), g) && frames == old(frames) + [g]
      ensures Supply() == old(Supply()) && Outflow() == SB.Outflow(WireSize(|payload|), old(stream.writePlan))
    {
      hide ClientFrame, FourBits, IsControl;
      QueueIsPending();
      send.Clear();
      OpcodesFit();
      g := Commit(opcode, payload);
      CommitQueues(old(Abs()), g);
      QueueIsPending();
    }

    /** After a complete drain: the transport's own flush, whose outcome is ignored, and shrinking. */
    method Release()
      requires Valid()
      modifies send, stream`flushes
      ensures Valid() && Abs() == old(Abs()) && send.Pending() == old(send.Pending()) && Outflow() == old(Outflow())
      ensures Supply() == old(Supply()) && stream.Pushed() && Writes() == old(Writes()).(pushed := true)
    {
      hide WebSocket.Abs, WebSocket.Supply, WebSocket.Writes;
      var t := PushOut();
      Shrink();
    }

    /** The transport's own flush. */
    method PushOut() returns (t: TransportFlush)
      requires Valid()
      modifies stream`flushes
      ensures Valid() && Abs() == old(Abs()) && send.Pending() == old(send.Pending()) && Outflow() == old(Outflow())
      ensures Supply() == old(Supply()) && stream.Pushed() && Writes() == old(Writes()).(pushed := true)
      ensures stream.flushes == old(stream.flushes) + [ServedFlush(t, |stream.output|)]
    {
      t := stream.FlushTransport();
    }

    /** `maybe_shrink`, for any draw. */
    method Shrink()
      requires Valid()
      modifies send
      ensures Valid() && Abs() == old(Abs()) && send.Pending() == old(send.Pending()) && Outflow() == old(Outflow())
      ensures Supply() == old(Supply()) && Writes() == old(Writes())
    {
      var shrink: bool := *;
      send.MaybeShrink(shrink);
      assert |send.Pending()| == |send.buf| - send.pos;
    }

    /** `send_text` and `send_binary`. */
    method SendText(data: bytes)
      returns (r: Result<SendStatus, CallError>, ghost ls: seq<Label>, ghost f: Option<OutFrame>)
      requires Valid() && |data| < USIZE_LIMIT && Utf8.Valid(data)
      modifies send, this`frames, stream`output, stream`writePlan, stream`servedWrites, stream`hardWrites, stream`flushes
      ensures Valid() && Run(config, old(Abs()), ls) == Some(Abs())
      ensures r.Ok? ==> (r.value == RetryLater <==> f.None?) && (r.value == Done <==> send.Pending() == [])
      ensures r == Ok(Done) ==> stream.Pushed()
      ensures frames == old(frames) + if f.Some? then [f.value] else []
      ensures f.Some? ==> f.value.opcode == OP_TEXT && f.value.payload == data
      ensures forall l | l in ls :: (l.Send? || l.Drain?) && !Outbound.FailedClose(l)
      ensures SendOutcome(old(closeState) == Open, old(Outflow()), WireSize(|data|)) == (Outflow(), r)
      ensures Supply() == old(Supply())
      ensures 0 <= stream.hardWrites - old(stream.hardWrites) <= |old(stream.writePlan)| - |stream.writePlan|
    {
      hide SendOutcome, Run, Outbound.FailedClose;
      r, ls, f := SendFrame(OP_TEXT, data);
    }

    method SendBinary(data: bytes)
      returns (r: Result<SendStatus, CallError>, ghost ls: seq<Label>, ghost f: Option<OutFrame>)
      requires Valid() && |data| < USIZE_LIMIT
      modifies send, this`frames, stream`output, stream`writePlan, stream`servedWrites, stream`hardWrites, stream`flushes
      ensures Valid() && Run(config, old(Abs()), ls) == Some(Abs())
      ensures r.Ok? ==> (r.value == RetryLater <==> f.None?) && (r.value == Done <==> send.Pending() == [])
      ensures r == Ok(Done) ==> stream.Pushed()
      ensures frames == old(frames) + if f.Some? then [f.value] else []
      ensures f.Some? ==> f.value.opcode == OP_BINARY && f.value.payload == data
      ensures forall l | l in ls :: (l.Send? || l.Drain?) && !Outbound.FailedClose(l)
      ensures SendOutcome(old(closeState) == Open, old(Outflow()), WireSize(|data|)) == (Outflow(), r)
      ensures Supply() == old(Supply())
      ensures 0 <= stream.hardWrites - old(stream.hardWrites) <= |old(stream.writePlan)| - |stream.writePlan|
    {
      hide SendOutcome, Run, Outbound.FailedClose;
      r, ls, f := SendFrame(OP_BINARY, data);
    }

    /** `send_ping`: the deadline is armed unless the ping was not built. */
    method SendPing(deadline: int)
      returns (r: Result<SendStatus, CallError>, ghost ls: seq<Label>, ghost f: Option<OutFrame>)
      requires Valid()
      modifies send, this`frames, this`pingDeadline
      modifies stream`output, stream`writePlan, stream`servedWrites, stream`hardWrites, stream`flushes
      ensures Valid() && Run(config, old(Abs()), ls) == Some(Abs())
      ensures r.Ok? ==> (r.value == RetryLater <==> f.None?) && (r.value == Done <==> send.Pending() == [])
      ensures r == Ok(Done) ==> stream.Pushed()
      ensures frames == old(frames) + if f.Some? then [f.value] else []
      ensures f.Some? ==> f.value.opcode == OP_PING && f.value.payload == []
      ensures pingDeadline == if r.Ok? && r.value != RetryLater then Some(deadline) else old(pingDeadline)
      ensures forall l | l in ls :: (l.Send? || l.Drain?) && !Outbound.FailedClose(l)
      ensures SendOutcome(old(closeState) == Open, old(Outflow()), WireSize(0)) == (Outflow(), r)
      ensures Supply() == old(Supply())
      ensures 0 <= stream.hardWrites - old(stream.hardWrites) <= |old(stream.writePlan)| - |stream.writePlan|
    {
      hide SendOutcome, Run, Outbound.FailedClose;
      r, ls, f := SendFrame(OP_PING, []);
      if r.Ok? && r.value != RetryLater {
        pingDeadline := Some(deadline);
      }
    }

    /**
     * `send_close`: once the close frame is written or queued, no data frame may
     * follow.  A flush that fails for good skips the transition.
     */
    method SendClose(code: nat, reason: bytes)
      returns (r: Result<SendStatus, CallError>, ghost ls: seq<Label>, ghost f: Option<OutFrame>)
      requires Valid() && code < 65536 && Utf8.Valid(reason)
      modifies send, this`frames, this`closeState
      modifies stream`output, stream`writePlan, stream`servedWrites, stream`hardWrites, stream`flushes
      ensures Valid() && Run(config, old(Abs()), ls) == Some(Abs())
      ensures ClosePayload(code, reason).Err? ==> r == Err(Fatal(ClosePayload(code, reason).error)) && f.None?
      ensures r.Ok? ==> (r.value == RetryLater <==> f.None?) && (r.value == Done <==> send.Pending() == [])
      ensures r == Ok(Done) ==> stream.Pushed()
      ensures frames == old(frames) + if f.Some? then [f.value] else []
      ensures f.Some? ==> f.value.opcode == OP_CLOSE && ReadClose(f.value.payload) == Ok(CloseInfo(Some(code), reason))
      ensures closeState == if r.Ok? && r.value != RetryLater then CloseSent else old(closeState)
      ensures (exists l | l in ls :: Outbound.FailedClose(l)) ==>
                r.Err? && f.Some? && stream.hardWrites > old(stream.hardWrites)
      ensures forall l | l in ls :: l.Send? || l.Drain?
      ensures match ClosePayload(code, reason)
              case Ok(p) => SendOutcome(old(closeState) == Open, old(Outflow()), WireSize(|p|)) == (Outflow(), r)
              case Err(_) => Outflow() == old(Outflow())
      ensures Supply() == old(Supply())
      ensures 0 <= stream.hardWrites - old(stream.hardWrites) <= |old(stream.writePlan)| - |stream.writePlan|
    {
      hide Run, Outbound.FailedClose, SendOutcome, SB.AfterFlush, ReadClose, ClosePayload;
      ClosePayloadFits(code, reason);
      var payload := ClosePayload(code, reason);
      match payload {
        case Err(e) =>
          RunNothing(config, Abs());
          return Err(Fatal(e)), [], None;
        case Ok(p) =>
          ClosePayloadIsReadBack(code, reason);
          r, ls, f := SendFrame(OP_CLOSE, p);
          if r.Ok? && r.value != RetryLater {
            MarkCloseSent();
          }
      }
    }

    method MarkCloseSent()
      requires Valid() && closeState == Open
      modifies this`closeState
      ensures Valid() && closeState == CloseSent
      ensures Abs() == old(Abs()).(close := CloseSent) && Outflow() == old(Outflow()) && Supply() == old(Supply())
    {
      closeState := CloseSent;
    }

    /**
     * `flush`: drains the queue, then the transport.  What it returns follows from
     * the last write made, if octets stay queued, and else from the transport's flush.
     */
    method Flush() returns (r: Result<SendStatus, CallError>, ghost ls: seq<Label>)
      requires Valid()
      modifies send, stream`output, stream`writePlan, stream`servedWrites, stream`hardWrites, stream`flushes
      ensures Valid() && Run(config, old(Abs()), ls) == Some(Abs())
      ensures send.Pending() != [] ==>
                && old(stream.servedWrites) < stream.servedWrites && stream.flushes == old(stream.flushes)
                && match stream.servedWrites[|stream.servedWrites| - 1]
                   case WriteBlocked => r == Ok(Queued)
                   case Accept(n) => n == 0 && r == Err(Reconnect(ConnClosed))
                   case WriteFailed => r == Err(Reconnect(Io))
                   case WriteInterrupted => false
      ensures send.Pending() == [] ==>
                && |stream.flushes| == |old(stream.flushes)| + 1 && stream.Pushed()
                && match stream.flushes[|stream.flushes| - 1].outcome
                   case FlushDone => r == Ok(Done)
                   case FlushBlocked => r == Ok(Queued)
                   case FlushFailed => r == Err(Reconnect(Io))
      ensures forall l | l in ls :: (l.Send? || l.Drain?) && !Outbound.FailedClose(l)
      ensures Supply() == old(Supply()) && SB.AfterFlush(old(Outflow())).0 == Outflow()
      ensures stream.hardWrites == old(stream.hardWrites) + if r.Err? && send.Pending() != [] then 1 else 0
      ensures 0 <= stream.hardWrites - old(stream.hardWrites) <= |old(stream.writePlan)| - |stream.writePlan|
    {
      hide SB.AfterFlush, Run, Drained, Outbound.FailedClose, WebSocket.Abs, WebSocket.Supply;
      NothingToFlush(Outflow());
      ghost var s := Abs();
      ls := [];
      RunNothing(config, s);
      if send.HasPending() {
        var q;
        ghost var n;
        q, n := DrainQueue();
        ls := [Drain(n)];
        RunDrain(config, s, n);
        match q {
          case Flushed =>
            Shrink();
          case WouldBlock => return Ok(Queued), ls;
          case WriteClosed => return Err(Reconnect(ConnClosed)), ls;
          case WriteError => return Err(Reconnect(Io)), ls;
        }
      }
      var t := PushOut();
      match t {
        case FlushDone => return Ok(Done), ls;
        case FlushBlocked => return Ok(Queued), ls;
        case FlushFailed => return Err(Reconnect(Io)), ls;
      }
    }

    // ----- Receiving -----

    /** Compaction and shrinking at the top of the read loop: no visible effect. */
    method Maintain()
      requires Valid() && !closeState.Closed?
      modifies this`fragmentBin, this`draws, read, text`text
      ensures Valid() && Abs() == old(Abs()) && read.Pending() == old(read.Pending())
      ensures Supply() == R.Maintained(old(Supply()))
      ensures Writes() == old(Writes())
    {
      hide R.Maintained;
      MaintainRead();
      MaintainFragments();
    }

    method MaintainRead()
      requires Valid()
      modifies this`draws, read
      ensures Valid() && Abs() == old(Abs()) && read.Pending() == old(read.Pending())
      ensures Supply() == R.Maintained(old(Supply()))
      ensures Writes() == old(Writes())
    {
      var compacted := read.MaybeCompact(Handshake.MAX_HEADER);
      if compacted {
        ShrinkRead();
      }
    }

    /** `maybe_shrink_capacity`, for the next draw. */
    method ShrinkRead()
      requires Valid() && read.start == 0
      modifies this`draws, read`buf
      ensures Valid() && Abs() == old(Abs()) && read.Pending() == old(read.Pending())
      ensures draws == (if old(draws) == [] then [] else old(draws)[1..])
      ensures |read.buf| == if old(draws) != [] && old(draws)[0] then read.end else old(|read.buf|)
      ensures Writes() == old(Writes())
    {
      var shrink := draws != [] && draws[0];
      draws := if draws == [] then [] else draws[1..];
      read.MaybeShrinkCapacity(shrink);
    }

    /** A reassembly buffer that is not in use may be emptied. */
    method MaintainFragments()
      requires Valid() && !closeState.Closed?
      modifies this`fragmentBin, text`text
      ensures Valid() && Abs() == old(Abs()) && Supply() == old(Supply())
      ensures Writes() == old(Writes())
    {
      if fragmentOpcode == 0 {
        var largeBin: bool, largeText: bool := *, *;
        if largeBin {
          fragmentBin := [];
        }
        if largeText {
          text.ClearText();
        }
      }
    }

    /** `try_flush`: a best-effort drain, recorded as one step. */
    method TryFlush() returns (ghost n: nat)
      requires Valid()
      modifies send`pos, stream`output, stream`writePlan, stream`servedWrites, stream`hardWrites, stream`flushes
      ensures Valid() && n <= |old(Abs()).queue| && Abs() == Drained(old(Abs()), n)
      ensures SB.Answers(old(Writes()), Writes())
    {
      n := send.TryFlush(stream);
      assert stream.output[base..] == old(stream.output[base..]) + old(send.Pending())[..n];
    }

    /** Flood relief for a completed message. */
    method Relieve(len: nat)
      requires Valid()
      modifies this`floodScore
      ensures Valid()
      ensures floodScore == SaturatingSub(old(floodScore), ReliefFor(len))
      ensures var relief := if len < 254 then 1 else len / 127;
              floodScore == if old(floodScore) < relief then 0 else old(floodScore) - relief
    {
      var relief := Max(1, len / SMALL_READ);
      floodScore := if floodScore < relief then 0 else floodScore - relief;
    }

    /** A continuation frame. */
    method OnContinuation(fin: bool, payload: bytes) returns (r: Pass)
      requires Valid() && !closeState.Closed?
      modifies this`fragmentBin, this`fragmentOpcode, this`floodScore, this`delivered, text, text.tail
      ensures Valid() && !r.Blocked?
      ensures Matches(r, old(Abs()), Frame(fin, OP_CONTINUATION, payload))
    {
      hide PushText, Sound, Utf8.Valid;
      if fragmentOpcode == 0 {
        r := Failed(ByError(UnexpectedContinuation));
      } else if fragmentOpcode == OP_TEXT {
        r := ContinueText(fin, payload);
      } else {
        r := ContinueBinary(fin, payload);
      }
    }

    method ContinueText(fin: bool, payload: bytes) returns (r: Pass)
      requires Valid() && !closeState.Closed? && fragmentOpcode == OP_TEXT
      modifies this`fragmentOpcode, this`floodScore, this`delivered, text, text.tail
      ensures Valid() && !r.Blocked?
      ensures Matches(r, old(Abs()), Frame(fin, OP_CONTINUATION, payload))
    {
      hide PushText, Sound, Utf8.Valid, TailOk;
      var total := |text.text| + text.tailLen + |payload|;
      if total > config.maxPayload {
        return Failed(ByError(FragmentedMessageTooLarge(total)));
      }
      var ok := text.Push(payload, fin);
      if !ok {
        return Failed(ByError(InvalidUtf8));
      }
      if fin {
        fragmentOpcode := 0;
        Relieve(|text.text|);
        delivered := delivered + [Text(text.text)];
        return Yield(Text(text.text));
      }
      return Again;
    }

    method ContinueBinary(fin: bool, payload: bytes) returns (r: Pass)
      requires Valid() && !closeState.Closed? && fragmentOpcode == OP_BINARY
      modifies this`fragmentBin, this`fragmentOpcode, this`floodScore, this`delivered
      ensures Valid() && !r.Blocked?
      ensures Matches(r, old(Abs()), Frame(fin, OP_CONTINUATION, payload))
    {
      hide PushText, Sound, Utf8.Valid, TailOk;
      var total := |fragmentBin| + |payload|;
      if total > config.maxPayload {
        return Failed(ByError(FragmentedMessageTooLarge(total)));
      }
      fragmentBin := fragmentBin + payload;
      if fin {
        fragmentOpcode := 0;
        Relieve(|fragmentBin|);
        delivered := delivered + [Binary(fragmentBin)];
        return Yield(Binary(fragmentBin));
      }
      return Again;
    }

    /** The session agrees with the reference on a frame that commits nothing. */
    ghost predicate Matches(r: Pass, s: Endpoint, f: Frame)
      requires Valid() && s.recv.Carried()
      reads this, stream, read, send, text, text.tail
    {
      var t := Abs();
      match OnFrame(s.recv, f, config.maxPayload)
      case Continue(recv) => r == Again && t == s.(recv := recv)
      case Deliver(m) =>
        r == Yield(m)
        && t == s.(recv := Idle, delivered := s.delivered + [m], score := SaturatingSub(s.score, Relief(m)))
      case Finish(info) => false
      case Reject(e) => r == Failed(ByError(e)) && t.(recv := Idle, score := s.score) == s.(recv := Idle)
    }

    /** A text or binary frame. */
    method OnData(fin: bool, opcode: byte, payload: bytes) returns (r: Pass)
      requires Valid() && !closeState.Closed? && (opcode == OP_TEXT || opcode == OP_BINARY)
      modifies this`fragmentBin, this`fragmentOpcode, this`floodScore, this`delivered, text, text.tail
      ensures Valid() && !r.Blocked?
      ensures Matches(r, old(Abs()), Frame(fin, opcode, payload))
    {
      hide PushText, Sound, Utf8.Valid;
      if fragmentOpcode != 0 {
        return Failed(ByError(DataDuringFragmentation));
      }
      if fin {
        Relieve(|payload|);
        if opcode == OP_TEXT && !Utf8.Valid(payload) {
          return Failed(ByError(InvalidUtf8));
        }
        var m := if opcode == OP_TEXT then Text(payload) else Binary(payload);
        delivered := delivered + [m];
        return Yield(m);
      }
      if opcode == OP_TEXT {
        text.Clear();
        var ok := text.Push(payload, false);
        if !ok {
          return Failed(ByError(InvalidUtf8));
        }
      } else {
        fragmentBin := payload;
      }
      fragmentOpcode := opcode;
      return Again;
    }

    /** A close frame: `handle_close`, with the echo that an open connection owes. */
    method OnClose(payload: bytes) returns (r: Pass, ghost mask: bytes, ghost n: nat)
      requires Valid() && !closeState.Closed? && |payload| <= 125
      modifies this`closeState, this`endScore, this`frames, this`delivered
      modifies send, stream`output, stream`writePlan, stream`servedWrites, stream`hardWrites, stream`flushes
      ensures Valid() && |mask| == 4 && |payload| < USIZE_LIMIT
      ensures var p := Process(config, old(Abs()), Frame(true, OP_CLOSE, payload), mask);
              && n <= |p.queue|
              && match ReadClose(payload)
                 case Ok(info) => r == Yield(Close(info)) && Abs() == Drained(p, n)
                 case Err(e) => r == Failed(ByError(e)) && n == 0 && Abs().(close := p.close) == p
      ensures delivered == old(delivered) + if r.Yield? then [r.message] else []
      ensures closeState.Closed? && frames == old(frames) + if old(closeState) != Open || !r.Yield? then []
              else [OutFrame(8, if |payload| < 2 then payload else payload[..2], mask)]
      ensures SB.KeepsUp(old(Writes()), Writes())
    {
      hide ClientFrame, FourBits, IsControl, ReadClose, Drained, Process, Connection.Commit;
      ghost var s := Abs();
      mask, n := [0, 0, 0, 0], 0;
      var echo := closeState == Open;
      closeState, endScore := Closed(ByPeer), floodScore;
      var info := ReadClose(payload);
      match info {
        case Err(e) =>
          ProcessClose(config, s, payload, mask);
          return Failed(ByError(e)), mask, n;
        case Ok(close) =>
          delivered := delivered + [Close(close)];
          ghost var next := Abs();
          DrainNothing(next);
          if echo {
            var code := payload[..Min(|payload|, 2)];
            assert code == if |payload| < 2 then payload else payload[..2];
            mask, n := Echo(code);
          }
          ProcessClose(config, s, payload, mask);
          return Yield(Close(close)), mask, n;
      }
    }

    /** The echo of a close frame: built, then a best-effort drain. */
    method Echo(payload: bytes) returns (ghost mask: bytes, ghost n: nat)
      requires Valid() && |payload| <= 2
      modifies this`frames, send, stream`output, stream`writePlan, stream`servedWrites, stream`hardWrites, stream`flushes
      ensures Valid() && |mask| == 4
      ensures var f := OutFrame(OP_CLOSE, payload, mask);
              && f.WellFormed() && n <= |Connection.Commit(old(Abs()), f).queue|
              && Abs() == Drained(Connection.Commit(old(Abs()), f), n)
      ensures frames == old(frames) + [OutFrame(8, payload, mask)]
      ensures SB.Answers(old(Writes()), Writes())
    {
      hide ClientFrame, FourBits, Drained, Connection.Commit;
      OpcodesFit();
      ghost var f := Commit(OP_CLOSE, payload);
      mask := f.mask;
      n := TryFlush();
    }

    /** A ping: answered while the send buffer has room, then a best-effort drain. */
    method OnPing(payload: bytes) returns (ghost mask: bytes, ghost n: nat)
      requires Valid() && !closeState.Closed? && |payload| <= 125
      modifies this`frames, send, stream`output, stream`writePlan, stream`servedWrites, stream`hardWrites, stream`flushes
      ensures Valid() && |mask| == 4 && |payload| < USIZE_LIMIT
      ensures var p := Process(config, old(Abs()), Frame(true, OP_PING, payload), mask);
              n <= |p.queue| && Abs() == Drained(p, n)
      ensures frames == old(frames) + if |old(send.Pending())| < config.maxBuf then [OutFrame(10, payload, mask)] else []
      ensures SB.Answers(old(Writes()), Writes())
    {
      hide ClientFrame, FourBits, Drained, Process;
      ghost var s := Abs();
      mask := [0, 0, 0, 0];
      if |send.buf| - send.pos < config.maxBuf {
        OpcodesFit();
        ghost var f := Commit(OP_PONG, payload);
        mask := f.mask;
      }
      ProcessPing(config, s, payload, mask);
      n := TryFlush();
    }

    /** The session after a turn, against the state `t` its steps reached. */
    ghost predicate Landed(r: Pass, t: Endpoint)
      requires Valid()
      reads this, stream, read, send, text, text.tail
    {
      match r
      case Failed(why) => why != ByPeer && t == Abs().(close := Closed(why), recv := Idle, score := t.score)
      case _ => t == Abs()
    }

    /** The match on the opcode. */
    method Dispatch(fin: bool, opcode: byte, payload: bytes) returns (r: Pass, ghost mask: bytes, ghost n: nat)
      requires Valid() && !closeState.Closed? && Admissible(Frame(fin, opcode, payload), config.maxPayload)
      modifies this`fragmentBin, this`fragmentOpcode, this`floodScore, this`delivered, this`closeState, this`endScore, this`frames
      modifies text, text.tail, send, stream`output, stream`writePlan, stream`servedWrites, stream`hardWrites, stream`flushes
      ensures Valid() && |mask| == 4 && |payload| < USIZE_LIMIT && !r.Blocked?
      ensures var p := Process(config, old(Abs()), Frame(fin, opcode, payload), mask);
              n <= |p.queue| && Landed(r, Drained(p, n))
      ensures r.Again? || (r.Yield? && !r.message.Close?) ==> !closeState.Closed?
      ensures r.Failed? ==> r.why.ByError?
      ensures delivered == old(delivered) + if r.Yield? then [r.message] else []
      ensures SB.KeepsUp(old(Writes()), Writes())
    {
      hide ClientFrame, FourBits, Drained, PushText, Utf8.Valid, ReadClose, Sound, OnFrame, Process, Admissible;
      ghost var s := Abs();
      ghost var f := Frame(fin, opcode, payload);
      mask, n := [0, 0, 0, 0], 0;
      ControlFrames(f, config.maxPayload);
      if opcode == OP_PING {
        mask, n := OnPing(payload);
        PingKeeps(config, s, payload, mask, n);
        r := Again;
      } else if opcode == OP_CLOSE {
        r, mask, n := OnClose(payload);
        ProcessClose(config, s, payload, mask);
        DrainNothing(Process(config, s, f, mask));
      } else {
        if opcode == OP_CONTINUATION {
          r := OnContinuation(fin, payload);
        } else if opcode == OP_TEXT || opcode == OP_BINARY {
          r := OnData(fin, opcode, payload);
        } else if opcode == OP_PONG {
          r := Again;
        } else {
          r := Failed(ByError(UnknownOpcode(opcode)));
        }
        OtherFrames(s.recv, f, config.maxPayload);
        MatchesLands(r, s, f, mask);
        DrainNothing(Process(config, s, f, mask));
      }
    }

    /** Agreeing with the reference on a frame is landing where the step lands. */
    lemma MatchesLands(r: Pass, s: Endpoint, f: Frame, mask: bytes)
      requires Valid() && s.recv.Carried() && !s.close.Closed? && Matches(r, s, f)
      requires |mask| == 4 && |f.payload| < USIZE_LIMIT && f.opcode != OP_PING
      ensures Landed(r, Process(config, s, f, mask))
      ensures r.Again? || r.Yield? ==> closeState == s.close
      ensures r.Yield? ==> !r.message.Close?
      ensures r.Failed? ==> r.why.ByError?
      ensures delivered == s.delivered + if r.Yield? then [r.message] else []
    {
      hide ClientFrame, PushText, Utf8.Valid, ReadClose, Sound;
      DeliversData(s.recv, f, config.maxPayload);
    }

    /** Reading one frame, as it shows in the connection; `fetched` octets came from the stream. */
    method NextFrame() returns (next: FrameIo.NextFrame, fetched: nat)
      requires Valid() && !closeState.Closed?
      modifies read, stream`input, stream`readPlan, stream`served
      ensures Valid() && fetched == |old(stream.input)| - |stream.input| && |old(stream.served)| <= |stream.served|
      ensures next.Arrived? ==>
                && next.len <= read.start
                && var p := ParseFrame(old(Wire()), config.maxPayload);
                && p.Whole? && p.frame == Frame(next.fin, next.opcode, read.buf[read.start - next.len..read.start])
                && Abs() == old(Abs()).(wire := old(Wire())[p.size..])
      ensures !next.Arrived? ==> Abs() == old(Abs())
      ensures next.Malformed? ==> ParseFrame(Wire(), config.maxPayload) == Bad(next.error)
      ensures next.Stalled? || next.Ended? || next.ReadError? ==>
                && ParseFrame(read.Pending(), config.maxPayload).NeedMore?
                && read.Explains(stream, |old(stream.served)|,
                                 if next.Stalled? then RB.WouldBlock else if next.Ended? then RB.AtEof else RB.IoFailed)
      ensures next.Ended? ==> ParseFrame(Wire(), config.maxPayload).NeedMore?
      ensures var (a, f) := FrameIo.AfterFrame(old(Supply()).intake, old(Wire()), config.maxPayload);
              && f == FrameIo.FillOf(next) && fetched == a.end - old(read.end)
              && Supply() == if next.Arrived? then R.Consumed(R.Supply(a, old(draws)), ParseFrame(old(Wire()), config.maxPayload))
                             else R.Supply(a, old(draws))
      ensures Writes() == old(Writes())
    {
      hide ParseFrame, FrameIo.AfterFrame;
      var oldEnd := read.end;
      next := FrameIo.ReadFrame(read, stream, config.maxPayload);
      fetched := read.end - oldEnd;
    }

    /** The frame at the head of the wire of `s` has just been consumed, its payload still in place. */
    ghost predicate Taken(next: FrameIo.NextFrame, s: Endpoint)
      requires Valid() && s.recv.Carried()
      reads this, stream, read, send, text, text.tail
    {
      && next.Arrived? && next.len <= read.start
      && var p := ParseFrame(s.wire, config.maxPayload);
      && p.Whole? && p.frame == Frame(next.fin, next.opcode, read.buf[read.start - next.len..read.start])
      && Abs() == s.(wire := s.wire[p.size..])
    }

    /** The reading half of a turn: maintenance, then one frame, as a pass fetches it. */
    method FetchNext() returns (next: FrameIo.NextFrame, fetched: nat)
      requires Valid() && !closeState.Closed?
      modifies this`fragmentBin, this`draws, read, text`text, stream`input, stream`readPlan, stream`served
      ensures Valid() && fetched == |old(stream.input)| - |stream.input| && |old(stream.served)| <= |stream.served|
      ensures next.Arrived? ==> Taken(next, old(Abs()))
      ensures next.Arrived? ==> |Wire()| < |old(Wire())|
      ensures !next.Arrived? ==> Abs() == old(Abs())
      ensures next.Malformed? ==> ParseFrame(old(Wire()), config.maxPayload) == Bad(next.error)
      ensures next.Stalled? || next.Ended? || next.ReadError? ==>
                && ParseFrame(read.Pending(), config.maxPayload).NeedMore?
                && read.Explains(stream, |old(stream.served)|,
                                 if next.Stalled? then RB.WouldBlock else if next.Ended? then RB.AtEof else RB.IoFailed)
      ensures next.Ended? ==> ParseFrame(old(Wire()), config.maxPayload).NeedMore?
      ensures var f := R.FetchFrame(config, old(Supply()), old(Wire()));
              && f.fill == FrameIo.FillOf(next) && f.fetched == fetched
              && Supply() == if next.Arrived? then R.Consumed(f.supply, ParseFrame(old(Wire()), config.maxPayload)) else f.supply
      ensures Writes() == old(Writes())
    {
      hide ParseFrame, FrameIo.AfterFrame, R.Maintained, R.Consumed;
      Maintain();
      next, fetched := NextFrame();
    }

    /** One turn of the read loop: at most one frame. */
    method Turn() returns (r: Pass, ghost ls: seq<Label>)
      requires Valid() && !closeState.Closed?
      modifies this`fragmentBin, this`fragmentOpcode, this`floodScore, this`delivered, this`closeState, this`endScore, this`frames
      modifies this`draws, read, text, text.tail, send
      modifies stream`input, stream`readPlan, stream`served
      modifies stream`output, stream`writePlan, stream`servedWrites, stream`hardWrites, stream`flushes
      ensures Valid() && Receives(ls) <= 1
      ensures Run(config, old(Abs()), ls).Some? && Landed(r, Run(config, old(Abs()), ls).value)
      ensures Inbound(ls)
      ensures delivered == old(delivered) + if r.Yield? then [r.message] else []
      ensures r.Again? ==> |Wire()| < |old(Wire())|
      ensures r.Again? || r.Blocked? || (r.Yield? && !r.message.Close?) ==> !closeState.Closed?
      ensures |old(stream.served)| <= |stream.served|
      ensures r.Again? || r.Yield? ==>
                Receives(ls) == 1 && Marked(ls, 1 <= |old(stream.input)| - |stream.input| <= SMALL_READ)
      ensures r.Blocked? ==>
                && ls == [] && ParseFrame(read.Pending(), config.maxPayload).NeedMore?
                && read.Explains(stream, |old(stream.served)|, RB.WouldBlock)
      ensures r == Failed(ByEof) ==> read.Explains(stream, |old(stream.served)|, RB.AtEof)
      ensures R.Pass(config, R.CoreOf(old(Abs())), old(Supply())) == (R.CoreOf(Run(config, old(Abs()), ls).value), Supply())
      ensures r.Blocked? <==> R.Stalls(config, R.CoreOf(old(Abs())), old(Supply()))
      ensures SB.KeepsUp(old(Writes()), Writes())
    {
      hide Run, Enabled, Apply, ParseFrame, Process, Drained, ClientFrame, Admissible, OnFrame, ServerFrame;
      hide Receives, Inbound, Marked, R.FetchFrame, R.OnWire, R.Consumed, R.CoreOf, R.Pass, R.Stalls;
      hide WebSocket.Landed, WebSocket.Taken, WebSocket.Abs, WebSocket.Supply, WebSocket.Wire, WebSocket.Writes;
      hide FrameIo.FillOf, SB.KeepsUp;
      ghost var s, u := Abs(), Supply();
      OpenCore();
      CoreOnWire();
      var next, fetched := FetchNext();
      CoreOnWire();
      r, ls := Settle(next, fetched, s, u);
    }

    /** The other half of a turn, which completes the pass. */
    method Settle(next: FrameIo.NextFrame, fetched: nat, ghost s: Endpoint, ghost u: R.Supply)
      returns (r: Pass, ghost ls: seq<Label>)
      requires Valid() && !closeState.Closed? && s.recv.Carried() && !s.close.Closed?
      requires if next.Arrived? then Taken(next, s) else Abs() == s
      requires next.Ended? ==> ParseFrame(s.wire, config.maxPayload).NeedMore?
      requires next.Malformed? ==> ParseFrame(s.wire, config.maxPayload) == Bad(next.error)
      requires R.CoreOf(s).wire == s.wire && R.InOrder(u)
      requires var f := R.FetchFrame(config, u, s.wire);
               && f.fill == FrameIo.FillOf(next) && f.fetched == fetched
               && Supply() == if next.Arrived? then R.Consumed(f.supply, ParseFrame(s.wire, config.maxPayload)) else f.supply
      modifies this`fragmentBin, this`fragmentOpcode, this`floodScore, this`delivered, this`closeState, this`endScore, this`frames
      modifies text, text.tail, send, stream`output, stream`writePlan, stream`servedWrites, stream`hardWrites, stream`flushes
      ensures Valid() && Receives(ls) <= 1 && Inbound(ls)
      ensures Run(config, s, ls).Some? && Landed(r, Run(config, s, ls).value)
      ensures delivered == old(delivered) + if r.Yield? then [r.message] else []
      ensures r.Again? || r.Blocked? || (r.Yield? && !r.message.Close?) ==> !closeState.Closed?
      ensures r.Blocked? <==> next.Stalled?
      ensures r.Blocked? ==> ls == []
      ensures r == Failed(ByEof) ==> next.Ended?
      ensures r.Again? || r.Yield? ==> next.Arrived? && Receives(ls) == 1 && Marked(ls, Small(fetched))
      ensures R.Pass(config, R.CoreOf(s), u) == (R.CoreOf(Run(config, s, ls).value), Supply())
      ensures r.Blocked? <==> R.Stalls(config, R.CoreOf(s), u)
      ensures Wire() == old(Wire()) && Supply() == old(Supply())
      ensures SB.KeepsUp(old(Writes()), Writes())
    {
      hide Run, Receives, Inbound, Marked, R.CoreOf, R.OnWire, R.Pass, R.Stalls, R.FetchFrame, R.Consumed, ParseFrame;
      hide WebSocket.Landed, WebSocket.Taken, WebSocket.Abs, WebSocket.Supply, WebSocket.Wire;
      match next {
        case Arrived(fin, opcode, len) =>
          r, ls := Handle(fin, opcode, len, fetched, s);
        case _ =>
          r, ls := Nothing(next, s);
      }
      R.CoreFields(s);
      PassFromFetch(config, R.CoreOf(s), u, next, fetched, R.CoreOf(Run(config, s, ls).value));
    }

    /** A turn without a frame: blocked, or the end of the connection. */
    method Nothing(next: FrameIo.NextFrame, ghost s: Endpoint) returns (r: Pass, ghost ls: seq<Label>)
      requires Valid() && !closeState.Closed? && Abs() == s && !next.Arrived?
      requires next.Ended? ==> ParseFrame(s.wire, config.maxPayload).NeedMore?
      requires next.Malformed? ==> ParseFrame(s.wire, config.maxPayload) == Bad(next.error)
      ensures r.Blocked? || r.Failed?
      ensures r.Blocked? <==> next.Stalled?
      ensures r.Blocked? ==> ls == []
      ensures r == Failed(ByEof) ==> next.Ended?
      ensures Inbound(ls) && Receives(ls) <= 1
      ensures Run(config, s, ls).Some? && Landed(r, Run(config, s, ls).value)
      ensures R.CoreOf(Run(config, s, ls).value) == Became(config, R.CoreOf(s), next, 0)
    {
      hide Run, Enabled, Apply, ParseFrame, Receives, Inbound;
      match next {
        case Stalled =>
          RunNothing(config, s);
          return Blocked, [];
        case Ended =>
          RunEnd(config, s, Eof);
          return Failed(ByEof), [Eof];
        case ReadError =>
          RunEnd(config, s, Abort(Io));
          return Failed(ByAbort(Io)), [Abort(Io)];
        case Malformed(e) =>
          RunMalformed(config, s, e);
          return Failed(ByError(e)), [Receive(false, [0, 0, 0, 0])];
      }
    }

    /** Flood accounting for one more frame. */
    method Score(fetched: nat) returns (small: bool)
      requires Valid() && !closeState.Closed?
      modifies this`floodScore
      ensures Valid() && small == Small(fetched) && (small <==> 1 <= fetched <= 127)
      ensures Abs() == old(Abs()).(score := Scored(old(Abs()).score, small)) && floodScore == Abs().score
      ensures floodScore == if small && old(floodScore) > 0 then old(floodScore) else old(floodScore) + 1
      ensures Writes() == old(Writes())
    {
      small := fetched > 0 && fetched <= SMALL_READ;
      if small {
        floodScore := if floodScore < 1 then 0 else floodScore - 1;
      }
      floodScore := floodScore + 1;
    }

    /** The rest of a turn: a frame has just been consumed, its payload still in place. */
    method Handle(fin: bool, opcode: byte, len: nat, fetched: nat, ghost s: Endpoint) returns (r: Pass, ghost ls: seq<Label>)
      requires Valid() && !closeState.Closed? && s.recv.Carried() && !s.close.Closed?
      requires Taken(FrameIo.Arrived(fin, opcode, len), s)
      modifies this`fragmentBin, this`fragmentOpcode, this`floodScore, this`delivered, this`closeState, this`endScore, this`frames
      modifies text, text.tail, send, stream`output, stream`writePlan, stream`servedWrites, stream`hardWrites, stream`flushes
      ensures Valid() && !r.Blocked? && Receives(ls) == 1
      ensures Run(config, s, ls).Some? && Landed(r, Run(config, s, ls).value)
      ensures Inbound(ls) && Marked(ls, Small(fetched))
      ensures delivered == old(delivered) + if r.Yield? then [r.message] else []
      ensures r.Again? || (r.Yield? && !r.message.Close?) ==> !closeState.Closed?
      ensures r != Failed(ByEof)
      ensures R.CoreOf(Run(config, s, ls).value) == R.OnWire(config, R.CoreOf(s), fetched)
      ensures Wire() == old(Wire()) && Supply() == old(Supply())
      ensures SB.KeepsUp(old(Writes()), Writes())
    {
      hide Run, Enabled, Apply, ParseFrame, Process, Drained, ClientFrame, Admissible, OnFrame, ServerFrame;
      hide Receives, Inbound, Marked, R.CoreOf, R.OnWire, WebSocket.Abs, WebSocket.Writes, SB.Answers;
      var small := Score(fetched);
      var payload := read.buf[read.start - len..read.start];
      ghost var mid := Abs();
      WholeIsServerFrame(s.wire, config.maxPayload);
      if floodScore > config.maxFlood {
        RunFlood(config, s, small);
        R.ReceivedCore(config, s, fetched, [0, 0, 0, 0]);
        return Failed(ByAbort(Flood)), [Receive(small, [0, 0, 0, 0])];
      }
      ghost var mask, n;
      r, mask, n := Dispatch(fin, opcode, payload);
      RunFrame(config, s, mid, small, mask, n);
      ls := [Receive(small, mask)] + [Drain(n)];
      R.ReceivedDrainedCore(config, s, fetched, mask, n);
    }

    /** Finishes a partly written frame before reading; a blocked write does not stop the read. */
    method FlushBeforeReading() returns (r: Pass, ghost ls: seq<Label>)
      requires Valid() && !closeState.Closed?
      modifies send, stream`output, stream`writePlan, stream`servedWrites, stream`hardWrites, stream`flushes
      ensures Valid() && Receives(ls) == 0 && Inbound(ls)
      ensures Run(config, old(Abs()), ls).Some? && Landed(r, Run(config, old(Abs()), ls).value)
      ensures r == Again || r == Failed(ByAbort(ConnClosed)) || r == Failed(ByAbort(Io))
      ensures r == Again && old(send.Pending()) != [] ==>
                send.Pending() == [] || send.Explains(stream, |old(stream.servedWrites)|, SB.WouldBlock)
      ensures stream.hardWrites == old(stream.hardWrites) + if r == Again then 0 else 1
      ensures SB.KeepsUp(old(Writes()), Writes()) && (Writes().pending == 0 || SB.Answers(old(Writes()), Writes()))
      ensures Supply() == old(Supply())
      ensures R.CoreOf(Run(config, old(Abs()), ls).value) ==
              if r == Again then R.CoreOf(old(Abs())) else R.End(R.CoreOf(old(Abs())), r.why)
    {
      hide Run, Drained, ParseFrame, R.CoreOf, R.End, WebSocket.Abs, WebSocket.Supply, WebSocket.Writes, SB.Answers;
      WritesAre();
      CoreOnWire();
      ghost var s := Abs();
      RunNothing(config, s);
      r, ls := Again, [];
      if send.HasPending() {
        var q;
        ghost var n;
        q, n := FinishQueue();
        RunDrain(config, s, n);
        R.DrainedThenShut(s, n, ByEof);
        ls := [Drain(n)];
        match q {
          case Flushed =>
          case WouldBlock =>
          case WriteClosed =>
            DrainThenAbort(config, s, n, ConnClosed);
            R.DrainedThenShut(s, n, ByAbort(ConnClosed));
            r, ls := Failed(ByAbort(ConnClosed)), ls + [Abort(ConnClosed)];
          case WriteError =>
            DrainThenAbort(config, s, n, Io);
            R.DrainedThenShut(s, n, ByAbort(Io));
            r, ls := Failed(ByAbort(Io)), ls + [Abort(Io)];
        }
      }
    }

    /** A half-sent frame is drained, and the transport flushed once nothing is left of it. */
    method FinishQueue() returns (q: SB.FlushResult, ghost n: nat)
      requires Valid()
      modifies send, stream`output, stream`writePlan, stream`servedWrites, stream`hardWrites, stream`flushes
      ensures Valid() && n <= |old(Abs()).queue| && Abs() == Drained(old(Abs()), n)
      ensures send.Explains(stream, |old(stream.servedWrites)|, q) && (q == SB.Flushed <==> send.Pending() == [])
      ensures stream.hardWrites == old(stream.hardWrites) + if SB.FailedForGood(q) then 1 else 0
      ensures SB.Answers(old(Writes()), Writes()) && Supply() == old(Supply())
    {
      hide SB.AfterFlush, Drained, WebSocket.Abs, WebSocket.Supply;
      q, n := DrainQueue();
      if q == SB.Flushed {
        Release();
      }
    }

    /**
     * `read_message` of the protocol layer: turns of the loop until something comes
     * of them.  `passes` counts the turns; `cut` tells that the flush before them failed.
     */
    method ReadLoop() returns (r: LoopResult, ghost ls: seq<Label>, ghost passes: nat, ghost cut: Option<Ending>)
      requires Valid() && !closeState.Closed?
      modifies this`fragmentBin, this`fragmentOpcode, this`floodScore, this`delivered, this`closeState, this`endScore, this`frames
      modifies this`draws, read, text, text.tail, send
      modifies stream`input, stream`readPlan, stream`served
      modifies stream`output, stream`writePlan, stream`servedWrites, stream`hardWrites, stream`flushes
      ensures Valid() && Receives(ls) <= config.budget && Inbound(ls)
      ensures Run(config, old(Abs()), ls).Some? && Landed(PassOf(r), Run(config, old(Abs()), ls).value)
      ensures delivered == old(delivered) + if r.Produced? then [r.message] else []
      ensures !r.Broke? && !(r.Produced? && r.message.Close?) ==> !closeState.Closed?
      ensures r.BudgetSpent? ==> Receives(ls) == config.budget == passes
      ensures r.WouldBlock? ==>
                && ParseFrame(read.Pending(), config.maxPayload).NeedMore?
                && read.Explains(stream, |old(stream.served)|, RB.WouldBlock)
                && R.LastStalls(config, R.CoreOf(old(Abs())), old(Supply()), passes)
      ensures R.Reached(config, R.CoreOf(old(Abs())), old(Supply()), passes, cut,
                        R.CoreOf(Run(config, old(Abs()), ls).value), Supply())
      ensures passes <= config.budget && (cut.None? ==> passes >= 1)
      ensures cut.Some? ==> r.Broke? && r.why == cut.value && R.FromOutside(cut.value)
      ensures cut.Some? ==> old(stream.hardWrites) < stream.hardWrites
      ensures SB.KeepsUp(old(Writes()), Writes()) && (Writes().pending == 0 || SB.Answers(old(Writes()), Writes()))
    {
      hide Run, Enabled, Apply, ParseFrame, ClientFrame, Drained, Receives, Inbound, R.Pass, R.Passes, R.CoreOf, R.Stalls;
      hide WebSocket.Abs, WebSocket.Supply, WebSocket.Landed, WebSocket.Wire;
      ghost var s, k, u := Abs(), R.CoreOf(Abs()), Supply();
      OpenCore();
      passes, cut := 0, None;
      R.NoPasses(config, k, u);
      var first;
      first, ls := FlushBeforeReading();
      if first.Failed? {
        return Broke(first.why), ls, 0, Some(first.why);
      }
      LandedIs(first, Run(config, s, ls).value);
      ghost var more;
      ghost var writes, mid := old(Writes()), Writes();
      r, more, passes := Turns();
      SB.KeepsUpThen(writes, mid, Writes());
      RunAppend(config, s, ls, more);
      ReceivesAppend(ls, more);
      ls := ls + more;
    }

    /** The loop itself. */
    method Turns() returns (r: LoopResult, ghost ls: seq<Label>, ghost passes: nat)
      requires Valid() && !closeState.Closed?
      modifies this`fragmentBin, this`fragmentOpcode, this`floodScore, this`delivered, this`closeState, this`endScore, this`frames
      modifies this`draws, read, text, text.tail, send
      modifies stream`input, stream`readPlan, stream`served
      modifies stream`output, stream`writePlan, stream`servedWrites, stream`hardWrites, stream`flushes
      ensures Valid() && Receives(ls) <= passes && Inbound(ls) && 1 <= passes <= config.budget
      ensures Run(config, old(Abs()), ls).Some? && Landed(PassOf(r), Run(config, old(Abs()), ls).value)
      ensures delivered == old(delivered) + if r.Produced? then [r.message] else []
      ensures !r.Broke? && !(r.Produced? && r.message.Close?) ==> !closeState.Closed?
      ensures r.BudgetSpent? ==> Receives(ls) == config.budget == passes
      ensures r.WouldBlock? ==>
                && ParseFrame(read.Pending(), config.maxPayload).NeedMore?
                && read.Explains(stream, |old(stream.served)|, RB.WouldBlock)
                && R.LastStalls(config, R.CoreOf(old(Abs())), old(Supply()), passes)
      ensures R.Passes(config, R.CoreOf(old(Abs())), old(Supply()), passes)
           == (R.CoreOf(Run(config, old(Abs()), ls).value), Supply())
      ensures SB.KeepsUp(old(Writes()), Writes())
    {
      hide Run, Enabled, Apply, ParseFrame, ClientFrame, Drained, Receives, Inbound, R.Pass, R.Passes, R.CoreOf, R.Stalls;
      hide WebSocket.Abs, WebSocket.Supply, WebSocket.Landed, WebSocket.Wire;
      ghost var s, k, u, writes := Abs(), R.CoreOf(Abs()), Supply(), Writes();
      OpenCore();
      RunNothing(config, s);
      R.NoPasses(config, k, u);
      ls, passes := [], 0;
      var budget := config.budget;
      while true
        invariant Valid() && !closeState.Closed? && config == old(config) && stream == old(stream)
        invariant Run(config, s, ls) == Some(Abs()) && Inbound(ls)
        invariant 1 <= budget <= config.budget && Receives(ls) == passes == config.budget - budget
        invariant delivered == old(delivered) && |old(stream.served)| <= |stream.served|
        invariant R.Passes(config, k, u, passes) == (R.CoreOf(Abs()), Supply())
        invariant SB.KeepsUp(writes, Writes())
        decreases |Wire()|
      {
        ghost var more;
        ghost var mid := Writes();
        var pass;
        pass, more := Turn();
        SB.KeepsUpThen(writes, mid, Writes());
        RunAppend(config, s, ls, more);
        ReceivesAppend(ls, more);
        R.OnePassMore(config, k, u, passes);
        ls := ls + more;
        passes := passes + 1;
        LandedIs(pass, Run(config, s, ls).value);
        match pass {
          case Again =>
          case Yield(m) => return Produced(m), ls, passes;
          case Blocked => return WouldBlock, ls, passes;
          case Failed(why) => return Broke(why), ls, passes;
        }
        budget := if budget < 1 then 0 else budget - 1;
        if budget == 0 {
          return BudgetSpent, ls, passes;
        }
      }
    }

    /** A blocked read: the connection is given up if a ping has gone unanswered for too long. */
    method OnSilence(now: int) returns (r: Result<ReadStatus, CallError>, ghost ls: seq<Label>)
      requires Valid() && !closeState.Closed?
      modifies this`pingDeadline, this`closeState, this`endScore
      ensures Valid() && Run(config, old(Abs()), ls) == Some(Abs()) && Receives(ls) == 0
      ensures Inbound(ls)
      ensures if old(pingDeadline).Some? && now >= old(pingDeadline).value
              then r == Err(Reconnect(PingTimeout)) && closeState == Closed(ByAbort(PingTimeout))
              else r == Ok(Quiet) && pingDeadline == old(pingDeadline) && !closeState.Closed?
      ensures R.CoreOf(Abs()) == if r.Ok? then R.CoreOf(old(Abs())) else R.End(R.CoreOf(old(Abs())), ByAbort(PingTimeout))
      ensures Supply() == old(Supply())
    {
      hide Run, ParseFrame;
      ghost var s := Abs();
      RunNothing(config, s);
      if pingDeadline.Some? && now >= pingDeadline.value {
        RunEnd(config, s, Abort(PingTimeout));
        pingDeadline := None;
        closeState, endScore := Closed(ByAbort(PingTimeout)), floodScore;
        return Err(Reconnect(PingTimeout)), [Abort(PingTimeout)];
      }
      return Ok(Quiet), [];
    }

    /** A frame was received, or a message: the ping deadline is met. */
    method ClearDeadline()
      requires Valid()
      modifies this`pingDeadline
      ensures Valid() && Abs() == old(Abs()) && Supply() == old(Supply()) && pingDeadline == None
    {
      pingDeadline := None;
    }

    /** What is known of the core without its definition. */
    lemma OpenCore()
      requires Valid()
      ensures var k := R.CoreOf(Abs()); k.recv.Carried() && (k.ended == None <==> !closeState.Closed?)
    {}

    lemma CoreOnWire()
      requires Valid()
      ensures R.CoreOf(Abs()).wire == Abs().wire == Wire() && Abs().recv.Carried() && Abs().close == closeState
    {}

    lemma WritesAre()
      requires Valid()
      ensures Writes().served == stream.servedWrites && (Writes().pending == 0 <==> send.Pending() == [])
    {}

    lemma QueueIsPending()
      requires Valid()
      ensures Abs().queue == send.Pending()
    {}

    lemma LandedIs(r: Pass, t: Endpoint)
      requires Valid() && Landed(r, t)
      ensures !r.Failed? ==> t == Abs()
      ensures r.Failed? ==> r.why != ByPeer
    {}

    /** An error closes the connection. */
    method GiveUp(why: Ending, ghost t: Endpoint)
      requires Valid() && Landed(Failed(why), t)
      modifies this`closeState, this`endScore
      ensures Valid() && Abs() == t && closeState == Closed(why) && Supply() == old(Supply())
    {
      closeState, endScore := Closed(why), t.score;
    }

    /**
     * `read_message`.  `now` is the clock reading that a blocked read compares
     * with the ping deadline.  `passes` counts the turns of the loop; `cut` tells
     * that a write failure or a missed ping deadline ended the connection.
     */
    method ReadMessage(now: int)
      returns (r: Result<ReadStatus, CallError>, ghost ls: seq<Label>, ghost passes: nat, ghost cut: Option<Ending>)
      requires Valid()
      modifies this`fragmentBin, this`fragmentOpcode, this`floodScore, this`delivered, this`closeState, this`endScore, this`frames
      modifies this`pingDeadline, this`draws, read, text, text.tail, send
      modifies stream`input, stream`readPlan, stream`served
      modifies stream`output, stream`writePlan, stream`servedWrites, stream`hardWrites, stream`flushes
      ensures Valid() && Receives(ls) <= config.budget && Inbound(ls)
      ensures Run(config, old(Abs()), ls) == Some(Abs())
      ensures old(closeState).Closed? <==> r == Err(Fatal(Closing))
      ensures delivered == old(delivered) + if r.Ok? && r.value.Received? then [r.value.message] else []
      ensures r.Ok? && !(r.value.Received? && r.value.message.Close?) ==> !closeState.Closed?
      ensures r.Err? && !old(closeState).Closed? ==>
                && closeState.Closed? && r.error.Reconnect?
                && match closeState.why
                   case ByError(e) => r.error.error == e
                   case ByEof => r.error.error == ConnClosed
                   case ByAbort(e) => r.error.error == e
                   case ByPeer => false
      ensures r == Ok(Quiet) ==>
                || (Receives(ls) == config.budget == passes && pingDeadline == None)
                || (&& ParseFrame(read.Pending(), config.maxPayload).NeedMore?
                    && read.Explains(stream, |old(stream.served)|, RB.WouldBlock)
                    && R.LastStalls(config, R.CoreOf(old(Abs())), old(Supply()), passes)
                    && pingDeadline == old(pingDeadline)
                    && (pingDeadline.Some? ==> now < pingDeadline.value))
      ensures r.Ok? && r.value.Received? ==> pingDeadline == None
      ensures R.Reached(config, R.CoreOf(old(Abs())), old(Supply()), passes, cut, R.CoreOf(Abs()), Supply())
      ensures passes <= config.budget && (!old(closeState).Closed? && cut.None? ==> passes >= 1)
      ensures cut.Some? ==>
                || (cut == Some(ByAbort(PingTimeout)) && old(pingDeadline).Some? && now >= old(pingDeadline).value)
                || old(stream.hardWrites) < stream.hardWrites
      ensures cut.Some? ==> R.FromOutside(cut.value)
      ensures old(pingDeadline) == None ==> pingDeadline == None
      ensures 0 <= stream.hardWrites - old(stream.hardWrites) <= |old(stream.writePlan)| - |stream.writePlan|
      ensures !old(closeState).Closed? ==>
                || (send.Pending() == [] && (|stream.output| == |old(stream.output)| || stream.Pushed()))
                || Refused(stream.servedWrites, |old(stream.servedWrites)|)
    {
      hide Run, Enabled, Apply, ParseFrame, ClientFrame, Drained, Receives, Inbound;
      hide R.Passes, R.CoreOf, R.LastStalls, WebSocket.Abs, WebSocket.Supply, WebSocket.Landed;
      OpenCore();
      if closeState.Closed? {
        RunNothing(config, Abs());
        R.NoPasses(config, R.CoreOf(Abs()), Supply());
        return Err(Fatal(Closing)), [], 0, None;
      }
      var loop;
      ghost var before, late;
      loop, before, passes, cut := ReadLoop();
      r, ls, late := Answer(loop, now, old(Abs()), before);
      if late {
        cut := Some(ByAbort(PingTimeout));
      }
    }

    /** What a call returns for what the loop came to.  `late`: the ping deadline was missed. */
    method Answer(loop: LoopResult, now: int, ghost s: Endpoint, ghost before: seq<Label>)
      returns (r: Result<ReadStatus, CallError>, ghost ls: seq<Label>, ghost late: bool)
      requires Valid() && s.recv.Carried() && Inbound(before) && Run(config, s, before).Some?
      requires Landed(PassOf(loop), Run(config, s, before).value)
      requires !loop.Broke? && !(loop.Produced? && loop.message.Close?) ==> !closeState.Closed?
      modifies this`pingDeadline, this`closeState, this`endScore
      ensures Valid() && Run(config, s, ls) == Some(Abs()) && Inbound(ls) && Receives(ls) == Receives(before)
      ensures late <==> loop.WouldBlock? && old(pingDeadline).Some? && now >= old(pingDeadline).value
      ensures match loop
              case Produced(m) => r == Ok(Received(m)) && pingDeadline == None && closeState == old(closeState)
              case BudgetSpent => r == Ok(Quiet) && pingDeadline == None && closeState == old(closeState)
              case WouldBlock =>
                if late then r == Err(Reconnect(PingTimeout)) && closeState == Closed(ByAbort(PingTimeout))
                else r == Ok(Quiet) && pingDeadline == old(pingDeadline) && !closeState.Closed?
              case Broke(why) =>
                && why != ByPeer && r == Err(Reconnect(ErrorOf(why)))
                && closeState == Closed(why) && pingDeadline == old(pingDeadline)
      ensures old(pingDeadline) == None ==> pingDeadline == None
      ensures Supply() == old(Supply())
      ensures var k := R.CoreOf(Run(config, s, before).value);
              if late then k.ended == None && R.CoreOf(Abs()) == R.End(k, ByAbort(PingTimeout)) else R.CoreOf(Abs()) == k
    {
      hide Run, Inbound, Receives, R.CoreOf, WebSocket.Abs, WebSocket.Supply, WebSocket.Landed;
      LandedIs(PassOf(loop), Run(config, s, before).value);
      ls, late := before, false;
      match loop {
        case Produced(m) =>
          ClearDeadline();
          r := Ok(Received(m));
        case BudgetSpent =>
          ClearDeadline();
          r := Ok(Quiet);
        case WouldBlock =>
          r, ls := Silent(now, before, s);
          late := r.Err?;
        case Broke(why) =>
          GiveUp(why, Run(config, s, before).value);
          r := Err(Reconnect(ErrorOf(why)));
      }
    }

    /** The end of a call whose read blocked. */
    method Silent(now: int, ghost before: seq<Label>, ghost s: Endpoint)
      returns (r: Result<ReadStatus, CallError>, ghost ls: seq<Label>)
      requires Valid() && !closeState.Closed? && s.recv.Carried() && Inbound(before) && Run(config, s, before) == Some(Abs())
      modifies this`pingDeadline, this`closeState, this`endScore
      ensures Valid() && Run(config, s, ls) == Some(Abs()) && Inbound(ls) && Receives(ls) == Receives(before)
      ensures if old(pingDeadline).Some? && now >= old(pingDeadline).value
              then r == Err(Reconnect(PingTimeout)) && closeState == Closed(ByAbort(PingTimeout))
              else r == Ok(Quiet) && pingDeadline == old(pingDeadline) && !closeState.Closed?
      ensures R.CoreOf(old(Abs())).ended == None && Supply() == old(Supply())
      ensures R.CoreOf(Abs()) == if r.Ok? then R.CoreOf(old(Abs())) else R.End(R.CoreOf(old(Abs())), ByAbort(PingTimeout))
    {
      hide Run, Inbound, Receives, R.CoreOf, WebSocket.Reassembly;
      R.CoreFields(Abs());
      ghost var more;
      r, more := OnSilence(now);
      RunAppend(config, s, before, more);
      ReceivesAppend(before, more);
      ls := before + more;
    }

    // ----- Reuse and configuration -----

    /** `disconnect`: queued data is discarded, the configuration stays. */
    method Disconnect()
      requires Valid()
      modifies this, read, send, text
      ensures Valid() && config == old(config) && stream == old(stream)
      ensures read.Pending() == [] && send.Pending() == [] && Reassembly() == Idle
      ensures closeState == Open && floodScore == 0 && pingDeadline == None
      ensures Supply() == R.Unread(|old(read.buf)|, |stream.input|, stream.readPlan, old(draws))
    {
      read.Clear();
      send.Clear();
      fragmentBin := [];
      text.Clear();
      fragmentOpcode, closeState, floodScore, pingDeadline := 0, Open, 0, None;
    }

    /**
     * `with_stream` after `disconnect`: the state of a client that never served
     * another stream, except that the read buffer keeps its length.
     */
    method Reuse(next: Stream)
      requires Valid()
      modifies this, read, send, text
      ensures Valid() && config == old(config) && stream == next
      ensures Abs() == Fresh(next.input) && pingDeadline == None
      ensures Supply() == R.Unread(|old(read.buf)|, |next.input|, next.readPlan, old(draws))
    {
      Disconnect();
      stream := next;
      base, frames, delivered := |next.output|, [], [];
    }

    /** The builder methods clamp, so that a configured client is always within its limits. */
    method Configure(maxPayload: nat, maxBuf: nat, budget: nat, maxFlood: nat)
      requires Valid()
      modifies this`config
      ensures Valid() && Abs() == old(Abs()) && Supply() == old(Supply())
      ensures config.maxPayload == if maxPayload < 125 then 125
                                   else if maxPayload > 9223372036854775807 then 9223372036854775807 else maxPayload
      ensures config.maxBuf == (if maxBuf < 125 then 125 else maxBuf) && config.budget == (if budget == 0 then 1 else budget)
      ensures config.maxFlood == maxFlood
    {
      var payload := Min(Max(maxPayload, 125), ISIZE_MAX);
      config := Config(payload, Max(maxBuf, 125), Max(budget, 1), maxFlood);
    }
  }

  /** Only close frames deliver a close. */
  lemma DeliversData(recv: Recv, f: Frame, maxPayload: nat)
    requires recv.Carried()
    ensures var e := OnFrame(recv, f, maxPayload); e.Deliver? ==> !e.message.Close?
  {}

  /** Pongs are ignored; other opcodes are refused. */
  lemma OtherFrames(recv: Recv, f: Frame, maxPayload: nat)
    requires recv.Carried()
    ensures f.opcode == OP_PONG ==> OnFrame(recv, f, maxPayload) == Continue(recv)
    ensures f.opcode != OP_CONTINUATION && f.opcode != OP_TEXT && f.opcode != OP_BINARY && f.opcode != OP_CLOSE
            && f.opcode != OP_PING && f.opcode != OP_PONG ==>
              OnFrame(recv, f, maxPayload) == Reject(UnknownOpcode(f.opcode))
  {}

  lemma PingKeeps(c: Config, s: Endpoint, payload: bytes, mask: bytes, n: nat)
    requires s.recv.Carried() && |mask| == 4 && |payload| < USIZE_LIMIT
    requires n <= |Process(c, s, Frame(true, OP_PING, payload), mask).queue|
    ensures var t := Drained(Process(c, s, Frame(true, OP_PING, payload), mask), n);
            t.close == s.close && t.delivered == s.delivered
  {
    hide ClientFrame;
  }

  /** What the reference does with a close frame. */
  lemma ProcessClose(c: Config, s: Endpoint, payload: bytes, mask: bytes)
    requires s.recv.Carried() && |mask| == 4 && |payload| < USIZE_LIMIT
    ensures var f := OutFrame(OP_CLOSE, payload[..Min(|payload|, 2)], mask);
            && f.WellFormed()
            && Process(c, s, Frame(true, OP_CLOSE, payload), mask) ==
               match ReadClose(payload)
               case Err(e) => Shut(s, ByError(e))
               case Ok(info) =>
                 var next := Shut(s, ByPeer).(delivered := s.delivered + [Close(info)]);
                 if s.close == Open then Connection.Commit(next, f) else next
  {
    hide ClientFrame, ReadClose;
    OpcodesFit();
  }

  /** The turn that ended the loop. */
  function PassOf(r: LoopResult): Pass {
    match r
    case Produced(m) => Yield(m)
    case BudgetSpent => Again
    case WouldBlock => Blocked
    case Broke(why) => Failed(why)
  }

  /** What a commit leaves to be drained. */
  lemma CommitQueues(s: Endpoint, g: OutFrame)
    requires g.WellFormed()
    ensures var t := Connection.Commit(s, g);
            && t.frames == s.frames + [g] && (s.queue == [] ==> |t.queue| == WireSize(|g.payload|))
            && t.close == s.close
  {}

  lemma DrainThenAbort(c: Config, s: Endpoint, n: nat, e: ConnError)
    requires c.Ok() && s.recv.Carried() && n <= |s.queue| && !s.close.Closed? && (e == Io || e == ConnClosed)
    ensures Run(c, s, [Drain(n)] + [Abort(e)]) == Some(Shut(Drained(s, n), ByAbort(e)))
    ensures Receives([Drain(n)] + [Abort(e)]) == 0 && Inbound([Drain(n)] + [Abort(e)])
  {
    hide ParseFrame;
    RunOne(c, s, Drain(n));
    RunSnoc(c, s, [Drain(n)], Abort(e));
    ReceivesSnoc([], Drain(n));
    ReceivesSnoc([Drain(n)], Abort(e));
    assert [] + [Drain(n)] == [Drain(n)];
  }

  lemma {:induction false} ReceivesAppend(xs: seq<Label>, ys: seq<Label>)
    ensures Receives(xs + ys) == Receives(xs) + Receives(ys)
    ensures Inbound(xs) && Inbound(ys) ==> Inbound(xs + ys)
    decreases |ys|
  {
    if ys == [] {
      assert xs + ys == xs;
    } else {
      assert (xs + ys)[..|xs + ys| - 1] == xs + ys[..|ys| - 1];
      ReceivesAppend(xs, ys[..|ys| - 1]);
    }
  }

  /** Steps taken while reading: no user frame is built. */
  predicate Inbound(ls: seq<Label>) {
    forall l | l in ls :: !l.Send?
  }

  /** Every frame processed counts as a small read exactly if `small`. */
  predicate Marked(ls: seq<Label>, small: bool) {
    forall l | l in ls :: l.Receive? ==> l.small == small
  }

  /** Frames processed by a list of steps. */
  function Receives(ls: seq<Label>): nat {
    if ls == [] then 0 else Receives(ls[..|ls| - 1]) + if ls[|ls| - 1].Receive? then 1 else 0
  }

  lemma ReceivesSnoc(ls: seq<Label>, l: Label)
    ensures Receives(ls + [l]) == Receives(ls) + if l.Receive? then 1 else 0
  {
    assert (ls + [l])[..|ls|] == ls;
  }

  lemma RunEnd(c: Config, s: Endpoint, l: Label)
    requires c.Ok() && s.recv.Carried() && !s.close.Closed?
    requires (l == Eof && ParseFrame(s.wire, c.maxPayload).NeedMore?)
             || (l.Abort? && (l.error == Io || l.error == ConnClosed || l.error == PingTimeout))
    ensures Run(c, s, [l]) == Some(Shut(s, if l == Eof then ByEof else ByAbort(l.error)))
    ensures Receives([l]) == 0 && Inbound([l])
  {
    hide ParseFrame;
    RunOne(c, s, l);
  }

  lemma RunMalformed(c: Config, s: Endpoint, e: ConnError)
    requires c.Ok() && s.recv.Carried() && !s.close.Closed? && ParseFrame(s.wire, c.maxPayload) == Bad(e)
    ensures Run(c, s, [Receive(false, [0, 0, 0, 0])]) == Some(Shut(s, ByError(e)))
    ensures Receives([Receive(false, [0, 0, 0, 0])]) == 1 && Inbound([Receive(false, [0, 0, 0, 0])])
  {
    hide ParseFrame;
    RunOne(c, s, Receive(false, [0, 0, 0, 0]));
  }

  /** A frame that trips the flood limit. */
  lemma RunFlood(c: Config, s: Endpoint, small: bool)
    requires c.Ok() && s.recv.Carried() && !s.close.Closed? && ParseFrame(s.wire, c.maxPayload).Whole?
    requires Scored(s.score, small) > c.maxFlood
    ensures var mid := s.(wire := s.wire[ParseFrame(s.wire, c.maxPayload).size..], score := Scored(s.score, small));
            Run(c, s, [Receive(small, [0, 0, 0, 0])]) == Some(Shut(mid, ByAbort(Flood)))
    ensures var ls := [Receive(small, [0, 0, 0, 0])]; Receives(ls) == 1 && Inbound(ls) && Marked(ls, small)
  {
    hide ParseFrame;
    RunOne(c, s, Receive(small, [0, 0, 0, 0]));
  }

  /** A frame that is processed, followed by a drain. */
  lemma RunFrame(c: Config, s: Endpoint, mid: Endpoint, small: bool, mask: bytes, n: nat)
    requires c.Ok() && s.recv.Carried() && !s.close.Closed? && |mask| == 4
    requires ParseFrame(s.wire, c.maxPayload).Whole? && Scored(s.score, small) <= c.maxFlood
    requires |ParseFrame(s.wire, c.maxPayload).frame.payload| < USIZE_LIMIT
    requires mid == s.(wire := s.wire[ParseFrame(s.wire, c.maxPayload).size..], score := Scored(s.score, small))
    requires n <= |Process(c, mid, ParseFrame(s.wire, c.maxPayload).frame, mask).queue|
    ensures Run(c, s, [Receive(small, mask)] + [Drain(n)])
         == Some(Drained(Process(c, mid, ParseFrame(s.wire, c.maxPayload).frame, mask), n))
    ensures var ls := [Receive(small, mask)] + [Drain(n)]; Receives(ls) == 1 && Inbound(ls) && Marked(ls, small)
  {
    hide ParseFrame, Process, Receives, Inbound, Marked;
    FrameLabels(small, mask, n);
    RunOne(c, s, Receive(small, mask));
    RunSnoc(c, s, [Receive(small, mask)], Drain(n));
  }

  lemma FrameLabels(small: bool, mask: bytes, n: nat)
    ensures var ls := [Receive(small, mask)] + [Drain(n)]; Receives(ls) == 1 && Inbound(ls) && Marked(ls, small)
  {
    ReceivesSnoc([], Receive(small, mask));
    ReceivesSnoc([Receive(small, mask)], Drain(n));
    assert [] + [Receive(small, mask)] == [Receive(small, mask)];
  }

  lemma ControlFrames(f: Frame, maxPayload: nat)
    requires Admissible(f, maxPayload)
    ensures |f.payload| <= maxPayload && (f.opcode == OP_PING || f.opcode == OP_CLOSE ==> f.fin && |f.payload| <= 125)
  {}

  /** What the reference does with a ping. */
  lemma ProcessPing(c: Config, s: Endpoint, payload: bytes, mask: bytes)
    requires s.recv.Carried() && |mask| == 4 && |payload| < USIZE_LIMIT
    ensures OutFrame(OP_PONG, payload, mask).WellFormed()
    ensures Process(c, s, Frame(true, OP_PING, payload), mask)
         == if |s.queue| < c.maxBuf then Connection.Commit(s, OutFrame(OP_PONG, payload, mask)) else s
  {
    hide ClientFrame;
    OpcodesFit();
  }

  /** The drain outcome behind a send result. */
  function FlushOf(r: Result<SendStatus, CallError>): SB.FlushResult {
    match r
    case Ok(Done) => SB.Flushed
    case Ok(_) => SB.WouldBlock
    case Err(Reconnect(ConnClosed)) => SB.WriteClosed
    case Err(_) => SB.WriteError
  }

  lemma RunNothing(c: Config, s: Endpoint)
    requires c.Ok() && s.recv.Carried()
    ensures Run(c, s, []) == Some(s)
    ensures Receives([]) == 0 && Inbound([])
  {}

  lemma RunDrain(c: Config, s: Endpoint, n: nat)
    requires c.Ok() && s.recv.Carried() && n <= |s.queue|
    ensures Run(c, s, [Drain(n)]) == Some(Drained(s, n))
    ensures forall l | l in [Drain(n)] :: !Outbound.FailedClose(l)
  {
    RunOne(c, s, Drain(n));
  }

  lemma DrainNothing(s: Endpoint)
    ensures Drained(s, 0) == s
  {}

  lemma SendFailsOnlyForClose(n: nat, g: OutFrame, hard: bool, m: nat)
    ensures forall l | l in [Drain(n)] + [Send(g, hard)] + [Drain(m)] :: Outbound.FailedClose(l) ==> SendsClose(g) && hard
  {}

  /** What a turn makes of what its reading half found. */
  function Became(c: Config, k: R.Core, next: FrameIo.NextFrame, fetched: nat): R.Core
    requires k.recv.Carried()
  {
    match next
    case Stalled => k
    case Ended => R.End(k, ByEof)
    case ReadError => R.End(k, ByAbort(Io))
    case Malformed(e) => R.End(k, ByError(e))
    case Arrived(_, _, _) => R.OnWire(c, k, fetched)
  }

  /** What the reading half found and what became of it, as one pass. */
  lemma PassFromFetch(c: Config, k: R.Core, u: R.Supply, next: FrameIo.NextFrame, fetched: nat, t: R.Core)
    requires k.recv.Carried() && k.ended == None && R.InOrder(u)
    requires var f := R.FetchFrame(c, u, k.wire); f.fill == FrameIo.FillOf(next) && f.fetched == fetched
    requires next.Malformed? ==> ParseFrame(k.wire, c.maxPayload) == Bad(next.error)
    requires t == Became(c, k, next, fetched)
    ensures var f := R.FetchFrame(c, u, k.wire);
            R.Pass(c, k, u) == (t, if next.Arrived? then R.Consumed(f.supply, ParseFrame(k.wire, c.maxPayload)) else f.supply)
    ensures R.Stalls(c, k, u) <==> next.Stalled?
  {
    hide ParseFrame, OnFrame, R.FetchFrame;
  }

  lemma ClosePayloadFits(code: nat, reason: bytes)
    requires code < 65536
    ensures ClosePayload(code, reason).Ok? ==> 2 <= |ClosePayload(code, reason).value| <= 125
  {}

  lemma NothingToFlush(o: SB.Outflow)
    ensures o.pending == 0 ==> SB.AfterFlush(o) == (o, SB.Flushed)
  {}

  /** What a send comes to, from the octets queued and the stream's events: a drain, then the new frame. */
  function SendOutcome(open: bool, o: SB.Outflow, size: nat): (SB.Outflow, Result<SendStatus, CallError>) {
    if !open then (o, Err(Fatal(Closing)))
    else
      var (a, f) := SB.AfterFlush(o);
      match f
      case WouldBlock => (a, Ok(RetryLater))
      case WriteClosed => (a, Err(Reconnect(ConnClosed)))
      case WriteError => (a, Err(Reconnect(Io)))
      case Flushed =>
        var (b, g) := SB.AfterFlush(SB.Outflow(size, a.plan));
        (b, match g
            case Flushed => Ok(Done)
            case WouldBlock => Ok(Queued)
            case WriteClosed => Err(Reconnect(ConnClosed))
            case WriteError => Err(Reconnect(Io)))
  }

  lemma OpcodesFit()
    ensures FourBits(OP_TEXT) && FourBits(OP_BINARY)
    ensures FourBits(OP_PING) && FourBits(OP_PONG) && FourBits(OP_CLOSE)
  {}

  /** Building a user frame and draining part of it, as two more steps of a run. */
  lemma UserFrameSteps(c: Config, s: Endpoint, ls: seq<Label>, g: OutFrame, hard: bool, m: nat)
    requires c.Ok() && s.recv.Carried() && Run(c, s, ls).Some?
    requires var t := Run(c, s, ls).value; t.close == Open && t.queue == []
    requires UserFrame(g) && m <= WireSize(|g.payload|)
    ensures m <= |Connection.Commit(Run(c, s, ls).value, g).queue|
    ensures var t := Run(c, s, ls).value;
            Run(c, s, ls + [Send(g, hard)] + [Drain(m)])
            == Some(Drained(Connection.Commit(t, g), m).(close := if SendsClose(g) && !hard then CloseSent else Open))
  {
    hide ClientFrame, ParseFrame;
    var t := Run(c, s, ls).value;
    RunSnoc(c, s, ls, Send(g, hard));
    RunSnoc(c, s, ls + [Send(g, hard)], Drain(m));
  }
}
