/**
 * The connection as a labelled transition system: every observable effect of
 * the client's methods is a step, and the methods of `WebSocket` are proved to
 * perform only such steps.  What holds of every run of these steps therefore
 * holds of every use of the client.
 */
module Connection {
  import opened Bytes
  import opened Frames
  import opened Messages

  /** `SMALL_READ_THRESHOLD`: the size of the largest control frame. */
  const SMALL_READ: nat := 127

  datatype Config = Config(maxPayload: nat, maxBuf: nat, budget: nat, maxFlood: nat) {
    /** What the clamping setters establish. */
    predicate Ok() {
      125 <= maxPayload <= ISIZE_MAX && 125 <= maxBuf && 1 <= budget
    }
  }

  /** A pass that fetched this many octets counts as a trickle. */
  predicate Small(fetched: nat) {
    1 <= fetched <= SMALL_READ
  }

  /** Why a connection is closed; the program keeps only the fact. */
  datatype Ending = ByPeer | ByError(error: ConnError) | ByEof | ByAbort(error: ConnError)

  datatype CloseState = Open | CloseSent | Closed(why: Ending)

  /**
   * `wire`: octets from the peer not yet consumed, whether buffered or still to
   * arrive.  `sent` and `queue`: octets the stream has accepted, and octets
   * waiting in the send buffer.  `frames` and `delivered` record the history.
   */
  datatype Endpoint = Endpoint(
    wire: bytes,
    recv: Recv,
    close: CloseState,
    score: nat,
    sent: bytes,
    queue: bytes,
    frames: seq<OutFrame>,
    delivered: seq<Message>)

  function Fresh(wire: bytes): Endpoint {
    Endpoint(wire, Idle, Open, 0, [], [], [], [])
  }

  datatype Label =
    | Send(frame: OutFrame, hard: bool)    // a user frame is built; `hard`: its flush failed for good
    | Drain(n: nat)                        // the stream accepts `n` queued octets
    | Receive(small: bool, mask: bytes)    // one frame is processed; `small`: the pass fetched 1..127 octets
    | Eof                                  // the peer ended the stream
    | Abort(error: ConnError)              // an I/O failure or a missed ping deadline

  function SaturatingSub(a: nat, b: nat): nat { if a < b then 0 else a - b }

  /** Flood relief for a completed message of `len` octets. */
  function ReliefFor(len: nat): nat {
    if len / SMALL_READ > 1 then len / SMALL_READ else 1
  }

  function Relief(m: Message): nat {
    if m.Close? then 0 else ReliefFor(|Payload(m)|)
  }

  /** Appends a whole frame to the send buffer. */
  function Commit(s: Endpoint, f: OutFrame): Endpoint
    requires f.WellFormed()
  {
    s.(queue := s.queue + ClientFrame(f), frames := s.frames + [f])
  }

  /** The stream accepts `n` queued octets. */
  function Drained(s: Endpoint, n: nat): Endpoint
    requires n <= |s.queue|
  {
    s.(sent := s.sent + s.queue[..n], queue := s.queue[n..])
  }

  /** Closes the connection; a closed connection reassembles nothing. */
  function Shut(s: Endpoint, why: Ending): Endpoint {
    s.(close := Closed(why), recv := Idle)
  }

  predicate SendsClose(f: OutFrame) {
    f.opcode == OP_CLOSE
  }

  /** The frames that the public send methods build. */
  predicate UserFrame(f: OutFrame) {
    && f.WellFormed()
    && (f.opcode == OP_TEXT || f.opcode == OP_BINARY || f.opcode == OP_PING || f.opcode == OP_CLOSE)
    && (IsControl(f.opcode) ==> |f.payload| <= 125)
  }

  predicate Enabled(c: Config, s: Endpoint, l: Label)
    requires s.recv.Carried()
  {
    match l
    case Send(f, _) => s.close == Open && s.queue == [] && UserFrame(f)
    case Drain(n) => n <= |s.queue|
    case Receive(_, mask) => !s.close.Closed? && |mask| == 4 && !ParseFrame(s.wire, c.maxPayload).NeedMore?
    case Eof => !s.close.Closed? && ParseFrame(s.wire, c.maxPayload).NeedMore?
    case Abort(e) => !s.close.Closed? && (e == Io || e == ConnClosed || e == PingTimeout)
  }

  /** What a frame makes of a connection's reading side; `ended` if it ends the connection. */
  datatype Landing = Landing(recv: Recv, ended: Option<Ending>, score: nat, delivered: seq<Message>)

  function LandingOf(recv: Recv, score: nat, delivered: seq<Message>, f: Frame, maxPayload: nat): (l: Landing)
    requires recv.Carried()
    ensures l.recv.Carried()
  {
    match OnFrame(recv, f, maxPayload)
    case Continue(next) => Landing(next, None, score, delivered)
    case Deliver(m) => Landing(Idle, None, SaturatingSub(score, Relief(m)), delivered + [m])
    case Finish(info) => Landing(Idle, Some(ByPeer), score, delivered + [Close(info)])
    case Reject(e) => Landing(Idle, Some(ByError(e)), score, delivered)
  }

  /** One frame from the peer, after it has been consumed and scored. */
  function Process(c: Config, s: Endpoint, f: Frame, mask: bytes): (t: Endpoint)
    requires s.recv.Carried() && |mask| == 4 && |f.payload| < USIZE_LIMIT
    ensures t.recv.Carried()
    ensures t.wire == s.wire && t.sent == s.sent
  {
    var l := LandingOf(s.recv, s.score, s.delivered, f, c.maxPayload);
    var next := s.(recv := l.recv, close := if l.ended.Some? then Closed(l.ended.value) else s.close,
                   score := l.score, delivered := l.delivered);
    match OnFrame(s.recv, f, c.maxPayload)
    case Continue(_) =>
      if f.opcode == OP_PING && |s.queue| < c.maxBuf then Commit(next, OutFrame(OP_PONG, f.payload, mask)) else next
    case Finish(_) =>
      if s.close == Open then Commit(next, OutFrame(OP_CLOSE, f.payload[..Min(|f.payload|, 2)], mask)) else next
    case _ => next
  }

  /** The flood score after one more frame. */
  function Scored(score: nat, small: bool): nat {
    (if small then SaturatingSub(score, 1) else score) + 1
  }

  function Apply(c: Config, s: Endpoint, l: Label): (t: Endpoint)
    requires c.Ok() && s.recv.Carried() && Enabled(c, s, l)
    ensures t.recv.Carried()
  {
    match l
    case Send(f, hard) =>
      Commit(s, f).(close := if SendsClose(f) && !hard then CloseSent else s.close)
    case Drain(n) =>
      Drained(s, n)
    case Receive(small, mask) =>
      (match ParseFrame(s.wire, c.maxPayload)
       case NeedMore => s
       case Bad(e) => Shut(s, ByError(e))
       case Whole(f, n) =>
         var next := s.(wire := s.wire[n..], score := Scored(s.score, small));
         if next.score > c.maxFlood then Shut(next, ByAbort(Flood))
         else
           WholeIsServerFrame(s.wire, c.maxPayload);
           Process(c, next, f, mask))
    case Eof => Shut(s, ByEof)
    case Abort(e) => Shut(s, ByAbort(e))
  }

  /** The state after a sequence of steps; `None` if some step is not enabled. */
  function Run(c: Config, s: Endpoint, ls: seq<Label>): (r: Option<Endpoint>)
    requires c.Ok() && s.recv.Carried()
    ensures r.Some? ==> r.value.recv.Carried()
    decreases |ls|
  {
    if ls == [] then Some(s)
    else
      var front, last := ls[..|ls| - 1], ls[|ls| - 1];
      match Run(c, s, front)
      case None => None
      case Some(t) => if Enabled(c, t, last) then Some(Apply(c, t, last)) else None
  }

  lemma RunSnoc(c: Config, s: Endpoint, ls: seq<Label>, l: Label)
    requires c.Ok() && s.recv.Carried() && Run(c, s, ls).Some? && Enabled(c, Run(c, s, ls).value, l)
    ensures Run(c, s, ls + [l]) == Some(Apply(c, Run(c, s, ls).value, l))
  {
    hide Apply, Enabled;
    assert (ls + [l])[..|ls|] == ls;
  }

  lemma RunOne(c: Config, s: Endpoint, l: Label)
    requires c.Ok() && s.recv.Carried() && Enabled(c, s, l)
    ensures Run(c, s, [l]) == Some(Apply(c, s, l))
  {
    hide Apply, Enabled;
    assert [l][..0] == [];
    assert Run(c, s, []) == Some(s);
  }

  lemma {:induction false} RunAppend(c: Config, s: Endpoint, xs: seq<Label>, ys: seq<Label>)
    requires c.Ok() && s.recv.Carried() && Run(c, s, xs).Some?
    ensures Run(c, s, xs + ys) == Run(c, Run(c, s, xs).value, ys)
    decreases |ys|
  {
    hide Apply, Enabled;
    if ys == [] {
      assert xs + ys == xs;
    } else {
      var front := ys[..|ys| - 1];
      assert (xs + ys)[..|xs + ys| - 1] == xs + front;
      RunAppend(c, s, xs, front);
    }
  }
}
