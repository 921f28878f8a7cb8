/**
 * What the server receives, over every run: whole frames in commit order, in
 * the order the closing handshake allows, with one pong for each ping.
 */
module Outbound {
  import opened Bytes
  import opened Masking
  import opened Frames
  import opened Messages
  import opened Connection

  /** Every step keeps the octet stream equal to the committed frames. */
  lemma StepWire(c: Config, s: Endpoint, l: Label)
    requires c.Ok() && s.recv.Carried() && Enabled(c, s, l)
    requires AllWellFormed(s.frames) && s.sent + s.queue == ClientFrames(s.frames)
    ensures var t := Apply(c, s, l);
            AllWellFormed(t.frames) && t.sent + t.queue == ClientFrames(t.frames)
  {
    hide ParseFrame, OnFrame, ClientFrame;
    var t := Apply(c, s, l);
    match l {
      case Send(f, _) =>
        CommitWire(s, f);
      case Drain(n) =>
        assert s.queue == s.queue[..n] + s.queue[n..];
        assert t.sent + t.queue == s.sent + (s.queue[..n] + s.queue[n..]);
      case Receive(_, mask) =>
        if ParseFrame(s.wire, c.maxPayload).Whole? {
          var f := ParseFrame(s.wire, c.maxPayload).frame;
          WholeIsServerFrame(s.wire, c.maxPayload);
          OpcodeBits();
          CommitWire(s, OutFrame(OP_PONG, f.payload, mask));
          CommitWire(s, OutFrame(OP_CLOSE, f.payload[..Min(|f.payload|, 2)], mask));
        }
      case _ =>
    }
  }

  lemma OpcodeBits()
    ensures FourBits(OP_PONG) && FourBits(OP_CLOSE)
  {}

  lemma CommitWire(s: Endpoint, f: OutFrame)
    requires AllWellFormed(s.frames) && f.WellFormed() && s.sent + s.queue == ClientFrames(s.frames)
    ensures var t := Commit(s, f);
            AllWellFormed(t.frames) && t.sent + t.queue == ClientFrames(t.frames)
  {
    hide ClientFrame;
    ClientFramesSnoc(s.frames, f);
    assert s.sent + (s.queue + ClientFrame(f)) == s.sent + s.queue + ClientFrame(f);
  }

  /** Octets accepted by the stream, then octets still queued, are exactly the committed frames. */
  lemma {:induction false} WireIsCommittedFrames(c: Config, w: bytes, ls: seq<Label>)
    requires c.Ok() && Run(c, Fresh(w), ls).Some?
    ensures var t := Run(c, Fresh(w), ls).value;
            AllWellFormed(t.frames) && t.sent + t.queue == ClientFrames(t.frames)
    decreases |ls|
  {
    hide Apply, Enabled;
    if ls != [] {
      var front := ls[..|ls| - 1];
      WireIsCommittedFrames(c, w, front);
      StepWire(c, Run(c, Fresh(w), front).value, ls[|ls| - 1]);
    }
  }

  // ----- The server's side -----

  /** The frames a server reads from the octets it has received so far. */
  function ServerSees(w: bytes): seq<ServerView>
    decreases |w|
  {
    match ServerReads(w)
    case None => []
    case Some(v) => if 0 < v.size <= |w| then [v] + ServerSees(w[v.size..]) else []
  }

  function Views(fs: seq<OutFrame>): (vs: seq<ServerView>)
    requires AllWellFormed(fs)
    ensures |vs| == |fs|
  {
    if fs == [] then [] else [View(fs[0])] + Views(fs[1..])
  }

  function View(f: OutFrame): ServerView {
    ServerView(true, f.opcode, f.payload, WireSize(|f.payload|))
  }

  lemma {:induction false} ServerSeesFrames(fs: seq<OutFrame>)
    requires AllWellFormed(fs)
    ensures ServerSees(ClientFrames(fs)) == Views(fs)
  {
    hide ClientFrame, ServerReads;
    if fs == [] {
      ServerReadsNothing();
    } else {
      ServerReadsClientFrame(fs[0], ClientFrames(fs[1..]));
      assert ClientFrames(fs)[|ClientFrame(fs[0])|..] == ClientFrames(fs[1..]);
      ServerSeesFrames(fs[1..]);
    }
  }

  lemma ServerReadsNothing()
    ensures ServerReads([]) == None
  {}

  lemma ServerReadsStable(w: bytes, more: bytes)
    requires ServerReads(w).Some?
    ensures ServerReads(w + more) == ServerReads(w)
    ensures 0 < ServerReads(w).value.size <= |w|
  {
    hide SplitOctets, FromBigEndian, Masked;
    var o := SplitOctets(w[0], w[1]);
    var size := if o.n <= 125 then 2 else if o.n == 126 then 4 else 10;
    assert (w + more)[2..size] == w[2..size];
    assert (w + more)[size..size + 4] == w[size..size + 4];
    var len := if o.n <= 125 then o.n else FromBigEndian(w[2..size]);
    assert (w + more)[size + 4..size + 4 + len] == w[size + 4..size + 4 + len];
  }

  lemma {:induction false} ServerSeesPrefix(w: bytes, more: bytes)
    ensures ServerSees(w) <= ServerSees(w + more)
    decreases |w|
  {
    hide ServerReads;
    if ServerReads(w).Some? {
      ServerReadsStable(w, more);
      var n := ServerReads(w).value.size;
      assert (w + more)[n..] == w[n..] + more;
      ServerSeesPrefix(w[n..], more);
    }
  }

  /**
   * At any moment a server has read a beginning of the committed frames, with the
   * payloads they were given; when nothing is queued it has read them all.
   */
  lemma ServerReadsCommittedFrames(c: Config, w: bytes, ls: seq<Label>)
    requires c.Ok() && Run(c, Fresh(w), ls).Some?
    ensures var t := Run(c, Fresh(w), ls).value;
            && AllWellFormed(t.frames)
            && ServerSees(t.sent) <= Views(t.frames)
            && (t.queue == [] ==> ServerSees(t.sent) == Views(t.frames))
  {
    hide Apply, Enabled, ServerReads, Run;
    WireIsCommittedFrames(c, w, ls);
    var t := Run(c, Fresh(w), ls).value;
    ServerSeesFrames(t.frames);
    ServerSeesPrefix(t.sent, t.queue);
    assert t.queue == [] ==> t.sent + t.queue == t.sent;
  }

  /** What section 5 of RFC 6455 allows a client to send whole: the five opcodes, control payloads of at most 125 octets. */
  predicate Sendable(f: OutFrame) {
    var op := ByteValue(f.opcode);
    (op == 1 || op == 2 || op == 8 || op == 9 || op == 10) && (op >= 8 ==> |f.payload| <= 125)
  }

  lemma StepSendable(c: Config, s: Endpoint, l: Label)
    requires c.Ok() && s.recv.Carried() && Enabled(c, s, l) && forall f | f in s.frames :: Sendable(f)
    ensures forall f | f in Apply(c, s, l).frames :: Sendable(f)
  {
    hide ParseFrame, OnFrame, ClientFrame, FourBits, Sendable, IsControl;
    match l {
      case Send(f, _) => UserFrameIsSendable(f);
      case Receive(_, mask) =>
        if ParseFrame(s.wire, c.maxPayload).Whole? {
          var f := ParseFrame(s.wire, c.maxPayload).frame;
          WholeIsServerFrame(s.wire, c.maxPayload);
          AnswersAreSendable(s.recv, f, mask, c.maxPayload);
        }
      case _ =>
    }
  }

  lemma UserFrameIsSendable(f: OutFrame)
    requires UserFrame(f)
    ensures Sendable(f)
  {}

  lemma AnswersAreSendable(recv: Recv, f: Frame, mask: bytes, maxPayload: nat)
    requires recv.Carried() && Admissible(f, maxPayload)
    ensures f.opcode == OP_PING ==> Sendable(OutFrame(OP_PONG, f.payload, mask))
    ensures Sendable(OutFrame(OP_CLOSE, f.payload[..Min(|f.payload|, 2)], mask))
  {}

  /** Every frame that a run commits is one that a client may send. */
  lemma {:induction false} CommittedFramesAreSendable(c: Config, w: bytes, ls: seq<Label>)
    requires c.Ok() && Run(c, Fresh(w), ls).Some?
    ensures forall f | f in Run(c, Fresh(w), ls).value.frames :: Sendable(f)
    decreases |ls|
  {
    hide Apply, Enabled, Sendable;
    if ls != [] {
      var front := ls[..|ls| - 1];
      CommittedFramesAreSendable(c, w, front);
      StepSendable(c, Run(c, Fresh(w), front).value, ls[|ls| - 1]);
    }
  }

  // ----- The closing handshake -----

  predicate SentOpcode(op: byte) {
    op == OP_TEXT || op == OP_BINARY || op == OP_PING || op == OP_PONG || op == OP_CLOSE
  }

  /** (data | ping | pong)*, then at most one close, followed only by pongs. */
  predicate CloseGrammar(fs: seq<OutFrame>) {
    && (forall i | 0 <= i < |fs| :: SentOpcode(fs[i].opcode))
    && (forall i, j | 0 <= i < j < |fs| && fs[i].opcode == OP_CLOSE :: fs[j].opcode == OP_PONG)
  }

  predicate HasClose(fs: seq<OutFrame>) {
    exists i | 0 <= i < |fs| :: fs[i].opcode == OP_CLOSE
  }

  /** A close frame was committed although the connection still counts as open. */
  predicate Leaked(s: Endpoint) {
    s.close == Open && HasClose(s.frames)
  }

  /** `send_close` whose flush failed for good: the one step that skips the transition. */
  predicate FailedClose(l: Label) {
    l.Send? && SendsClose(l.frame) && l.hard
  }

  lemma StepGrammar(c: Config, s: Endpoint, l: Label)
    requires c.Ok() && s.recv.Carried() && Enabled(c, s, l)
    requires CloseGrammar(s.frames) && !Leaked(s)
    ensures var t := Apply(c, s, l);
            CloseGrammar(t.frames) && (Leaked(t) <==> FailedClose(l))
  {
    hide ParseFrame, OnFrame, ClientFrame;
    var t := Apply(c, s, l);
    assert |t.frames| > |s.frames| ==> t.frames[|s.frames|] == t.frames[|t.frames| - 1];
    if FailedClose(l) {
      assert t.frames[|s.frames|].opcode == OP_CLOSE;
    }
  }

  lemma {:induction false} RunGrammar(c: Config, s: Endpoint, ls: seq<Label>)
    requires c.Ok() && s.recv.Carried() && Run(c, s, ls).Some?
    requires CloseGrammar(s.frames) && !Leaked(s)
    requires forall l | l in ls :: !FailedClose(l)
    ensures CloseGrammar(Run(c, s, ls).value.frames) && !Leaked(Run(c, s, ls).value)
    decreases |ls|
  {
    hide Apply, Enabled, CloseGrammar, Leaked;
    if ls != [] {
      var front, last := ls[..|ls| - 1], ls[|ls| - 1];
      assert last in ls;
      RunGrammar(c, s, front);
      StepGrammar(c, Run(c, s, front).value, last);
    }
  }

  /** A ping sent after a leaked close: drain what is queued, then send. */
  const PING_FRAME := OutFrame(OP_PING, [], [0, 0, 0, 0])

  function PingAgain(s: Endpoint): seq<Label> {
    [Drain(|s.queue|), Send(PING_FRAME, false)]
  }

  lemma LeakBreaksGrammar(c: Config, s: Endpoint)
    requires c.Ok() && s.recv.Carried() && Leaked(s)
    ensures Run(c, s, PingAgain(s)).Some?
    ensures !CloseGrammar(Run(c, s, PingAgain(s)).value.frames)
    ensures forall l | l in PingAgain(s) :: !FailedClose(l)
  {
    hide ParseFrame, ClientFrame;
    var ls := PingAgain(s);
    assert ls[..1] == [Drain(|s.queue|)] && ls[..1][..0] == [];
    var drained := Apply(c, s, Drain(|s.queue|));
    assert Run(c, s, []) == Some(s);
    assert Run(c, s, ls[..1]) == Some(drained);
    assert UserFrame(PING_FRAME) by { PingBits(); }
    assert Enabled(c, drained, ls[1]);
    var t := Apply(c, drained, ls[1]);
    assert Run(c, s, ls) == Some(t);
    var i :| 0 <= i < |s.frames| && s.frames[i].opcode == OP_CLOSE;
    assert t.frames[i].opcode == OP_CLOSE && t.frames[|s.frames|].opcode == OP_PING;
  }

  lemma PingBits()
    ensures FourBits(OP_PING)
  {}

  const CLOSE_FRAME := OutFrame(OP_CLOSE, [3, 232], [0, 0, 0, 0])     // code 1000

  /** `send_close` on a new connection whose first write fails for good leaks the close frame. */
  lemma FailedCloseLeaks(c: Config, w: bytes) returns (t: Endpoint)
    requires c.Ok()
    ensures Run(c, Fresh(w), [Send(CLOSE_FRAME, true)]) == Some(t) && t.recv.Carried() && Leaked(t)
  {
    hide ParseFrame, ClientFrame;
    CloseBits();
    RunOne(c, Fresh(w), Send(CLOSE_FRAME, true));
    t := Apply(c, Fresh(w), Send(CLOSE_FRAME, true));
    assert t.frames[0] == CLOSE_FRAME;
  }

  lemma CloseBits()
    ensures UserFrame(CLOSE_FRAME)
  {}

  /** The failing input, from a new connection on: close with a failed write, then a ping. */
  lemma GrammarBreaks(c: Config, w: bytes) returns (ls: seq<Label>)
    requires c.Ok()
    ensures Run(c, Fresh(w), ls).Some? && !CloseGrammar(Run(c, Fresh(w), ls).value.frames)
    ensures |ls| == 3 && ls[0] == Send(CLOSE_FRAME, true) && ls[2] == Send(PING_FRAME, false)
  {
    hide Run, CloseGrammar, Leaked;
    var t := FailedCloseLeaks(c, w);
    LeakBreaksGrammar(c, t);
    RunAppend(c, Fresh(w), [Send(CLOSE_FRAME, true)], PingAgain(t));
    ls := [Send(CLOSE_FRAME, true)] + PingAgain(t);
  }

  /**
   * The exact condition for the closing handshake to be respected from here on:
   * no close frame has been committed while the connection still counts as open.
   */
  lemma GrammarHoldsIffNotLeaked(c: Config, s: Endpoint)
    requires c.Ok() && s.recv.Carried() && CloseGrammar(s.frames)
    ensures !Leaked(s) <==>
            forall ls | Run(c, s, ls).Some? && (forall l | l in ls :: !FailedClose(l)) ::
              CloseGrammar(Run(c, s, ls).value.frames)
  {
    hide Apply, Enabled, CloseGrammar, Leaked, Run, PingAgain;
    if Leaked(s) {
      LeakBreaksGrammar(c, s);
    } else {
      forall ls | Run(c, s, ls).Some? && (forall l | l in ls :: !FailedClose(l))
        ensures CloseGrammar(Run(c, s, ls).value.frames)
      {
        RunGrammar(c, s, ls);
      }
    }
  }

  /** In every run without a `send_close` that fails for good, the committed frames obey the grammar. */
  lemma CommittedFramesObeyGrammar(c: Config, w: bytes, ls: seq<Label>)
    requires c.Ok() && Run(c, Fresh(w), ls).Some?
    requires forall l | l in ls :: !FailedClose(l)
    ensures CloseGrammar(Run(c, Fresh(w), ls).value.frames)
  {
    RunGrammar(c, Fresh(w), ls);
  }

  /** The close state never moves back, and a closed connection neither commits nor delivers. */
  lemma {:induction false} CloseStateAdvances(c: Config, s: Endpoint, ls: seq<Label>)
    requires c.Ok() && s.recv.Carried() && Run(c, s, ls).Some?
    ensures var t := Run(c, s, ls).value;
            && (s.close != Open ==> t.close != Open)
            && s.frames <= t.frames && s.delivered <= t.delivered && s.sent <= t.sent
            && (s.close.Closed? ==> t.close == s.close && t.frames == s.frames && t.delivered == s.delivered)
    decreases |ls|
  {
    hide ParseFrame, OnFrame, ClientFrame;
    if ls != [] {
      CloseStateAdvances(c, s, ls[..|ls| - 1]);
    }
  }

  // ----- Pongs -----

  /** The peer's frames processed by a run. */
  function Seen(c: Config, s: Endpoint, ls: seq<Label>): seq<Frame>
    requires c.Ok() && s.recv.Carried() && Run(c, s, ls).Some?
    decreases |ls|
  {
    if ls == [] then []
    else
      var front := ls[..|ls| - 1];
      Seen(c, s, front) + SeenBy(c, Run(c, s, front).value, ls[|ls| - 1])
  }

  function SeenBy(c: Config, t: Endpoint, l: Label): seq<Frame> {
    match ParseFrame(t.wire, c.maxPayload)
    case Whole(f, _) => if l.Receive? then [f] else []
    case _ => []
  }

  /** One step consumes exactly the frame it processes. */
  lemma StepConsumes(c: Config, s: Endpoint, l: Label)
    requires c.Ok() && s.recv.Carried() && Enabled(c, s, l)
    ensures AllAdmissible(SeenBy(c, s, l), c.maxPayload) && AllSized(SeenBy(c, s, l))
    ensures s.wire == ServerFrames(SeenBy(c, s, l)) + Apply(c, s, l).wire
  {
    hide ParseFrame, OnFrame, ClientFrame, ServerFrame, Process, Admissible;
    var p := ParseFrame(s.wire, c.maxPayload);
    if l.Receive? && p.Whole? {
      WholeIsServerFrame(s.wire, c.maxPayload);
      assert s.wire == s.wire[..p.size] + s.wire[p.size..];
      assert ServerFrames([p.frame]) == ServerFrame(p.frame) + [];
    }
  }

  /** The peer's octets are the processed frames followed by what is still unread. */
  lemma {:induction false} SeenIsConsumed(c: Config, s: Endpoint, ls: seq<Label>)
    requires c.Ok() && s.recv.Carried() && Run(c, s, ls).Some?
    ensures AllAdmissible(Seen(c, s, ls), c.maxPayload) && AllSized(Seen(c, s, ls))
    ensures s.wire == ServerFrames(Seen(c, s, ls)) + Run(c, s, ls).value.wire
    decreases |ls|
  {
    hide Apply, Enabled, SeenBy, Admissible;
    if ls != [] {
      var front, last := ls[..|ls| - 1], ls[|ls| - 1];
      SeenIsConsumed(c, s, front);
      var t := Run(c, s, front).value;
      StepConsumes(c, t, last);
      ServerFramesAppend(Seen(c, s, front), SeenBy(c, t, last));
    }
  }

  function PingPayloads(fs: seq<Frame>): seq<bytes> {
    if fs == [] then []
    else
      var front, last := fs[..|fs| - 1], fs[|fs| - 1];
      if last.opcode == OP_PING then PingPayloads(front) + [last.payload] else PingPayloads(front)
  }

  function PongPayloads(fs: seq<OutFrame>): seq<bytes> {
    if fs == [] then []
    else
      var front, last := fs[..|fs| - 1], fs[|fs| - 1];
      if last.opcode == OP_PONG then PongPayloads(front) + [last.payload] else PongPayloads(front)
  }

  /** `a` is `b` with some elements left out. */
  predicate Subsequence<T(==)>(a: seq<T>, b: seq<T>)
    decreases |b|
  {
    if b == [] then a == []
    else
      || Subsequence(a, b[..|b| - 1])
      || (a != [] && a[|a| - 1] == b[|b| - 1] && Subsequence(a[..|a| - 1], b[..|b| - 1]))
  }

  /** The send buffer is below its target size whenever a frame is processed. */
  predicate Uncongested(c: Config, s: Endpoint, ls: seq<Label>)
    requires c.Ok() && s.recv.Carried() && Run(c, s, ls).Some?
    decreases |ls|
  {
    ls != [] ==>
      var front, last := ls[..|ls| - 1], ls[|ls| - 1];
      Uncongested(c, s, front) && (last.Receive? ==> |Run(c, s, front).value.queue| < c.maxBuf)
  }

  predicate Flooded(s: Endpoint) {
    s.close == Closed(ByAbort(Flood))
  }

  /** A step adds a pong exactly when it processed a ping with room in the send buffer. */
  lemma StepPongs(c: Config, s: Endpoint, l: Label)
    requires c.Ok() && s.recv.Carried() && Enabled(c, s, l)
    ensures var t := Apply(c, s, l);
            var pings := PingPayloads(SeenBy(c, s, l));
            && PongPayloads(t.frames) == PongPayloads(s.frames) + (if |s.queue| < c.maxBuf && !Flooded(t) then pings else [])
            && |pings| <= 1
  {
    hide ParseFrame, OnFrame, ClientFrame;
    var t := Apply(c, s, l);
    if l.Send? {
      PongSnoc(s.frames, l.frame);
    } else if l.Receive? && ParseFrame(s.wire, c.maxPayload).Whole? {
      var f := ParseFrame(s.wire, c.maxPayload).frame;
      WholeIsServerFrame(s.wire, c.maxPayload);
      assert [f][..0] == [];
      PongSnoc(s.frames, OutFrame(OP_PONG, f.payload, l.mask));
      PongSnoc(s.frames, OutFrame(OP_CLOSE, f.payload[..Min(|f.payload|, 2)], l.mask));
      PingContinues(s.recv, f, c.maxPayload);
    }
  }

  lemma PongSnoc(fs: seq<OutFrame>, f: OutFrame)
    ensures PongPayloads(fs + [f]) == PongPayloads(fs) + if f.opcode == OP_PONG then [f.payload] else []
  {
    assert (fs + [f])[..|fs|] == fs;
  }

  lemma PingContinues(recv: Recv, f: Frame, maxPayload: nat)
    requires recv.Carried()
    ensures f.opcode == OP_PING ==> OnFrame(recv, f, maxPayload) == Continue(recv)
    ensures OnFrame(recv, f, maxPayload).Finish? ==> f.opcode == OP_CLOSE
  {}

  lemma {:induction false} PingPayloadsAppend(xs: seq<Frame>, ys: seq<Frame>)
    requires |ys| <= 1
    ensures PingPayloads(xs + ys) == PingPayloads(xs) + PingPayloads(ys)
  {
    if ys == [] {
      assert xs + ys == xs;
    } else {
      assert (xs + ys)[..|xs|] == xs && ys[..0] == [];
    }
  }

  /**
   * The pong payloads that a run owes: those of the pings it processed while the
   * send buffer was below its target size.
   */
  function Owed(c: Config, s: Endpoint, ls: seq<Label>): seq<bytes>
    requires c.Ok() && s.recv.Carried() && Run(c, s, ls).Some?
    decreases |ls|
  {
    if ls == [] then []
    else
      var front, last := ls[..|ls| - 1], ls[|ls| - 1];
      var t := Run(c, s, front).value;
      Owed(c, s, front)
      + if |t.queue| < c.maxBuf && !Flooded(Apply(c, t, last)) then PingPayloads(SeenBy(c, t, last)) else []
  }

  /** The pongs committed are exactly those owed, in order. */
  lemma {:induction false} PongsAreThoseOwed(c: Config, s: Endpoint, ls: seq<Label>)
    requires c.Ok() && s.recv.Carried() && Run(c, s, ls).Some?
    ensures PongPayloads(Run(c, s, ls).value.frames) == PongPayloads(s.frames) + Owed(c, s, ls)
    decreases |ls|
  {
    hide Apply, Enabled, SeenBy, PingPayloads, PongPayloads, Flooded;
    if ls != [] {
      var front, last := ls[..|ls| - 1], ls[|ls| - 1];
      PongsAreThoseOwed(c, s, front);
      StepPongs(c, Run(c, s, front).value, last);
    }
  }

  /**
   * Of the peer's pings, in order, exactly those owed are answered, none twice; as
   * long as the send buffer stays below its target size these are all of them.
   */
  lemma {:induction false} PongsAnswerPings(c: Config, w: bytes, ls: seq<Label>)
    requires c.Ok() && Run(c, Fresh(w), ls).Some?
    ensures var t := Run(c, Fresh(w), ls).value;
            var pings, pongs := PingPayloads(Seen(c, Fresh(w), ls)), PongPayloads(t.frames);
            && Subsequence(pongs, pings) && pongs == Owed(c, Fresh(w), ls)
            && (Uncongested(c, Fresh(w), ls) && !Flooded(t) ==> pongs == pings)
    decreases |ls|
  {
    hide Apply, Enabled, SeenBy, PingPayloads, PongPayloads, Subsequence, Flooded, Owed;
    NoPayloads();
    PongsAreThoseOwed(c, Fresh(w), ls);
    if ls != [] {
      var front, last := ls[..|ls| - 1], ls[|ls| - 1];
      PongsAnswerPings(c, w, front);
      var s := Run(c, Fresh(w), front).value;
      StepPongs(c, s, last);
      var seen := SeenBy(c, s, last);
      SeenAtMostOne(c, s, last);
      PingPayloadsAppend(Seen(c, Fresh(w), front), seen);
      SubsequenceGrows(PongPayloads(s.frames), PingPayloads(Seen(c, Fresh(w), front)), PingPayloads(seen));
      assert PongPayloads(s.frames) + [] == PongPayloads(s.frames);
      NothingSeen(c, s, last);
      FloodedIsFinal(c, s, last);
    }
  }

  lemma SubsequenceGrows<T>(a: seq<T>, b: seq<T>, x: seq<T>)
    requires Subsequence(a, b) && |x| <= 1
    ensures Subsequence(a, b + x) && Subsequence(a + x, b + x)
  {
    if x == [] {
      assert a + x == a && b + x == b;
    } else {
      assert (a + x)[..|a|] == a && (b + x)[..|b|] == b;
    }
  }

  lemma NoPayloads()
    ensures PingPayloads([]) == [] && PongPayloads([]) == [] && Subsequence<bytes>([], [])
  {}

  lemma NothingSeen(c: Config, s: Endpoint, l: Label)
    ensures !l.Receive? ==> PingPayloads(SeenBy(c, s, l)) == []
  {}

  lemma SeenAtMostOne(c: Config, s: Endpoint, l: Label)
    ensures |SeenBy(c, s, l)| <= 1
  {}

  lemma FloodedIsFinal(c: Config, s: Endpoint, l: Label)
    requires c.Ok() && s.recv.Carried() && Enabled(c, s, l)
    ensures Flooded(s) ==> Flooded(Apply(c, s, l))
  {
    hide ParseFrame, ClientFrame;
  }

  // ----- How much can be pending -----

  /** Wire size of the last user frame built. */
  function LastSend(ls: seq<Label>): nat {
    if ls == [] then 0
    else if ls[|ls| - 1].Send? then WireSize(|ls[|ls| - 1].frame.payload|)
    else LastSend(ls[..|ls| - 1])
  }

  /** Pending output is bounded by the last user frame or the target size plus one pong, and a close echo. */
  lemma {:induction false} PendingOutputIsBounded(c: Config, w: bytes, ls: seq<Label>)
    requires c.Ok() && Run(c, Fresh(w), ls).Some?
    ensures var t := Run(c, Fresh(w), ls).value;
            |t.queue| <= Max(LastSend(ls), c.maxBuf + 130) + (if t.close.Closed? then 8 else 0)
    decreases |ls|
  {
    hide ParseFrame, OnFrame, ClientFrame, Admissible;
    if ls != [] {
      var front, last := ls[..|ls| - 1], ls[|ls| - 1];
      PendingOutputIsBounded(c, w, front);
      var s := Run(c, Fresh(w), front).value;
      if last.Receive? && ParseFrame(s.wire, c.maxPayload).Whole? {
        var f := ParseFrame(s.wire, c.maxPayload).frame;
        WholeIsServerFrame(s.wire, c.maxPayload);
        ControlIsShort(f, c.maxPayload);
      }
    }
  }

  lemma ControlIsShort(f: Frame, maxPayload: nat)
    requires Admissible(f, maxPayload)
    ensures f.opcode == OP_PING || f.opcode == OP_CLOSE ==> |f.payload| <= 125
  {}
}
