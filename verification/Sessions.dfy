/**
 * Whole sessions: any sequence of calls on a client object, and what follows
 * for it from the theorems about runs and passes.
 */
module Sessions {
  import opened Bytes
  import opened Frames
  import opened Messages
  import opened Connection
  import opened Transport
  import Client
  import Delivery
  import Handshake
  import Outbound
  import Pressure
  import R = Reading
  import Utf8

  datatype Call =
    | Read(now: int)
    | SendText(data: bytes)
    | SendBinary(data: bytes)
    | SendPing(deadline: int)
    | SendClose(code: nat, reason: bytes)
    | Flush

  /** What the argument types of the methods guarantee. */
  predicate Allowed(call: Call) {
    match call
    case SendText(d) => |d| < USIZE_LIMIT && Utf8.Valid(d)
    case SendBinary(d) => |d| < USIZE_LIMIT
    case SendClose(code, reason) => code < 65536 && Utf8.Valid(reason)
    case _ => true
  }

  /**
   * One call.  `passes` counts the turns of the read loop; `cut` tells that a
   * write failure or a missed ping deadline ended the connection.
   */
  method Perform(ws: Client.WebSocket, call: Call)
    returns (ghost ls: seq<Label>, ghost passes: nat, ghost cut: Option<Ending>)
    requires ws.Valid() && Allowed(call)
    modifies ws, ws.read, ws.text, ws.text.tail, ws.send, ws.stream
    ensures ws.Valid() && ws.config == old(ws.config) && ws.stream == old(ws.stream)
    ensures Run(ws.config, old(ws.Abs()), ls) == Some(ws.Abs())
    ensures R.Reached(ws.config, R.CoreOf(old(ws.Abs())), old(ws.Supply()), passes, cut, R.CoreOf(ws.Abs()), ws.Supply())
    ensures old(ws.stream.hardWrites) <= ws.stream.hardWrites
    ensures ws.stream.hardWrites == old(ws.stream.hardWrites) ==> forall l | l in ls :: !Outbound.FailedClose(l)
    ensures old(ws.pingDeadline) == None && !call.SendPing? ==> ws.pingDeadline == None
    ensures cut.Some? ==>
              R.FromOutside(cut.value) && (old(ws.stream.hardWrites) < ws.stream.hardWrites || old(ws.pingDeadline).Some?)
  {
    hide Run, Outbound.FailedClose, Client.Receives, R.CoreOf, R.Passes;
    hide Client.WebSocket.Abs, Client.WebSocket.Supply, Client.WebSocket.Outflow;
    ws.OpenCore();
    if call.Read? {
      var r;
      r, ls, passes, cut := ws.ReadMessage(call.now);
      InboundSendsNothing(ls);
    } else {
      R.NoPasses(ws.config, R.CoreOf(ws.Abs()), ws.Supply());
      ls := Transmit(ws, call);
      passes, cut := 0, None;
    }
  }

  /** The calls that do not read. */
  method Transmit(ws: Client.WebSocket, call: Call) returns (ghost ls: seq<Label>)
    requires ws.Valid() && Allowed(call) && !call.Read?
    modifies ws, ws.send, ws.stream
    ensures ws.Valid() && ws.config == old(ws.config) && ws.stream == old(ws.stream)
    ensures Run(ws.config, old(ws.Abs()), ls) == Some(ws.Abs())
    ensures R.CoreOf(ws.Abs()) == R.CoreOf(old(ws.Abs())) && ws.Supply() == old(ws.Supply())
    ensures old(ws.stream.hardWrites) <= ws.stream.hardWrites
    ensures ws.stream.hardWrites == old(ws.stream.hardWrites) ==> forall l | l in ls :: !Outbound.FailedClose(l)
    ensures old(ws.pingDeadline) == None && !call.SendPing? ==> ws.pingDeadline == None
  {
    hide Run, Outbound.FailedClose, R.CoreOf, Client.SendOutcome;
    hide Client.WebSocket.Abs, Client.WebSocket.Supply, Client.WebSocket.Outflow;
    ws.OpenCore();
    match call {
      case SendText(d) =>
        var r;
        ghost var f;
        r, ls, f := ws.SendText(d);
      case SendBinary(d) =>
        var r;
        ghost var f;
        r, ls, f := ws.SendBinary(d);
      case SendPing(deadline) =>
        var r;
        ghost var f;
        r, ls, f := ws.SendPing(deadline);
      case SendClose(code, reason) =>
        var r;
        ghost var f;
        r, ls, f := ws.SendClose(code, reason);
      case Flush =>
        var r;
        r, ls := ws.Flush();
    }
    R.SendingKeepsCore(ws.config, old(ws.Abs()), ls);
  }

  lemma InboundSendsNothing(ls: seq<Label>)
    requires Client.Inbound(ls)
    ensures forall l | l in ls :: !Outbound.FailedClose(l)
  {}

  /** The client is connected and nothing has been exchanged since. */
  ghost predicate Connected(ws: Client.WebSocket)
    requires ws.Valid()
    reads ws, ws.stream, ws.read, ws.send, ws.text, ws.text.tail
  {
    ws.Abs() == Fresh(ws.Wire()) && ws.pingDeadline == None
  }

  /**
   * `try_connect` on a client in any state, new or left over from an earlier
   * connection: it is reset, the response is read, and octets that arrived with
   * the header are not lost.  `fieldsOk`: the header fields pass their checks.
   */
  method Connect(ws: Client.WebSocket, next: Stream, fieldsOk: bool) returns (connected: bool, ghost header: nat)
    requires ws.Valid()
    modifies ws, ws.read, ws.text, ws.send, next`input, next`readPlan, next`served
    ensures ws.Valid() && ws.config == old(ws.config) && ws.stream == next
    ensures connected ==>
              && Handshake.IsVerdict(old(next.input), Handshake.HeaderEnd(header)) && header <= |old(next.input)|
              && Handshake.StatusOk(old(next.input), header)
              && Connected(ws) && ws.Wire() == old(next.input)[header..]
    ensures !connected ==> ws.closeState == Open && ws.send.Pending() == [] && ws.Reassembly() == Idle
    ensures connected <==> fieldsOk && Handshake.Welcomes(|old(ws.read.buf)|, old(next.input), old(next.readPlan))
    ensures connected ==>
              ws.Supply() == R.AfterResponse(|old(ws.read.buf)|, old(next.input), old(next.readPlan), old(ws.draws), header)
  {
    hide Handshake.IsVerdict, Handshake.StatusOk, Handshake.Welcomes, R.AfterResponse;
    hide Client.WebSocket.Abs, Client.WebSocket.Supply, Client.WebSocket.Wire;
    ws.Reuse(next);
    var accepted;
    accepted, header := Respond(ws);
    connected := accepted && fieldsOk;
    if !connected {
      ws.Disconnect();
    }
  }

  /** Reads the response on a client that was just given its stream. */
  method Respond(ws: Client.WebSocket) returns (accepted: bool, ghost header: nat)
    requires ws.Valid() && ws.Abs() == Fresh(ws.stream.input) && ws.pingDeadline == None
    modifies ws.read, ws.stream`input, ws.stream`readPlan, ws.stream`served
    ensures ws.Valid()
    ensures accepted ==>
              && Handshake.IsVerdict(old(ws.stream.input), Handshake.HeaderEnd(header))
              && header <= |old(ws.stream.input)| && Handshake.StatusOk(old(ws.stream.input), header)
              && Connected(ws) && ws.Wire() == old(ws.stream.input)[header..]
    ensures var r := old(ws.Supply()).intake;
            && (accepted <==> Handshake.Welcomes(r.len, old(ws.stream.input), r.plan))
            && (accepted ==>
                  ws.Supply() == R.AfterResponse(r.len, old(ws.stream.input), r.plan, old(ws.Supply()).draws, header))
  {
    hide Handshake.IsVerdict, Handshake.StatusOk, Handshake.Welcomes, Handshake.Searched;
    var response;
    response, header := Handshake.ReadResponse(ws.read, ws.stream);
    accepted := response.Accepted?;
  }

  // ----- What holds of a session -----

  /** What was delivered, and how the connection ended, is what the octets `w` call for. */
  ghost predicate Agrees(ws: Client.WebSocket, w: bytes)
    requires ws.Valid()
    reads ws, ws.stream, ws.read, ws.send, ws.text, ws.text.tail
  {
    var whole := Transcribe(Idle, w, ws.config.maxPayload);
    && ws.delivered <= whole.messages
    && (forall m | m in ws.delivered :: MessageOk(m, ws.config.maxPayload))
    && match ws.closeState
       case Closed(ByPeer) => whole == Transcript(ws.delivered, Ended)
       case Closed(ByEof) => whole == Transcript(ws.delivered, Waiting)
       case Closed(ByError(e)) => whole == Transcript(ws.delivered, Broken(e))
       case _ => ParseFrame(ws.Wire(), ws.config.maxPayload).NeedMore? && !ws.closeState.Closed? ==>
                   whole == Transcript(ws.delivered, Waiting)
  }

  /** What the server has received and will receive: whole frames, exactly the pongs owed, never too much at once. */
  ghost predicate Orderly(ws: Client.WebSocket, w: bytes, ls: seq<Label>)
    requires ws.Valid() && Run(ws.config, Fresh(w), ls).Some?
    reads ws, ws.stream, ws.read, ws.send, ws.text, ws.text.tail
  {
    && AllWellFormed(ws.frames)
    && ws.stream.output[ws.base..] + ws.send.Pending() == ClientFrames(ws.frames)
    && Outbound.ServerSees(ws.stream.output[ws.base..]) <= Outbound.Views(ws.frames)
    && Outbound.PongPayloads(ws.frames) == Outbound.Owed(ws.config, Fresh(w), ls)
    && |ws.send.Pending()| <= Max(Outbound.LastSend(ls), ws.config.maxBuf + 130) + if ws.closeState.Closed? then 8 else 0
  }

  /** Flood accounting with the octets each frame's pass fetched, which the supply `u` determines. */
  ghost predicate Accounted(ws: Client.WebSocket, w: bytes, u: R.Supply, passes: nat)
    requires ws.Valid() && R.InOrder(u)
    reads ws, ws.stream, ws.read, ws.send, ws.text, ws.text.tail
  {
    var fetched := R.Fetches(ws.config, R.Start(w), u, passes);
    && AllSized(Pressure.Processed(ws.config, R.Start(w), u, passes))
    && w == ServerFrames(Pressure.Processed(ws.config, R.Start(w), u, passes)) + ws.Wire()
    && (ws.closeState != Closed(ByAbort(Flood)) ==>
          |fetched| <= ws.config.maxFlood + Pressure.SmallOnes(fetched) + Pressure.TotalRelief(ws.delivered))
    && (Pressure.AllSmall(fetched) && ws.config.maxFlood >= 1 ==> ws.closeState != Closed(ByAbort(Flood)))
  }

  /**
   * A whole session of a connected client, for any stream and any calls: delivery,
   * outbound frames, flood accounting, and the passes made.  The closing handshake
   * is obeyed if no write of the session failed for good or was accepted as nothing.
   */
  method Session(ws: Client.WebSocket, calls: seq<Call>)
    returns (ghost ls: seq<Label>, ghost passes: nat, ghost cut: Option<Ending>)
    requires ws.Valid() && Connected(ws) && forall call | call in calls :: Allowed(call)
    modifies ws, ws.read, ws.text, ws.text.tail, ws.send, ws.stream
    ensures ws.Valid() && ws.stream == old(ws.stream) && ws.config == old(ws.config)
    ensures Run(ws.config, Fresh(old(ws.Wire())), ls) == Some(ws.Abs())
    ensures Agrees(ws, old(ws.Wire()))
    ensures Orderly(ws, old(ws.Wire()), ls)
    ensures Accounted(ws, old(ws.Wire()), old(ws.Supply()), passes)
    ensures ws.stream.hardWrites == old(ws.stream.hardWrites) ==> Outbound.CloseGrammar(ws.frames)
    ensures R.Reached(ws.config, R.Start(old(ws.Wire())), old(ws.Supply()), passes, cut, R.CoreOf(ws.Abs()), ws.Supply())
    ensures cut.Some? ==> R.FromOutside(cut.value)
    ensures ws.stream.hardWrites == old(ws.stream.hardWrites) && (forall call | call in calls :: !call.SendPing?) ==>
              cut == None
  {
    ghost var clean;
    ls, passes, cut, clean := Calls(ws, calls);
    Concludes(ws, old(ws.Wire()), old(ws.Supply()), ls, passes, cut);
    if clean {
      Outbound.CommittedFramesObeyGrammar(ws.config, old(ws.Wire()), ls);
    }
  }

  /** The calls, one after the other. */
  method Calls(ws: Client.WebSocket, calls: seq<Call>)
    returns (ghost ls: seq<Label>, ghost passes: nat, ghost cut: Option<Ending>, ghost clean: bool)
    requires ws.Valid() && Connected(ws) && forall call | call in calls :: Allowed(call)
    modifies ws, ws.read, ws.text, ws.text.tail, ws.send, ws.stream
    ensures ws.Valid() && ws.stream == old(ws.stream) && ws.config == old(ws.config)
    ensures Run(ws.config, Fresh(old(ws.Wire())), ls) == Some(ws.Abs())
    ensures R.Reached(ws.config, R.Start(old(ws.Wire())), old(ws.Supply()), passes, cut, R.CoreOf(ws.Abs()), ws.Supply())
    ensures cut.Some? ==> R.FromOutside(cut.value)
    ensures clean ==> forall l | l in ls :: !Outbound.FailedClose(l)
    ensures ws.stream.hardWrites == old(ws.stream.hardWrites) ==> clean
    ensures ws.stream.hardWrites == old(ws.stream.hardWrites) && (forall call | call in calls :: !call.SendPing?) ==>
              cut == None
  {
    hide Run, Outbound.FailedClose, R.CoreOf, R.Reached, Client.WebSocket.Abs, Client.WebSocket.Supply, Client.WebSocket.Wire;
    ghost var w, u, s := ws.Wire(), ws.Supply(), ws.Abs();
    ls, passes, cut, clean := [], 0, None, true;
    Client.RunNothing(ws.config, s);
    StartsFresh(ws.config, w, u);
    var i := 0;
    while i < |calls|
      invariant 0 <= i <= |calls|
      invariant ws.Valid() && ws.stream == old(ws.stream) && ws.config == old(ws.config)
      invariant Run(ws.config, Fresh(w), ls) == Some(ws.Abs())
      invariant R.Reached(ws.config, R.Start(w), u, passes, cut, R.CoreOf(ws.Abs()), ws.Supply())
      invariant cut.Some? ==> R.FromOutside(cut.value)
      invariant clean ==> forall l | l in ls :: !Outbound.FailedClose(l)
      invariant old(ws.stream.hardWrites) <= ws.stream.hardWrites
      invariant ws.stream.hardWrites == old(ws.stream.hardWrites) ==> clean
      invariant (forall call | call in calls[..i] :: !call.SendPing?) ==>
                  ws.pingDeadline == None && (ws.stream.hardWrites == old(ws.stream.hardWrites) ==> cut == None)
      decreases |calls| - i
    {
      ghost var more, extra, ended;
      ghost var j, v, hard := R.CoreOf(ws.Abs()), ws.Supply(), ws.stream.hardWrites;
      ws.OpenCore();
      assert calls[i] in calls && calls[..i + 1] == calls[..i] + [calls[i]];
      more, extra, ended := Perform(ws, calls[i]);
      RunAppend(ws.config, Fresh(w), ls, more);
      clean := clean && ws.stream.hardWrites == hard;
      ls := ls + more;
      passes, cut := R.ReachedThen(ws.config, R.Start(w), u, passes, cut, j, v, extra, ended, R.CoreOf(ws.Abs()), ws.Supply());
      i := i + 1;
    }
    assert calls[..i] == calls;
  }

  lemma StartsFresh(c: Config, w: bytes, u: R.Supply)
    requires R.InOrder(u)
    ensures R.CoreOf(Fresh(w)) == R.Start(w)
    ensures R.Reached(c, R.Start(w), u, 0, None, R.Start(w), u)
  {}

  /** From the run and the passes of a session to what holds of it. */
  lemma Concludes(ws: Client.WebSocket, w: bytes, u: R.Supply, ls: seq<Label>, passes: nat, cut: Option<Ending>)
    requires ws.Valid() && R.InOrder(u) && Run(ws.config, Fresh(w), ls) == Some(ws.Abs())
    requires R.Reached(ws.config, R.Start(w), u, passes, cut, R.CoreOf(ws.Abs()), ws.Supply())
    requires cut.Some? ==> R.FromOutside(cut.value)
    ensures Agrees(ws, w) && Orderly(ws, w, ls) && Accounted(ws, w, u, passes)
  {
    hide Run, Transcribe, ParseFrame, MessageOk, R.Reached, R.Passes, R.Fetches, Pressure.Processed, ClientFrames;
    hide Outbound.ServerSees, Outbound.Owed, Outbound.LastSend, Outbound.PongPayloads;
    Delivery.DeliveredIsTheTranscript(ws.config, w, ls);
    Delivery.BoundsAlwaysHold(ws.config, w, ls);
    Outbound.WireIsCommittedFrames(ws.config, w, ls);
    Outbound.ServerReadsCommittedFrames(ws.config, w, ls);
    Outbound.PongsAreThoseOwed(ws.config, Fresh(w), ls);
    Outbound.PendingOutputIsBounded(ws.config, w, ls);
    NoPongsYet();
    FloodIsAccounted(ws, w, u, passes, cut);
  }

  lemma NoPongsYet()
    ensures Outbound.PongPayloads([]) == []
  {}

  lemma FloodIsAccounted(ws: Client.WebSocket, w: bytes, u: R.Supply, passes: nat, cut: Option<Ending>)
    requires ws.Valid() && R.InOrder(u)
    requires R.Reached(ws.config, R.Start(w), u, passes, cut, R.CoreOf(ws.Abs()), ws.Supply())
    requires cut.Some? ==> R.FromOutside(cut.value)
    ensures Accounted(ws, w, u, passes)
  {
    hide R.Passes, R.Fetches, Pressure.Processed, ServerFrames, Pressure.TotalRelief, Pressure.SmallOnes;
    NoReliefYet();
    Pressure.FramesAreBudgeted(ws.config, R.Start(w), u, passes);
    Pressure.ProcessedIsConsumed(ws.config, R.Start(w), u, passes);
    if Pressure.AllSmall(R.Fetches(ws.config, R.Start(w), u, passes)) {
      Pressure.TrickleNeverFloods(ws.config, R.Start(w), u, passes);
    }
  }

  lemma NoReliefYet()
    ensures Pressure.TotalRelief([]) == 0
  {}

  /**
   * From the opening handshake on: a client in any state connects and makes any
   * calls.  What follows the response header is the session's; what its reads fetch
   * follows from the buffer the client came with and from the stream's events.
   */
  method Conversation(ws: Client.WebSocket, next: Stream, fieldsOk: bool, calls: seq<Call>)
    returns (connected: bool, ghost header: nat, ghost ls: seq<Label>, ghost passes: nat, ghost cut: Option<Ending>)
    requires ws.Valid() && forall call | call in calls :: Allowed(call)
    modifies ws, ws.read, ws.text, ws.text.tail, ws.send, next
    ensures ws.Valid() && ws.config == old(ws.config) && ws.stream == next
    ensures connected <==> fieldsOk && Handshake.Welcomes(|old(ws.read.buf)|, old(next.input), old(next.readPlan))
    ensures connected ==>
              && Handshake.IsVerdict(old(next.input), Handshake.HeaderEnd(header)) && header <= |old(next.input)|
              && Handshake.StatusOk(old(next.input), header)
    ensures connected ==>
              var w := old(next.input)[header..];
              var u := R.AfterResponse(|old(ws.read.buf)|, old(next.input), old(next.readPlan), old(ws.draws), header);
              && Run(ws.config, Fresh(w), ls) == Some(ws.Abs())
              && Agrees(ws, w) && Orderly(ws, w, ls) && Accounted(ws, w, u, passes)
              && R.Reached(ws.config, R.Start(w), u, passes, cut, R.CoreOf(ws.Abs()), ws.Supply())
              && (cut.Some? ==> R.FromOutside(cut.value))
    ensures connected && next.hardWrites == old(next.hardWrites) ==>
              Outbound.CloseGrammar(ws.frames) && ((forall call | call in calls :: !call.SendPing?) ==> cut == None)
  {
    hide Handshake.IsVerdict, Handshake.StatusOk, Handshake.Welcomes, R.AfterResponse;
    hide Connected, Agrees, Orderly, Accounted, Run, R.Reached, R.CoreOf;
    hide Outbound.CloseGrammar, Client.WebSocket.Abs, Client.WebSocket.Supply, Client.WebSocket.Wire;
    connected, header := Connect(ws, next, fieldsOk);
    if connected {
      ls, passes, cut := Session(ws, calls);
    } else {
      ls, passes, cut := [], 0, None;
    }
  }
}
