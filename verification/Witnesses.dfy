/**
 * Runs of the program that show the conditions of the theorems to be exact: a
 * close frame that fails to be written is followed by a ping, and a second
 * connection is given up for octets that the first one read without complaint.
 */
module Witnesses {
  import opened Bytes
  import opened Frames
  import opened Connection
  import opened Transport
  import RB = ReadBuffer
  import SB = SendBuffer
  import Client
  import Handshake
  import L = Leftovers
  import Outbound
  import R = Reading
  import Sessions
  import Utf8

  // ----- A close that fails to be written -----

  const FAILS_ONCE := [WriteFailed, Accept(100), Accept(100)]

  lemma FailsOnce()
    ensures Client.SendOutcome(true, SB.Outflow(0, FAILS_ONCE), 8)
         == (SB.Outflow(8, [Accept(100), Accept(100)]), Err(Client.Reconnect(Io)))
    ensures Client.SendOutcome(true, SB.Outflow(8, [Accept(100), Accept(100)]), 6) == (SB.Outflow(0, []), Ok(Client.Done))
  {
    assert FAILS_ONCE[1..] == [Accept(100), Accept(100)];
    assert [Accept(100), Accept(100)][1..] == [Accept(100)] && [Accept(100)][1..] == [];
  }

  lemma CloseIsSendable()
    ensures ClosePayload(1000, []).Ok? && |ClosePayload(1000, []).value| == 2
    ensures Utf8.Valid([])
  {}

  lemma PingBehindCloseIsRefused(fs: seq<OutFrame>)
    requires |fs| == 2 && fs[0].opcode == OP_CLOSE && fs[1].opcode == OP_PING
    ensures !Outbound.CloseGrammar(fs)
  {}

  /** `send_close` on a new client whose first write fails: the frame stays queued, the client counts as open. */
  method FailToClose(ws: Client.WebSocket, ghost w: bytes)
    returns (close: Result<Client.SendStatus, Client.CallError>, ghost xs: seq<Label>)
    requires ws.Valid() && ws.Abs() == Fresh(w) && ws.stream.writePlan == FAILS_ONCE
    modifies ws.send, ws`frames, ws`closeState
    modifies ws.stream`output, ws.stream`writePlan, ws.stream`servedWrites, ws.stream`hardWrites, ws.stream`flushes
    ensures ws.Valid() && close == Err(Client.Reconnect(Io)) && ws.closeState == Open
    ensures Run(ws.config, Fresh(w), xs) == Some(ws.Abs())
    ensures ws.Outflow() == SB.Outflow(8, [Accept(100), Accept(100)])
    ensures |ws.frames| == 1 && ws.frames[0].opcode == OP_CLOSE
  {
    hide Run, SB.AfterFlush, Client.SendOutcome, ClosePayload, ReadClose, ClientFrame, Outbound.FailedClose;
    FailsOnce();
    CloseIsSendable();
    ghost var f;
    close, xs, f := ws.SendClose(1000, []);
    Outbound.WireIsCommittedFrames(ws.config, w, xs);
    assert f.Some? by {
      assert |ws.Abs().queue| == ws.Outflow().pending == 8;
    }
  }

  /** On any stream whose first write fails: the server is sent a close frame and then a ping. */
  method PingBehindClose(input: bytes, plan: seq<ReadEvent>, draws: seq<bool>, deadline: int)
    returns (ws: Client.WebSocket, close: Result<Client.SendStatus, Client.CallError>,
             ping: Result<Client.SendStatus, Client.CallError>)
    ensures fresh(ws) && ws.Valid() && close == Err(Client.Reconnect(Io)) && ping == Ok(Client.Done)
    ensures |ws.frames| == 2 && ws.frames[0].opcode == OP_CLOSE && ws.frames[1].opcode == OP_PING
    ensures !Outbound.CloseGrammar(ws.frames)
    ensures AllWellFormed(ws.frames) && ws.stream.output == ClientFrames(ws.frames)
  {
    hide Run, SB.AfterFlush, Client.SendOutcome, ClientFrame, Outbound.FailedClose, Outbound.CloseGrammar;
    FailsOnce();
    var stream := new Stream(input, plan, FAILS_ONCE);
    ws := new Client.WebSocket(stream, draws);
    ghost var xs, ys, g;
    close, xs := FailToClose(ws, input);
    ping, ys, g := ws.SendPing(deadline);
    RunAppend(ws.config, Fresh(input), xs, ys);
    Outbound.WireIsCommittedFrames(ws.config, input, xs + ys);
    assert ws.stream.output == ws.Abs().sent + ws.Abs().queue by {
      assert |ws.Abs().queue| == ws.Outflow().pending == 0;
    }
    PingBehindCloseIsRefused(ws.frames);
  }

  // ----- A second connection that fails on what the first one read -----

  /** With a budget of one frame and nothing to write, a call to `read_message` is one pass. */
  method ReadOne(ws: Client.WebSocket) returns (r: Result<Client.ReadStatus, Client.CallError>)
    requires ws.Valid() && ws.config.budget == 1 && ws.pingDeadline == None && ws.stream.writePlan == []
    requires !ws.closeState.Closed?
    modifies ws, ws.read, ws.text, ws.text.tail, ws.send, ws.stream
    ensures ws.Valid() && ws.config == old(ws.config) && ws.pingDeadline == None && ws.stream == old(ws.stream)
    ensures ws.stream.writePlan == [] && |ws.read.buf| == ws.Supply().intake.len
    ensures (R.CoreOf(ws.Abs()), ws.Supply()) == R.Pass(ws.config, R.CoreOf(old(ws.Abs())), old(ws.Supply()))
    ensures R.CoreOf(ws.Abs()).ended == None <==> !ws.closeState.Closed?
    ensures ws.delivered == old(ws.delivered) ==>
              match R.CoreOf(ws.Abs()).ended
              case None => r == Ok(Client.Quiet)
              case Some(why) => why != ByPeer && r == Err(Client.Reconnect(Client.ErrorOf(why)))
  {
    hide Run, R.Pass, R.LastStalls, ParseFrame;
    ghost var k, u := R.CoreOf(ws.Abs()), ws.Supply();
    ghost var ls, n, cut;
    r, ls, n, cut := ws.ReadMessage(0);
    assert n == 1 && cut == None;
    OnePass(ws.config, k, u);
  }

  lemma OnePass(c: Config, k: R.Core, u: R.Supply)
    requires k.recv.Carried() && R.InOrder(u)
    ensures R.Passes(c, k, u, 1) == R.Pass(c, k, u)
  {
    hide R.Pass;
    assert R.Passes(c, k, u, 0) == (k, u);
  }

  /** What two passes over the two frames come to, for every leftover length. */
  lemma TwoPassesOutcome(len: nat, draws: seq<bool>)
    ensures var k, u := R.Start(L.TwoFrames()), R.Unread(len, 4097, L.BURSTS, draws);
            var one := R.Pass(L.TIGHT, k, u);
            var two := R.Pass(L.TIGHT, one.0, one.1);
            && one.0.ended == None && one.0.delivered == [] && two.0.delivered == []
            && two.0.ended == (if len > RB.MIN_READ_SLICE then Some(ByAbort(Flood)) else None)
            && (len == 0 ==> two.1.intake.len == 8192)
  {
    hide R.Pass, R.Passes, L.TwoFrames;
    var k, u := R.Start(L.TwoFrames()), R.Unread(len, 4097, L.BURSTS, draws);
    assert |L.TwoFrames()| == 4097;
    L.TwoPasses(L.TIGHT, k, u);
    if len > RB.MIN_READ_SLICE {
      L.LongLeftoverFloods(len, draws);
    } else {
      L.NewBufferDoesNotFlood(draws, 1);
      L.NewBufferDoesNotFlood(draws, 2);
      L.ShortLeftoverIsFresh(L.TIGHT, L.TwoFrames(), len, L.BURSTS, draws, 1);
      L.ShortLeftoverIsFresh(L.TIGHT, L.TwoFrames(), len, L.BURSTS, draws, 2);
    }
  }

  /**
   * Two reads of the two frames of `Leftovers`, by a client on which nothing has
   * been read: the second fails if and only if the client came with a read buffer
   * longer than the first read of a new client asks for.
   */
  method ReadTwice(ws: Client.WebSocket, ghost len: nat)
    returns (one: Result<Client.ReadStatus, Client.CallError>, two: Result<Client.ReadStatus, Client.CallError>)
    requires ws.Valid() && ws.config == L.TIGHT && ws.pingDeadline == None && ws.stream.writePlan == []
    requires ws.Abs() == Fresh(L.TwoFrames()) && ws.Supply() == R.Unread(len, 4097, L.BURSTS, ws.draws)
    modifies ws, ws.read, ws.text, ws.text.tail, ws.send, ws.stream
    ensures ws.Valid() && ws.config == L.TIGHT
    ensures one == Ok(Client.Quiet)
    ensures two == if len > RB.MIN_READ_SLICE then Err(Client.Reconnect(Flood)) else Ok(Client.Quiet)
    ensures len == 0 ==> |ws.read.buf| == 8192
  {
    hide Run, R.Pass, L.TwoFrames, Client.WebSocket.Supply;
    TwoPassesOutcome(len, ws.draws);
    one := ReadOne(ws);
    two := ReadOne(ws);
  }

  /** One client, twice the same octets on the same schedule: the second connection is given up as a flood. */
  method SecondTimeFloods()
    returns (first: Result<Client.ReadStatus, Client.CallError>, second: Result<Client.ReadStatus, Client.CallError>)
    ensures first == Ok(Client.Quiet) && second == Err(Client.Reconnect(Flood))
  {
    hide Client.WebSocket.Abs, L.TwoFrames;
    var stream := new Stream(L.TwoFrames(), L.BURSTS, []);
    var ws := new Client.WebSocket(stream, []);
    ws.Configure(4096, 4096, 1, 1);
    var one;
    one, first := ReadTwice(ws, 0);
    var next := new Stream(L.TwoFrames(), L.BURSTS, []);
    ws.Reuse(next);
    one, second := ReadTwice(ws, 8192);
  }

  /**
   * A client connects to `Leftovers.Greeting` and reads twice: the second read fails
   * if and only if the client came with a read buffer longer than the search for the
   * response header makes a new one.
   */
  method ConnectAndReadTwice(ws: Client.WebSocket)
    returns (one: Result<Client.ReadStatus, Client.CallError>, two: Result<Client.ReadStatus, Client.CallError>)
    requires ws.Valid() && ws.config == L.SLIM
    modifies ws, ws.read, ws.text, ws.text.tail, ws.send
    ensures ws.Valid() && ws.config == L.SLIM
    ensures one == Ok(Client.Quiet)
    ensures two == if |old(ws.read.buf)| > L.ROOM then Err(Client.Reconnect(Flood)) else Ok(Client.Quiet)
  {
    hide Run, R.Pass, R.AfterResponse, Client.WebSocket.Supply, L.Greeting, L.Sequel;
    hide Handshake.IsVerdict, Handshake.StatusOk, Handshake.Welcomes;
    var next := new Stream(L.Greeting(), L.GUSTS, []);
    GreetingArrives(|ws.read.buf|);
    L.GreetingOutcome(|ws.read.buf|, ws.draws);
    ghost var header;
    var connected;
    connected, header := Sessions.Connect(ws, next, true);
    Handshake.VerdictIsUnique(L.Greeting(), Handshake.HeaderEnd(header), Handshake.HeaderEnd(16));
    assert L.Greeting()[16..] == L.Sequel();
    one := ReadOne(ws);
    two := ReadOne(ws);
  }

  lemma GreetingArrives(len: nat)
    ensures Handshake.Welcomes(len, L.Greeting(), L.GUSTS)
    ensures Handshake.IsVerdict(L.Greeting(), Handshake.HeaderEnd(16))
  {
    hide Handshake.IsVerdict;
    L.GreetingSearched(len);
    L.GreetingIsAccepted(16);
  }

  method NewSlim(stream: Stream) returns (ws: Client.WebSocket)
    ensures ws.Valid() && ws.config == L.SLIM && ws.stream == stream && !ws.closeState.Closed? && ws.pingDeadline == None
    ensures fresh(ws) && fresh(ws.read) && fresh(ws.text) && fresh(ws.text.tail) && fresh(ws.send)
    ensures ws.read.buf == [] && R.CoreOf(ws.Abs()) == R.Start(stream.input)
    ensures ws.Supply() == R.Unread(0, |stream.input|, stream.readPlan, [])
  {
    ws := new Client.WebSocket(stream, []);
    ws.Configure(16384, 4096, 1, 1);
  }

  /** A client that has read one frame of 8687 octets connects, and is given up for what a new client reads. */
  method SecondConnectionFloods()
    returns (second: Result<Client.ReadStatus, Client.CallError>, newly: Result<Client.ReadStatus, Client.CallError>)
    ensures second == Err(Client.Reconnect(Flood)) && newly == Ok(Client.Quiet)
  {
    hide Run, R.Pass, R.CoreOf, L.Sequel, Client.WebSocket.Abs, Client.WebSocket.Supply;
    var stream := new Stream(L.Sequel(), L.GUSTS, []);
    var ws := NewSlim(stream);
    L.BulkGrows([]);
    var one := ReadOne(ws);
    one, second := ConnectAndReadTwice(ws);
    var other := NewSlim(stream);
    one, newly := ConnectAndReadTwice(other);
  }
}
