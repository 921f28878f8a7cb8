/**
 * The read loop as a function of what decides it: the reassembly state, the
 * read buffer's cursors and length, the stream's events and the random draws.
 * Sending takes no part in it.  The methods of `WebSocket` are proved to make
 * these passes, so that two clients can be compared by comparing passes.
 */
module Reading {
  import opened Bytes
  import opened Frames
  import opened Messages
  import opened Connection
  import opened Transport
  import opened ReadBuffer
  import FrameIo
  import Handshake

  /** The part of a connection that reading changes. */
  datatype Core = Core(wire: bytes, recv: Recv, ended: Option<Ending>, score: nat, delivered: seq<Message>)

  function CoreOf(s: Endpoint): Core {
    Core(s.wire, s.recv, if s.close.Closed? then Some(s.close.why) else None, s.score, s.delivered)
  }

  /** The core of a connection on which nothing has been read. */
  function Start(w: bytes): Core {
    Core(w, Idle, None, 0, [])
  }

  /** Ways in which a connection is cut off by something other than reading. */
  predicate FromOutside(why: Ending) {
    why == ByAbort(Io) || why == ByAbort(ConnClosed) || why == ByAbort(PingTimeout)
  }

  /** A connection that ends for the given reason. */
  function End(k: Core, why: Ending): Core {
    k.(recv := Idle, ended := Some(why))
  }

  /** What a connection can fetch; `draws` are the random decisions to shrink the read buffer. */
  datatype Supply = Supply(intake: Intake, draws: seq<bool>)

  predicate InOrder(u: Supply) {
    u.intake.start <= u.intake.end <= u.intake.len
  }

  /** A read buffer of length `len` with nothing pending, on a stream with `left` octets. */
  function Unread(len: nat, left: nat, plan: seq<ReadEvent>, draws: seq<bool>): Supply {
    Supply(Intake(0, 0, len, left, plan), draws)
  }

  /**
   * What a connection can fetch once the response to its handshake was read, on a
   * buffer that had `len` octets; `w` are the response and all that follows its header.
   */
  ghost function AfterResponse(len: nat, w: bytes, plan: seq<ReadEvent>, draws: seq<bool>, header: nat): (u: Supply)
    ensures InOrder(u)
  {
    Supply(Handshake.Behind(Handshake.Searched(len, w, plan).0, header), draws)
  }

  /** Compaction and shrinking at the top of the loop. */
  function Maintained(u: Supply): (v: Supply)
    requires InOrder(u)
    ensures InOrder(v)
  {
    var r := u.intake;
    if r.start > 0 && (r.start == r.end || r.start > Max(Handshake.MAX_HEADER, r.end / 2)) then
      var end := r.end - r.start;
      var shrink := u.draws != [] && u.draws[0];
      Supply(r.(start := 0, end := end, len := if shrink then end else r.len), if u.draws == [] then [] else u.draws[1..])
    else u
  }

  /** What a pass fetches for the frame at the head of the wire. */
  datatype Fetch = Fetch(supply: Supply, fill: FillResult, fetched: nat)

  function FetchFrame(c: Config, u: Supply, wire: bytes): (f: Fetch)
    requires InOrder(u)
    ensures InOrder(f.supply)
  {
    var m := Maintained(u);
    var (a, fill) := FrameIo.AfterFrame(m.intake, wire, c.maxPayload);
    Fetch(Supply(a, m.draws), fill, a.end - m.intake.end)
  }

  /** The frame at the head of the wire, if whole, is consumed. */
  function Consumed(u: Supply, p: Parse): (v: Supply)
    requires InOrder(u)
    ensures InOrder(v)
  {
    if p.Whole? then u.(intake := u.intake.(start := Min(u.intake.end, u.intake.start + p.size))) else u
  }

  /** What the octets at the head of the wire do, once they are at hand. */
  function OnWire(c: Config, k: Core, fetched: nat): (r: Core)
    requires k.recv.Carried()
    ensures r.recv.Carried()
  {
    match ParseFrame(k.wire, c.maxPayload)
    case NeedMore => k
    case Bad(e) => End(k, ByError(e))
    case Whole(f, n) =>
      var next := k.(wire := k.wire[n..], score := Scored(k.score, Small(fetched)));
      if next.score > c.maxFlood then End(next, ByAbort(Flood))
      else
        var l := LandingOf(k.recv, next.score, k.delivered, f, c.maxPayload);
        Core(next.wire, l.recv, if l.ended.Some? then l.ended else k.ended, l.score, l.delivered)
  }

  /** One pass of the loop. */
  function Pass(c: Config, k: Core, u: Supply): (r: (Core, Supply))
    requires k.recv.Carried() && InOrder(u)
    ensures r.0.recv.Carried() && InOrder(r.1)
  {
    if k.ended.Some? then (k, u)
    else
      var f := FetchFrame(c, u, k.wire);
      match f.fill
      case WouldBlock => (k, f.supply)
      case AtEof => (End(k, ByEof), f.supply)
      case IoFailed => (End(k, ByAbort(Io)), f.supply)
      case Filled => (OnWire(c, k, f.fetched), Consumed(f.supply, ParseFrame(k.wire, c.maxPayload)))
  }

  /** The next pass blocks on its read. */
  predicate Stalls(c: Config, k: Core, u: Supply)
    requires InOrder(u)
  {
    k.ended.None? && FetchFrame(c, u, k.wire).fill == WouldBlock
  }

  function Passes(c: Config, k: Core, u: Supply, n: nat): (r: (Core, Supply))
    requires k.recv.Carried() && InOrder(u)
    ensures r.0.recv.Carried() && InOrder(r.1)
  {
    if n == 0 then (k, u)
    else
      var (j, v) := Passes(c, k, u, n - 1);
      Pass(c, j, v)
  }

  /** After `n` passes, unless the connection was then cut off from outside. */
  predicate Reached(c: Config, k: Core, u: Supply, n: nat, cut: Option<Ending>, j: Core, v: Supply)
    requires k.recv.Carried() && InOrder(u)
  {
    var (i, w) := Passes(c, k, u, n);
    v == w && if cut.None? then j == i else i.ended == None && j == End(i, cut.value)
  }

  /** The last of `n` passes blocked on its read. */
  predicate LastStalls(c: Config, k: Core, u: Supply, n: nat)
    requires k.recv.Carried() && InOrder(u)
  {
    n > 0 && Stalls(c, Passes(c, k, u, n - 1).0, Passes(c, k, u, n - 1).1)
  }

  /** Octets fetched by the passes that processed a frame, one entry for each such frame. */
  function Fetches(c: Config, k: Core, u: Supply, n: nat): seq<nat>
    requires k.recv.Carried() && InOrder(u)
  {
    if n == 0 then []
    else
      var (j, v) := Passes(c, k, u, n - 1);
      Fetches(c, k, u, n - 1) + FetchedBy(c, j, v)
  }

  function FetchedBy(c: Config, k: Core, u: Supply): seq<nat>
    requires InOrder(u)
  {
    if k.ended.Some? then []
    else
      var f := FetchFrame(c, u, k.wire);
      if f.fill == Filled && ParseFrame(k.wire, c.maxPayload).Whole? then [f.fetched] else []
  }

  // ----- Passes and steps -----

  /** A received frame changes the core as a pass over octets at hand does. */
  lemma ReceiveIsOnWire(c: Config, s: Endpoint, fetched: nat, mask: bytes)
    requires c.Ok() && s.recv.Carried() && Enabled(c, s, Receive(Small(fetched), mask))
    ensures CoreOf(Apply(c, s, Receive(Small(fetched), mask))) == OnWire(c, CoreOf(s), fetched)
  {
    hide ParseFrame, OnFrame, ClientFrame;
    if ParseFrame(s.wire, c.maxPayload).Whole? {
      WholeIsServerFrame(s.wire, c.maxPayload);
    }
  }

  lemma DrainedThenShut(s: Endpoint, n: nat, why: Ending)
    requires n <= |s.queue|
    ensures CoreOf(Drained(s, n)) == CoreOf(s)
    ensures CoreOf(Shut(Drained(s, n), why)) == End(CoreOf(s), why)
  {}

  lemma CoreFields(s: Endpoint)
    ensures CoreOf(s).wire == s.wire && CoreOf(s).recv == s.recv && (CoreOf(s).ended.None? <==> !s.close.Closed?)
  {}

  lemma ReceivedCore(c: Config, s: Endpoint, fetched: nat, mask: bytes)
    requires c.Ok() && s.recv.Carried() && Run(c, s, [Receive(Small(fetched), mask)]).Some?
    ensures CoreOf(Run(c, s, [Receive(Small(fetched), mask)]).value) == OnWire(c, CoreOf(s), fetched)
  {
    hide Apply, Enabled, OnWire;
    var l := Receive(Small(fetched), mask);
    assert [l][..0] == [] && Run(c, s, []) == Some(s);
    ReceiveIsOnWire(c, s, fetched, mask);
  }

  lemma ReceivedDrainedCore(c: Config, s: Endpoint, fetched: nat, mask: bytes, n: nat)
    requires c.Ok() && s.recv.Carried() && Run(c, s, [Receive(Small(fetched), mask)] + [Drain(n)]).Some?
    ensures CoreOf(Run(c, s, [Receive(Small(fetched), mask)] + [Drain(n)]).value) == OnWire(c, CoreOf(s), fetched)
  {
    hide OnWire, ParseFrame, OnFrame, ClientFrame;
    var ls := [Receive(Small(fetched), mask)] + [Drain(n)];
    assert ls[..1] == [Receive(Small(fetched), mask)];
    ReceivedCore(c, s, fetched, mask);
  }

  /** Sending and draining leave the core alone. */
  lemma {:induction false} SendingKeepsCore(c: Config, s: Endpoint, ls: seq<Label>)
    requires c.Ok() && s.recv.Carried() && Run(c, s, ls).Some?
    requires forall l | l in ls :: l.Send? || l.Drain?
    ensures CoreOf(Run(c, s, ls).value) == CoreOf(s)
    decreases |ls|
  {
    hide ParseFrame, OnFrame, ClientFrame;
    if ls != [] {
      assert ls[|ls| - 1] in ls;
      SendingKeepsCore(c, s, ls[..|ls| - 1]);
    }
  }

  lemma NoPasses(c: Config, k: Core, u: Supply)
    requires k.recv.Carried() && InOrder(u)
    ensures Passes(c, k, u, 0) == (k, u)
  {}

  lemma OnePassMore(c: Config, k: Core, u: Supply, n: nat)
    requires k.recv.Carried() && InOrder(u)
    ensures var (j, v) := Passes(c, k, u, n); Passes(c, k, u, n + 1) == Pass(c, j, v)
  {
    hide Pass;
  }

  lemma {:induction false} PassesAdd(c: Config, k: Core, u: Supply, m: nat, n: nat)
    requires k.recv.Carried() && InOrder(u)
    ensures var (j, v) := Passes(c, k, u, m); Passes(c, k, u, m + n) == Passes(c, j, v, n)
    decreases n
  {
    hide Pass;
    if n > 0 {
      PassesAdd(c, k, u, m, n - 1);
    }
  }

  /** Once it has ended, further passes change nothing. */
  lemma EndedStays(c: Config, k: Core, u: Supply, m: nat, n: nat)
    requires k.recv.Carried() && InOrder(u) && m <= n && Passes(c, k, u, m).0.ended.Some?
    ensures Passes(c, k, u, n) == Passes(c, k, u, m)
    decreases n
  {
    if m < n {
      EndedStays(c, k, u, m, n - 1);
    }
  }

  /** Passes made in two stretches, either of which may have been cut off from outside. */
  lemma ReachedThen(c: Config, k: Core, u: Supply, m: nat, cut: Option<Ending>, j: Core, v: Supply,
                    n: nat, cut': Option<Ending>, j': Core, v': Supply) returns (total: nat, why: Option<Ending>)
    requires k.recv.Carried() && InOrder(u) && j.recv.Carried() && InOrder(v)
    requires Reached(c, k, u, m, cut, j, v) && Reached(c, j, v, n, cut', j', v')
    ensures Reached(c, k, u, total, why, j', v')
    ensures why.Some? ==> why == cut || why == cut'
  {
    hide Pass;
    if cut.None? {
      PassesAdd(c, k, u, m, n);
      total, why := m + n, cut';
    } else {
      NoPasses(c, j, v);
      EndedStays(c, j, v, 0, n);
      total, why := m, cut;
    }
  }

  /** Equal passes: whichever of two connections has read further, one continues the other. */
  lemma OneContinuesTheOther(c: Config, k: Core, u: Supply, m: nat, n: nat)
    requires k.recv.Carried() && InOrder(u)
    ensures var a, b := Passes(c, k, u, m).0, Passes(c, k, u, n).0;
            && (a.ended.Some? && b.ended.Some? ==> a == b)
            && (m <= n ==> a.delivered <= b.delivered) && (n <= m ==> b.delivered <= a.delivered)
  {
    hide Pass;
    if m <= n {
      DeliveredGrows(c, k, u, m, n);
      if Passes(c, k, u, m).0.ended.Some? { EndedStays(c, k, u, m, n); }
    } else {
      DeliveredGrows(c, k, u, n, m);
      if Passes(c, k, u, n).0.ended.Some? { EndedStays(c, k, u, n, m); }
    }
  }

  lemma DeliveredGrows(c: Config, k: Core, u: Supply, m: nat, n: nat)
    requires k.recv.Carried() && InOrder(u) && m <= n
    ensures Passes(c, k, u, m).0.delivered <= Passes(c, k, u, n).0.delivered
    decreases n
  {
    hide Pass;
    if m < n {
      DeliveredGrows(c, k, u, m, n - 1);
      var (j, v) := Passes(c, k, u, n - 1);
      PassDelivers(c, j, v);
    }
  }

  lemma PassDelivers(c: Config, k: Core, u: Supply)
    requires k.recv.Carried() && InOrder(u)
    ensures k.delivered <= Pass(c, k, u).0.delivered
  {
    hide ParseFrame, OnFrame, FetchFrame, Consumed;
  }
}
