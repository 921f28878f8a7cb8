/**
 * Two clients on the same octets: one that served any earlier connection and is
 * given a new stream, and one that is new.  Whatever is called on either, however
 * the octets arrive and whatever happens to what they send, they agree on what
 * the peer said; and they agree on everything that reading decides, the flood
 * limit included, unless the reused client kept a long read buffer.
 */
module Pairs {
  import opened Bytes
  import opened Connection
  import opened Transport
  import RB = ReadBuffer
  import Client
  import Delivery
  import Handshake
  import L = Leftovers
  import R = Reading
  import Sessions

  predicate CutOff(ws: Client.WebSocket)
    reads ws
  {
    ws.closeState.Closed? && ws.closeState.why.ByAbort?
  }

  /** The two clients deliver the same as far as both go, and end alike if neither was cut off. */
  ghost predicate Agree(a: Client.WebSocket, b: Client.WebSocket)
    reads a, b
  {
    && (a.delivered <= b.delivered || b.delivered <= a.delivered)
    && (a.closeState.Closed? && b.closeState.Closed? && !CutOff(a) && !CutOff(b) ==>
          a.delivered == b.delivered && a.closeState == b.closeState)
  }

  /** Calls in which nothing but reading can end the connection. */
  predicate OnlyReads(calls: seq<Sessions.Call>, hardWrites: int) {
    hardWrites == 0 && forall call | call in calls :: !call.SendPing?
  }

  /**
   * `a` is reused, `b` is new and configured alike, and the same octets come to
   * both.  `m` and `n` count the passes of their read loops, which start from what
   * their buffers and streams have to fetch.  After a leftover buffer that is not
   * long, on one schedule and with the same draws, the two are in the same state,
   * however they ended, as soon as they made as many passes or the one that made
   * fewer has ended.
   */
  method ReusedAndNew(a: Client.WebSocket, next: Stream, twin: Stream, draws: seq<bool>,
                      xs: seq<Sessions.Call>, ys: seq<Sessions.Call>)
    returns (b: Client.WebSocket, ghost m: nat, ghost cut: Option<Ending>, ghost n: nat, ghost severed: Option<Ending>)
    requires a.Valid() && next != twin && next.input == twin.input
    requires forall call | call in xs || call in ys :: Sessions.Allowed(call)
    modifies a, a.read, a.text, a.text.tail, a.send, next, twin
    ensures fresh(b) && a.Valid() && b.Valid() && a.stream == next && b.stream == twin
    ensures a.config == old(a.config) == b.config
    ensures Agree(a, b)
    ensures R.Reached(a.config, R.Start(old(next.input)),
                      R.Unread(|old(a.read.buf)|, |old(next.input)|, old(next.readPlan), old(a.draws)),
                      m, cut, R.CoreOf(a.Abs()), a.Supply())
    ensures R.Reached(b.config, R.Start(old(twin.input)), R.Unread(0, |old(twin.input)|, old(twin.readPlan), draws),
                      n, severed, R.CoreOf(b.Abs()), b.Supply())
    ensures OnlyReads(xs, next.hardWrites - old(next.hardWrites)) ==> cut == None
    ensures OnlyReads(ys, twin.hardWrites - old(twin.hardWrites)) ==> severed == None
    ensures && |old(a.read.buf)| <= RB.MIN_READ_SLICE
            && old(next.readPlan) == old(twin.readPlan) && draws == old(a.draws)
            && cut == severed == None && (m == n || (if m < n then a else b).closeState.Closed?) ==>
              R.CoreOf(a.Abs()) == R.CoreOf(b.Abs())
  {
    hide Run, R.CoreOf, R.Reached, Agree, Client.WebSocket.Abs, Client.WebSocket.Supply, Client.WebSocket.Wire;
    ghost var w, u := next.input, R.Unread(|a.read.buf|, |next.input|, next.readPlan, a.draws);
    b := Pair(a, next, twin, draws);
    ghost var v := b.Supply();
    ghost var ls, ks;
    ls, m, cut := Use(a, xs);
    ks, n, severed := Use(b, ys);
    BothRead(a, b, w, ls, ks);
    if u.intake.len <= RB.MIN_READ_SLICE && cut == severed == None && v == u.(intake := u.intake.(len := 0)) {
      a.OpenCore();
      b.OpenCore();
      SameCore(a.config, w, u, m, R.CoreOf(a.Abs()), a.Supply(), n, R.CoreOf(b.Abs()), b.Supply());
    }
  }

  /** A new client with the settings of another. */
  method Twin(a: Client.WebSocket, twin: Stream, draws: seq<bool>) returns (b: Client.WebSocket)
    requires a.Valid()
    ensures b.Valid() && b.stream == twin && b.config == a.config && b.draws == draws && b.read.buf == []
    ensures fresh(b) && fresh(b.read) && fresh(b.send) && fresh(b.text) && fresh(b.text.tail)
    ensures b.Abs() == Fresh(twin.input) && b.pingDeadline == None
    ensures b.Supply() == R.Unread(0, |twin.input|, twin.readPlan, draws)
  {
    hide Client.WebSocket.Abs;
    b := new Client.WebSocket(twin, draws);
    b.Configure(a.config.maxPayload, a.config.maxBuf, a.config.budget, a.config.maxFlood);
  }

  /** `with_stream` on the one, `new` and the same settings on the other. */
  method Pair(a: Client.WebSocket, next: Stream, twin: Stream, draws: seq<bool>) returns (b: Client.WebSocket)
    requires a.Valid()
    modifies a, a.read, a.text, a.send
    ensures a.Valid() && a.stream == next && a.config == old(a.config)
    ensures a.Abs() == Fresh(next.input) && a.pingDeadline == None
    ensures a.Supply() == R.Unread(|old(a.read.buf)|, |next.input|, next.readPlan, old(a.draws))
    ensures b.Valid() && b.stream == twin && b.config == a.config
    ensures fresh(b) && fresh(b.read) && fresh(b.send) && fresh(b.text) && fresh(b.text.tail)
    ensures b.Abs() == Fresh(twin.input) && b.pingDeadline == None
    ensures b.Supply() == R.Unread(0, |twin.input|, twin.readPlan, draws)
  {
    hide Client.WebSocket.Abs, Client.WebSocket.Supply;
    a.Reuse(next);
    b := Twin(a, twin, draws);
  }

  /** A session on a client that has read nothing. */
  method Use(ws: Client.WebSocket, calls: seq<Sessions.Call>)
    returns (ghost ls: seq<Label>, ghost n: nat, ghost cut: Option<Ending>)
    requires ws.Valid() && ws.Abs() == Fresh(ws.stream.input) && ws.pingDeadline == None
    requires forall call | call in calls :: Sessions.Allowed(call)
    modifies ws, ws.read, ws.text, ws.text.tail, ws.send, ws.stream
    ensures ws.Valid() && ws.stream == old(ws.stream) && ws.config == old(ws.config)
    ensures Run(ws.config, Fresh(old(ws.stream.input)), ls) == Some(ws.Abs())
    ensures R.Reached(ws.config, R.Start(old(ws.stream.input)), old(ws.Supply()), n, cut, R.CoreOf(ws.Abs()), ws.Supply())
    ensures OnlyReads(calls, ws.stream.hardWrites - old(ws.stream.hardWrites)) ==> cut == None
  {
    hide Run, R.CoreOf, R.Reached, Sessions.Agrees, Sessions.Orderly, Sessions.Accounted;
    hide Client.WebSocket.Abs, Client.WebSocket.Supply, Client.WebSocket.Wire;
    Starts(ws);
    ls, n, cut := Sessions.Session(ws, calls);
  }

  lemma Starts(ws: Client.WebSocket)
    requires ws.Valid() && ws.Abs() == Fresh(ws.stream.input) && ws.pingDeadline == None
    ensures Sessions.Connected(ws) && ws.Wire() == ws.stream.input
  {}

  /** What two runs over the same octets have in common, for the clients that made them. */
  lemma BothRead(a: Client.WebSocket, b: Client.WebSocket, w: bytes, xs: seq<Label>, ys: seq<Label>)
    requires a.Valid() && b.Valid() && a.config == b.config
    requires Run(a.config, Fresh(w), xs) == Some(a.Abs()) && Run(b.config, Fresh(w), ys) == Some(b.Abs())
    ensures Agree(a, b)
  {
    hide Run;
    Delivery.RunsAgree(a.config, w, xs, ys);
  }

  /** Equal passes, from a leftover buffer that is not long and from a new one. */
  lemma SameCore(c: Config, w: bytes, u: R.Supply, m: nat, j: R.Core, v: R.Supply, n: nat, k: R.Core, z: R.Supply)
    requires u.intake.len <= RB.MIN_READ_SLICE && u == R.Unread(u.intake.len, |w|, u.intake.plan, u.draws)
    requires R.Reached(c, R.Start(w), u, m, None, j, v)
    requires R.Reached(c, R.Start(w), u.(intake := u.intake.(len := 0)), n, None, k, z)
    ensures m == n || (if m < n then j else k).ended.Some? ==> j == k
  {
    hide R.Pass, R.Passes;
    L.ShortLeftoverIsFresh(c, w, u.intake.len, u.intake.plan, u.draws, m);
    SamePasses(c, w, u.(intake := u.intake.(len := 0)), m, n);
  }

  /** Passes that start alike, as soon as as many were made or the fewer have ended. */
  lemma SamePasses(c: Config, w: bytes, u: R.Supply, m: nat, n: nat)
    requires R.InOrder(u)
    ensures var j, k := R.Passes(c, R.Start(w), u, m).0, R.Passes(c, R.Start(w), u, n).0;
            m == n || (if m < n then j else k).ended.Some? ==> j == k
  {
    hide R.Pass, R.Passes;
    var j, k := R.Passes(c, R.Start(w), u, m).0, R.Passes(c, R.Start(w), u, n).0;
    if m < n && j.ended.Some? {
      R.EndedStays(c, R.Start(w), u, m, n);
    } else if n < m && k.ended.Some? {
      R.EndedStays(c, R.Start(w), u, n, m);
    }
  }

  /** The same of what two connections reached, if neither was cut off. */
  lemma SameReach(c: Config, w: bytes, u: R.Supply, m: nat, j: R.Core, v: R.Supply, n: nat, k: R.Core, z: R.Supply)
    requires R.InOrder(u)
    requires R.Reached(c, R.Start(w), u, m, None, j, v) && R.Reached(c, R.Start(w), u, n, None, k, z)
    ensures m == n || (if m < n then j else k).ended.Some? ==> j == k
  {
    hide R.Passes;
    SamePasses(c, w, u, m, n);
  }

  /**
   * The same from the opening handshake on.  If both connect, they find the same end
   * of the header, and agree on what follows it.  After a leftover buffer no longer
   * than the search for the header makes a new one, on one schedule and with the
   * same draws, one connects if and only if the other does, and they are in the same
   * state as soon as they made as many passes or the one that made fewer has ended.
   */
  method ReusedAndNewConnect(a: Client.WebSocket, next: Stream, twin: Stream, draws: seq<bool>, fieldsOk: bool,
                             xs: seq<Sessions.Call>, ys: seq<Sessions.Call>)
    returns (b: Client.WebSocket, one: bool, other: bool, ghost header: nat,
             ghost m: nat, ghost cut: Option<Ending>, ghost n: nat, ghost severed: Option<Ending>)
    requires a.Valid() && next != twin && next.input == twin.input
    requires forall call | call in xs || call in ys :: Sessions.Allowed(call)
    modifies a, a.read, a.text, a.text.tail, a.send, next, twin
    ensures fresh(b) && a.Valid() && b.Valid() && a.stream == next && b.stream == twin
    ensures a.config == old(a.config) == b.config
    ensures one <==> fieldsOk && Handshake.Welcomes(|old(a.read.buf)|, old(next.input), old(next.readPlan))
    ensures other <==> fieldsOk && Handshake.Welcomes(0, old(twin.input), old(twin.readPlan))
    ensures one || other ==> Handshake.IsVerdict(old(next.input), Handshake.HeaderEnd(header)) && header <= |old(next.input)|
    ensures one && other ==> Agree(a, b)
    ensures one ==>
              R.Reached(a.config, R.Start(old(next.input)[header..]),
                        R.AfterResponse(|old(a.read.buf)|, old(next.input), old(next.readPlan), old(a.draws), header),
                        m, cut, R.CoreOf(a.Abs()), a.Supply())
    ensures other ==>
              R.Reached(b.config, R.Start(old(next.input)[header..]),
                        R.AfterResponse(0, old(twin.input), old(twin.readPlan), draws, header),
                        n, severed, R.CoreOf(b.Abs()), b.Supply())
    ensures one && OnlyReads(xs, next.hardWrites - old(next.hardWrites)) ==> cut == None
    ensures other && OnlyReads(ys, twin.hardWrites - old(twin.hardWrites)) ==> severed == None
    ensures |old(a.read.buf)| <= L.ROOM && old(next.readPlan) == old(twin.readPlan) && draws == old(a.draws) ==>
              && one == other
              && (one && cut == severed == None && (m == n || (if m < n then a else b).closeState.Closed?) ==>
                    R.CoreOf(a.Abs()) == R.CoreOf(b.Abs()))
  {
    hide Run, R.CoreOf, R.Reached, R.AfterResponse, Agree, Sessions.Agrees, Sessions.Orderly, Sessions.Accounted;
    hide Handshake.IsVerdict, Handshake.StatusOk, Handshake.Welcomes;
    hide Client.WebSocket.Abs, Client.WebSocket.Supply, Client.WebSocket.Wire;
    b := Twin(a, twin, draws);
    ghost var input, plan, len, before := next.input, next.readPlan, |a.read.buf|, a.draws;
    ghost var end, ls, ks;
    one, header, ls, m, cut := Sessions.Conversation(a, next, fieldsOk, xs);
    other, end, ks, n, severed := Sessions.Conversation(b, twin, fieldsOk, ys);
    if one && other {
      Handshake.VerdictIsUnique(input, Handshake.HeaderEnd(header), Handshake.HeaderEnd(end));
      BothRead(a, b, input[header..], ls, ks);
    } else if other {
      header := end;
    }
    if len <= L.ROOM {
      L.ShortLeftoverConnects(len, input, plan, before, header);
    }
    if one && other && len <= L.ROOM && plan == old(twin.readPlan) && draws == before && cut == severed == None {
      a.OpenCore();
      b.OpenCore();
      SameReach(a.config, input[header..], R.AfterResponse(0, input, plan, draws, header),
                m, R.CoreOf(a.Abs()), a.Supply(), n, R.CoreOf(b.Abs()), b.Supply());
    }
  }
}
