/**
 * The gateway heartbeat: when a missing acknowledgement is noticed, and that an
 * answered connection is never given up.  Times are nanoseconds on one clock;
 * every reading of the clock is a separate value.
 */
module Heartbeat {
  import opened Bytes

  const MS: int := 1_000_000
  const MAX_HEARTBEAT_INTERVAL_MS: nat := 300_000

  datatype Failure = BadHeartbeatInterval(ms: nat) | ConnectionZombied | SendFailed

  /** The four fields of the heartbeat state. */
  datatype Beat = Beat(interval: int, next: int, pending: bool, lastAck: int) {
    /** `backstop_window` */
    function Window(): int { interval * 2 }

    /** `backstop_check` at a reading of the clock. */
    predicate PastBackstop(at: int) { pending && at - lastAck > Window() }

    /** `heartbeat_check` at two readings: a heartbeat is to be sent. */
    predicate Due(a: int, b: int) { !PastBackstop(a) && b >= next && !pending }

    function Acked(at: int): Beat {
      if pending then this.(pending := false, lastAck := at) else this
    }

    function Sent(at: int): Beat { this.(next := at + interval, pending := true) }

    /** `poll_timeout` with its two readings. */
    function Timeout(p: int, q: int): int {
      var toNext := Max(Max(next - p, 0), MS);
      if pending then Min(toNext, Max(Max(lastAck + Window() - q, 0), MS)) else toNext
    }
  }

  /**
   * What one read of the gateway brought, with the readings taken while handling
   * it.  `Unsent`: a requested heartbeat that the client did not take.
   */
  datatype Input = Quiet | Ack(at: int) | Request(checked: int, sent: int) | Unsent(checked: int)

  /**
   * One pass of the gateway loop: `send_if_due` reads the clock at `a` and `b`,
   * and at `c` if it sends; `poll_timeout` reads it at `p` and `q`; then a read.
   */
  datatype Pass = Pass(a: int, b: int, c: int, p: int, q: int, input: Input) {
    /** The last reading of the pass. */
    function Last(): int {
      match input
      case Quiet => q
      case Ack(t) => t
      case Request(_, u) => u
      case Unsent(t) => t
    }

    predicate InOrder() {
      && a <= b <= c <= p <= q
      && match input
         case Quiet => true
         case Ack(t) => q <= t
         case Request(t, u) => q <= t <= u
         case Unsent(t) => q <= t
    }
  }

  /** The state when the timeout is computed; nothing if the connection is given up. */
  function AfterCheck(s: Beat, x: Pass): Option<Beat> {
    if s.PastBackstop(x.a) then None
    else if x.b < s.next then Some(s)
    else if s.pending then None
    else Some(s.Sent(x.c))
  }

  function AfterInput(s: Beat, input: Input): Option<Beat> {
    match input
    case Quiet => Some(s)
    case Ack(t) => Some(s.Acked(t))
    case Request(t, u) => if s.PastBackstop(t) then None else Some(s.Sent(u))
    case Unsent(t) => if s.PastBackstop(t) then None else Some(s)
  }

  /** One pass; nothing once `ConnectionZombied` is raised. */
  function Step(s: Beat, x: Pass): Option<Beat> {
    match AfterCheck(s, x)
    case None => None
    case Some(s') => AfterInput(s', x.input)
  }

  function Run(s: Beat, xs: seq<Pass>): Option<Beat>
    decreases |xs|
  {
    if xs == [] then Some(s)
    else
      match Step(s, xs[0])
      case None => None
      case Some(s') => Run(s', xs[1..])
  }

  lemma {:induction false} RunSnoc(s: Beat, xs: seq<Pass>, x: Pass)
    ensures Run(s, xs + [x]) == match Run(s, xs) case None => None case Some(t) => Step(t, x)
    decreases |xs|
  {
    hide Step;
    if xs == [] {
      assert [x][1..] == [] && xs + [x] == [x];
    } else {
      assert (xs + [x])[1..] == xs[1..] + [x];
      if Step(s, xs[0]).Some? {
        RunSnoc(Step(s, xs[0]).value, xs[1..], x);
      }
    }
  }

  // ----- Timely runs -----

  /** The loop's own work takes at most `lag`, and the read returns within its timeout and `lag`. */
  predicate PassTimely(s: Beat, x: Pass, lag: nat) {
    && x.InOrder() && x.p <= x.a + lag
    && (AfterCheck(s, x).Some? ==> x.Last() <= WakeBy(s, x, lag))
  }

  function WakeBy(s: Beat, x: Pass, lag: nat): int
    requires AfterCheck(s, x).Some?
  {
    x.p + AfterCheck(s, x).value.Timeout(x.p, x.q) + lag
  }

  /** Passes follow one another: the first begins between `from` and `by`, the next in time to wake up. */
  predicate Timely(s: Beat, from: int, due: int, xs: seq<Pass>, lag: nat)
    decreases |xs|
  {
    xs != [] ==>
      && from <= xs[0].a <= due && PassTimely(s, xs[0], lag)
      && (Step(s, xs[0]).Some? ==> Timely(Step(s, xs[0]).value, xs[0].Last(), WakeBy(s, xs[0], lag), xs[1..], lag))
  }

  /** By when a pass can begin at the latest. */
  function Latest(s: Beat, lag: nat): int {
    if s.pending then s.lastAck + 2 * s.interval + MS + 4 * lag
    else s.lastAck + s.interval + MS + 2 * lag
  }

  predicate OnTrack(s: Beat, from: int, due: int, lag: nat) {
    && s.interval >= MS && s.lastAck <= from && due <= Latest(s, lag)
    && s.next <= (if s.pending then from else s.lastAck) + s.interval
  }

  /** One timely pass keeps the loop on track. */
  lemma StepOnTrack(s: Beat, from: int, due: int, x: Pass, lag: nat)
    requires OnTrack(s, from, due, lag) && from <= x.a <= due && PassTimely(s, x, lag)
    ensures Step(s, x).Some? ==> OnTrack(Step(s, x).value, x.Last(), WakeBy(s, x, lag), lag)
  {}

  /** The state before pass `k`; nothing if an earlier pass gave the connection up. */
  function StateAt(s: Beat, xs: seq<Pass>, k: nat): Option<Beat>
    requires k <= |xs|
  {
    Run(s, xs[..k])
  }

  /**
   * A dead connection is noticed: no pass of a timely run begins later than two
   * intervals, 1 ms and the loop's own delays after the last acknowledgement,
   * however many heartbeats the server asks for; and a pass that begins with a
   * heartbeat outstanding for more than two intervals since then gives up.
   */
  lemma {:induction false} ZombieRaisedInTime(s: Beat, from: int, due: int, xs: seq<Pass>, lag: nat, k: nat)
    requires OnTrack(s, from, due, lag) && Timely(s, from, due, xs, lag) && k < |xs|
    requires StateAt(s, xs, k).Some?
    ensures var t := StateAt(s, xs, k).value;
            && xs[k].a <= t.lastAck + 2 * t.interval + 1_000_000 + 4 * lag
            && (!t.pending ==> xs[k].a <= t.lastAck + t.interval + 1_000_000 + 2 * lag)
            && (t.pending && xs[k].a > t.lastAck + 2 * t.interval ==> StateAt(s, xs, k + 1) == None)
    decreases k
  {
    hide PassTimely, WakeBy;
    if k == 0 {
      assert xs[..1][1..] == [] && xs[..0] == [];
    } else {
      StepOnTrack(s, from, due, xs[0], lag);
      assert xs[..k][1..] == xs[1..][..k - 1] && xs[..k + 1][1..] == xs[1..][..k];
      assert xs[..k][0] == xs[0] == xs[..k + 1][0];
      ZombieRaisedInTime(Step(s, xs[0]).value, xs[0].Last(), WakeBy(s, xs[0], lag), xs[1..], lag, k - 1);
    }
  }

  // ----- Answered runs -----

  /** When the outstanding heartbeat flag was set, after a pass. */
  function Since(s: Beat, since: int, x: Pass): int {
    if s.pending then since
    else if x.b >= s.next then x.c
    else if x.input.Request? then x.input.sent
    else since
  }

  /**
   * While the flag is set, no reading is later than the allowance after it was
   * set: an acknowledgement has come by then, or the run has ended.
   */
  predicate Answered(s: Beat, since: int, xs: seq<Pass>, allowance: int)
    decreases |xs|
  {
    xs != [] ==>
      && (s.pending || xs[0].b >= s.next ==> xs[0].Last() <= Since(s, since, xs[0]) + allowance)
      && (Step(s, xs[0]).Some? ==> Answered(Step(s, xs[0]).value, Since(s, since, xs[0]), xs[1..], allowance))
  }

  /** The flag was set in time, and the next heartbeat is a full interval after that. */
  predicate FlagOnTrack(s: Beat, since: int, lag: nat) {
    s.pending ==> since <= s.lastAck + s.interval + MS + 3 * lag && since + s.interval <= s.next
  }

  lemma StepAnswered(s: Beat, since: int, from: int, due: int, x: Pass, lag: nat)
    requires OnTrack(s, from, due, lag) && from <= x.a <= due && PassTimely(s, x, lag) && FlagOnTrack(s, since, lag)
    requires s.pending || x.b >= s.next ==> x.Last() <= Since(s, since, x) + s.interval - MS - 3 * lag
    ensures Step(s, x).Some? && FlagOnTrack(Step(s, x).value, Since(s, since, x), lag)
  {}

  /**
   * A live connection is never given up: if every heartbeat is acknowledged
   * within the interval less 1 ms and the loop's own delays, nothing is raised.
   */
  lemma {:induction false} AnsweredIsNeverZombied(s: Beat, since: int, from: int, due: int, xs: seq<Pass>, lag: nat)
    requires OnTrack(s, from, due, lag) && Timely(s, from, due, xs, lag) && FlagOnTrack(s, since, lag)
    requires Answered(s, since, xs, s.interval - 1_000_000 - 3 * lag)
    ensures Run(s, xs).Some?
    decreases |xs|
  {
    hide PassTimely, WakeBy, OnTrack, FlagOnTrack;
    if xs != [] {
      StepOnTrack(s, from, due, xs[0], lag);
      StepAnswered(s, since, from, due, xs[0], lag);
      var t := Step(s, xs[0]).value;
      AnsweredIsNeverZombied(t, Since(s, since, xs[0]), xs[0].Last(), WakeBy(s, xs[0], lag), xs[1..], lag);
    }
  }

  function At(ms: int): Pass {
    Pass(ms * MS, ms * MS, ms * MS, ms * MS, ms * MS, Quiet)
  }

  /** One more pass at the front of a timely run. */
  lemma Lead(s: Beat, from: int, due: int, x: Pass, t: Beat, wake: int, xs: seq<Pass>)
    requires from <= x.a <= due && PassTimely(s, x, 0) && Step(s, x) == Some(t) && wake == WakeBy(s, x, 0)
    requires Timely(t, x.Last(), wake, xs, 0)
    ensures Timely(s, from, due, [x] + xs, 0) && Run(s, [x] + xs) == Run(t, xs)
  {
    assert ([x] + xs)[1..] == xs;
  }

  /** The last passes: two intervals after the acknowledgement nothing is raised yet, 1 ms later it is. */
  lemma LastPasses(t: Beat)
    requires t == Beat(10 * MS, 29 * MS, true, 0)
    ensures Timely(t, 19 * MS, 20 * MS, [At(20), At(21)], 0) && Timely(t, 19 * MS, 20 * MS, [At(20)], 0)
    ensures Run(t, [At(20)]).Some? && Run(t, [At(20), At(21)]) == None
  {
    var tail := [At(21)];
    assert PassTimely(t, At(21), 0) && Step(t, At(21)) == None;
    assert Timely(t, 20 * MS, 21 * MS, tail, 0) && Run(t, tail) == None;
    Lead(t, 19 * MS, 20 * MS, At(20), t, 21 * MS, tail);
    Lead(t, 19 * MS, 20 * MS, At(20), t, 21 * MS, []);
    assert [At(20)] + [] == [At(20)] && [At(20)] + tail == [At(20), At(21)];
  }

  /** The first passes: the heartbeat goes out when due, and the server asks for another 9 ms later. */
  lemma FirstPasses(s: Beat, x0: Pass, x1: Pass, t: Beat)
    requires s == Beat(10 * MS, 10 * MS, false, 0) && t == Beat(10 * MS, 29 * MS, true, 0)
    requires x0 == At(0) && x1 == At(10).(input := Request(19 * MS, 19 * MS))
    ensures AfterCheck(s, x0) == Some(s) && AfterCheck(s, x1).Some?
    ensures PassTimely(s, x0, 0) && Step(s, x0) == Some(s) && WakeBy(s, x0, 0) == 10 * MS
    ensures PassTimely(s, x1, 0) && Step(s, x1) == Some(t) && WakeBy(s, x1, 0) == 20 * MS
  {
    assert AfterCheck(s, x1) == Some(Beat(10 * MS, 20 * MS, true, 0));
  }

  /**
   * The bound on noticing a dead connection is reached: a timely run of a new
   * state, without delays and acknowledgements, that raises it only then.
   */
  lemma BoundIsReached() returns (s: Beat, xs: seq<Pass>)
    ensures OnTrack(s, 0, 0, 0) && Timely(s, 0, 0, xs, 0) && |xs| == 4
    ensures StateAt(s, xs, 3).Some? && StateAt(s, xs, 4) == None
    ensures forall x | x in xs :: !x.input.Ack?
    ensures xs[3].a == s.lastAck + 2 * s.interval + 1_000_000
  {
    hide Step, PassTimely, WakeBy, Timely, Run;
    s := Beat(10 * MS, 10 * MS, false, 0);
    var x0, x1 := At(0), At(10).(input := Request(19 * MS, 19 * MS));
    var t := Beat(10 * MS, 29 * MS, true, 0);
    FirstPasses(s, x0, x1, t);
    LastPasses(t);
    Lead(s, 0, 10 * MS, x1, t, 20 * MS, [At(20), At(21)]);
    Lead(s, 0, 10 * MS, x1, t, 20 * MS, [At(20)]);
    Lead(s, 0, 0, x0, s, 10 * MS, [x1] + [At(20), At(21)]);
    Lead(s, 0, 0, x0, s, 10 * MS, [x1] + [At(20)]);
    xs := [x0] + ([x1] + [At(20), At(21)]);
    assert xs[..3] == [x0] + ([x1] + [At(20)]) && xs[..4] == xs;
  }

  /** A new state is on track, whatever the jitter. */
  lemma StartsOnTrack(interval: int, firstAfter: int, now: int, lag: nat)
    requires interval >= MS && firstAfter <= interval
    ensures OnTrack(Beat(interval, now + firstAfter, false, now), now, now + lag, lag)
    ensures FlagOnTrack(Beat(interval, now + firstAfter, false, now), now, lag)
  {}

  // ----- Runs and the clock -----

  /** Readings of `send_if_due`; a frame that is not taken is not timed. */
  function CheckReadings(s: Beat, a: int, b: int, c: int, taken: bool): seq<int> {
    if s.PastBackstop(a) then [a] else if s.Due(a, b) && taken then [a, b, c] else [a, b]
  }

  /** A reading that was not taken repeats the one before. */
  predicate CheckPlain(s: Beat, a: int, b: int, c: int) {
    (s.PastBackstop(a) ==> b == a) && (!s.Due(a, b) ==> c == b)
  }

  function InputReadings(s: Beat, input: Input): seq<int> {
    match input
    case Quiet => []
    case Ack(t) => if s.pending then [t] else []
    case Request(t, u) => if s.PastBackstop(t) then [t] else [t, u]
    case Unsent(t) => [t]
  }

  /** All readings of a pass, in order. */
  function Readings(s: Beat, x: Pass): seq<int> {
    CheckReadings(s, x.a, x.b, x.c, true) +
    match AfterCheck(s, x)
    case None => []
    case Some(t) => (if t.pending then [x.p, x.q] else [x.p]) + InputReadings(t, x.input)
  }

  /** What a read of the gateway calls for, as far as the heartbeat is concerned. */
  datatype Incoming = NothingToDo | HeartbeatAck | SendHeartbeat

  /** What the world does in a pass: the message that arrives, and whether the client takes the frames it is given. */
  datatype Turn = Turn(incoming: Incoming, takesDue: bool, takesRequest: bool)

  /** The input of a pass is the turn's message, with the fields that were not read repeating the reading before. */
  predicate Heard(s: Beat, q: int, input: Input, y: Turn) {
    match y.incoming
    case NothingToDo => input == Quiet
    case HeartbeatAck => input.Ack? && (!s.pending ==> input.at == q)
    case SendHeartbeat =>
      match input
      case Request(t, u) => if s.PastBackstop(t) then u == t else y.takesRequest
      case Unsent(t) => !s.PastBackstop(t) && !y.takesRequest
      case _ => false
  }

  /** The pass is what the turn calls for; one that is given up before it reads hears nothing. */
  predicate Shows(s: Beat, x: Pass, y: Turn) {
    && CheckPlain(s, x.a, x.b, x.c) && (s.Due(x.a, x.b) ==> y.takesDue)
    && match AfterCheck(s, x)
       case None => x.p == x.q == x.c && x.input == Quiet
       case Some(t) => (!t.pending ==> x.q == x.p) && Heard(t, x.q, x.input, y)
  }

  /** All readings of a run, in order. */
  function RunReadings(s: Beat, xs: seq<Pass>): seq<int>
    decreases |xs|
  {
    if xs == [] then []
    else
      var front, last := xs[..|xs| - 1], xs[|xs| - 1];
      RunReadings(s, front) + match Run(s, front) case None => [] case Some(t) => Readings(t, last)
  }

  /** Each pass is what its turn calls for. */
  ghost predicate Shown(s: Beat, xs: seq<Pass>, ys: seq<Turn>) {
    && |xs| <= |ys|
    && forall k | 0 <= k < |xs| && StateAt(s, xs, k).Some? :: Shows(StateAt(s, xs, k).value, xs[k], ys[k])
  }

  lemma ShownSnoc(s: Beat, xs: seq<Pass>, x: Pass, ys: seq<Turn>)
    requires Shown(s, xs, ys) && |xs| < |ys| && Run(s, xs).Some? && Shows(Run(s, xs).value, x, ys[|xs|])
    ensures Shown(s, xs + [x], ys)
    ensures RunReadings(s, xs + [x]) == RunReadings(s, xs) + Readings(Run(s, xs).value, x)
  {
    hide Shows, Readings, Run;
    var all := xs + [x];
    assert all[..|xs|] == xs;
    forall k | 0 <= k < |all| && StateAt(s, all, k).Some? ensures Shows(StateAt(s, all, k).value, all[k], ys[k]) {
      assert k < |xs| ==> all[..k] == xs[..k] && StateAt(s, xs, k) == StateAt(s, all, k);
    }
  }

  // ----- The state machine as the program runs it -----

  /** A clock that never runs backwards; how far it has moved between readings is unknown. */
  class Clock {
    var now: int
    ghost var readings: seq<int>           // all readings so far

    constructor ()
      ensures readings == []
    {
      now, readings := *, [];
    }

    method Read() returns (t: int)
      modifies this
      ensures t == now >= old(now) && readings == old(readings) + [t]
    {
      var step: int := *;
      now := now + Max(step, 0);
      t := now;
      readings := readings + [t];
    }
  }

  class HeartbeatState {
    var interval: int
    var nextHeartbeat: int
    var ackPending: bool
    var lastAck: int

    function Value(): Beat
      reads this
    {
      Beat(interval, nextHeartbeat, ackPending, lastAck)
    }

    /** The last acknowledgement is in the past. */
    ghost predicate Valid(clock: Clock)
      reads this, clock
    {
      interval >= MS && lastAck <= clock.now
    }

    constructor (interval: int, firstAfter: int, now: int)
      ensures Value() == Beat(interval, now + firstAfter, false, now)
    {
      this.interval, nextHeartbeat, ackPending, lastAck := interval, now + firstAfter, false, now;
    }

    /** `new`: the jittered first wait is at most the interval.  The loop starts on track. */
    static method Create(intervalMs: nat, firstAfter: nat, clock: Clock) returns (r: Result<HeartbeatState, Failure>)
      requires firstAfter <= intervalMs * 1_000_000
      modifies clock
      ensures r.Err? <==> intervalMs == 0 || intervalMs > 300_000
      ensures r.Err? ==> r.error == BadHeartbeatInterval(intervalMs)
      ensures r.Ok? ==>
                && fresh(r.value) && r.value.Valid(clock)
                && r.value.Value() == Beat(intervalMs * 1_000_000, clock.now + firstAfter, false, clock.now)
      ensures old(clock.now) <= clock.now
      ensures clock.readings == old(clock.readings) + if r.Ok? then [clock.now] else []
    {
      if intervalMs == 0 || intervalMs > MAX_HEARTBEAT_INTERVAL_MS {
        return Err(BadHeartbeatInterval(intervalMs));
      }
      var now := clock.Read();
      var h := new HeartbeatState(intervalMs * MS, firstAfter, now);
      return Ok(h);
    }

    method BackstopCheck(clock: Clock) returns (r: Result<(), Failure>, ghost at: int)
      requires Valid(clock)
      modifies clock
      ensures Valid(clock)
      ensures old(clock.now) <= at == clock.now
      ensures r == if Value().PastBackstop(at) then Err(ConnectionZombied) else Ok(())
      ensures clock.readings == old(clock.readings) + [at]
    {
      var now := clock.Read();
      at := now;
      var ackElapsed := Max(now - lastAck, 0);
      if ackPending && ackElapsed > interval * 2 {
        return Err(ConnectionZombied), at;
      }
      return Ok(()), at;
    }

    method HeartbeatCheck(clock: Clock) returns (r: Result<bool, Failure>, ghost a: int, ghost b: int)
      requires Valid(clock)
      modifies clock
      ensures Valid(clock)
      ensures old(clock.now) <= a <= b == clock.now
      ensures r == if Value().PastBackstop(a) then Err(ConnectionZombied)
                   else if b < nextHeartbeat then Ok(false)
                   else if ackPending then Err(ConnectionZombied)
                   else Ok(true)
      ensures if Value().PastBackstop(a) then b == a && clock.readings == old(clock.readings) + [a]
              else clock.readings == old(clock.readings) + [a, b]
    {
      var backstop;
      backstop, a := BackstopCheck(clock);
      b := a;
      if backstop.Err? {
        return Err(backstop.error), a, b;
      }
      var now := clock.Read();
      b := now;
      if now >= nextHeartbeat {
        if ackPending {
          return Err(ConnectionZombied), a, b;
        }
        return Ok(true), a, b;
      }
      return Ok(false), a, b;
    }

    method ReceiveAck(clock: Clock) returns (ghost at: int)
      requires Valid(clock)
      modifies this, clock
      ensures Valid(clock)
      ensures old(clock.now) <= at == clock.now && Value() == old(Value()).Acked(at)
      ensures !old(ackPending) ==> at == old(clock.now)
      ensures clock.readings == old(clock.readings) + InputReadings(old(Value()), Ack(at))
    {
      at := clock.now;
      if ackPending {
        ackPending := false;
        lastAck := clock.Read();
        at := lastAck;
      }
    }

    method PollTimeout(clock: Clock) returns (remaining: int, ghost p: int, ghost q: int)
      requires Valid(clock)
      modifies clock
      ensures Valid(clock)
      ensures old(clock.now) <= p <= q == clock.now && remaining == Value().Timeout(p, q)
      ensures clock.readings == old(clock.readings) + if ackPending then [p, q] else [p]
      ensures !ackPending ==> q == p
    {
      var now := clock.Read();
      p, q := now, now;
      remaining := Max(Max(nextHeartbeat - now, 0), MS);
      if ackPending {
        var later := clock.Read();
        q := later;
        var elapsed := Max(later - lastAck, 0);
        var backstop := Max(if elapsed <= interval * 2 then interval * 2 - elapsed else 0, MS);
        remaining := Min(remaining, backstop);
      }
    }

    /** `accepted`: whether the client took the frame. */
    method Send(clock: Clock, accepted: bool) returns (r: Result<(), Failure>, ghost at: int)
      requires Valid(clock)
      modifies this, clock
      ensures Valid(clock)
      ensures old(clock.now) <= at == clock.now
      ensures if accepted then r == Ok(()) && Value() == old(Value()).Sent(at)
              else r == Err(SendFailed) && Value() == old(Value()) && at == old(clock.now)
      ensures clock.readings == old(clock.readings) + if accepted then [at] else []
    {
      if !accepted {
        return Err(SendFailed), clock.now;
      }
      var now := clock.Read();
      nextHeartbeat := now + interval;
      ackPending := true;
      return Ok(()), now;
    }

    /** The state after the call, and why it failed if it did. */
    method SendIfDue(clock: Clock, accepted: bool) returns (r: Result<(), Failure>, ghost a: int, ghost b: int, ghost c: int)
      requires Valid(clock)
      modifies this, clock
      ensures Valid(clock)
      ensures old(clock.now) <= a <= b <= c == clock.now
      ensures forall p, q, input ::
        (r == Err(ConnectionZombied)) == (AfterCheck(old(Value()), Pass(a, b, c, p, q, input)) == None)
      ensures r.Ok? ==> forall p, q, input :: AfterCheck(old(Value()), Pass(a, b, c, p, q, input)) == Some(Value())
      ensures r.Err? ==> Value() == old(Value())
      ensures r.Ok? || r == Err(ConnectionZombied) || (r == Err(SendFailed) && !accepted && old(Value()).Due(a, b))
      ensures clock.readings == old(clock.readings) + CheckReadings(old(Value()), a, b, c, accepted)
      ensures CheckPlain(old(Value()), a, b, c) && (old(Value()).Due(a, b) && !accepted ==> r.Err?)
    {
      var due;
      due, a, b := HeartbeatCheck(clock);
      c := b;
      if due.Err? {
        return Err(due.error), a, b, c;
      }
      if due.value {
        r, c := Send(clock, accepted);
      } else {
        r := Ok(());
      }
    }

    method ServerRequested(clock: Clock, accepted: bool) returns (r: Result<(), Failure>, ghost t: int, ghost u: int)
      requires Valid(clock)
      modifies this, clock
      ensures Valid(clock)
      ensures old(clock.now) <= t <= u == clock.now
      ensures (r == Err(ConnectionZombied)) == (AfterInput(old(Value()), Request(t, u)) == None)
      ensures r.Ok? ==> AfterInput(old(Value()), Request(t, u)) == Some(Value())
      ensures r.Err? ==> Value() == old(Value())
      ensures r != Err(ConnectionZombied) ==> r == if accepted then Ok(()) else Err(SendFailed)
      ensures clock.readings == old(clock.readings) + if r.Ok? then [t, u] else [t]
      ensures r.Err? ==> u == t
    {
      r, t := BackstopCheck(clock);
      u := t;
      if r.Ok? {
        r, u := Send(clock, accepted);
      }
    }
  }

  // ----- The gateway loop -----

  /** The rest of a pass, once the timeout is set. */
  method HandleInput(h: HeartbeatState, clock: Clock, y: Turn) returns (r: Result<(), Failure>, ghost input: Input)
    requires h.Valid(clock)
    modifies h, clock
    ensures h.Valid(clock) && old(clock.now) <= clock.now
    ensures Heard(old(h.Value()), old(clock.now), input, y)
    ensures (y.incoming.NothingToDo? <==> input.Quiet?) && (y.incoming.HeartbeatAck? <==> input.Ack?)
    ensures clock.readings == old(clock.readings) + InputReadings(old(h.Value()), input)
    ensures r == Err(SendFailed) <==> input.Unsent?
    ensures r.Ok? || r == Err(ConnectionZombied) || r == Err(SendFailed)
    ensures match input
            case Quiet => old(clock.now) == clock.now
            case Ack(t) => old(clock.now) <= t == clock.now
            case Request(t, u) => old(clock.now) <= t <= u == clock.now
            case Unsent(t) => old(clock.now) <= t == clock.now
    ensures AfterInput(old(h.Value()), input) == if r == Err(ConnectionZombied) then None else Some(h.Value())
  {
    input := Quiet;
    match y.incoming {
      case NothingToDo => r := Ok(());
      case HeartbeatAck =>
        ghost var at := h.ReceiveAck(clock);
        input := Ack(at);
        r := Ok(());
      case SendHeartbeat =>
        ghost var t, u;
        r, t, u := h.ServerRequested(clock, y.takesRequest);
        input := if r == Err(SendFailed) then Unsent(t) else Request(t, u);
    }
  }

  /** Every pass begins within two intervals, 1 ms and the loop's own delays of the last acknowledgement. */
  ghost predicate NoticedInTime(s: Beat, xs: seq<Pass>, lag: nat) {
    forall k | 0 <= k < |xs| && StateAt(s, xs, k).Some? ::
      xs[k].a <= StateAt(s, xs, k).value.lastAck + 2 * s.interval + MS + 4 * lag
  }

  /** How a run of the loop ended. */
  ghost predicate Outcome(s: Beat, xs: seq<Pass>, r: Result<(), Failure>, t: Beat) {
    if r == Err(ConnectionZombied) then xs != [] && Run(s, xs[..|xs| - 1]).Some? && Run(s, xs) == None
    else Run(s, xs) == Some(t)
  }

  /**
   * One pass of the loop.  If its due heartbeat is not taken there is no pass to
   * show, only the two readings of the check.
   */
  method OnePass(h: HeartbeatState, clock: Clock, y: Turn)
    returns (r: Result<(), Failure>, ghost done: Option<Pass>, ghost checks: seq<int>)
    requires h.Valid(clock)
    modifies h, clock
    ensures h.Valid(clock) && old(clock.now) <= clock.now
    ensures r.Ok? || r == Err(ConnectionZombied) || r == Err(SendFailed)
    ensures match done
            case Some(x) =>
              && x.InOrder() && old(clock.now) <= x.a && (r.Ok? ==> x.Last() == clock.now)
              && Shows(old(h.Value()), x, y) && checks == [] && (r == Err(SendFailed) <==> x.input.Unsent?)
              && clock.readings == old(clock.readings) + Readings(old(h.Value()), x)
              && Step(old(h.Value()), x) == if r == Err(ConnectionZombied) then None else Some(h.Value())
            case None =>
              && r == Err(SendFailed) && h.Value() == old(h.Value()) && !y.takesDue
              && |checks| == 2 && h.Value().Due(checks[0], checks[1])
              && clock.readings == old(clock.readings) + checks
  {
    ghost var a, b, c, p, q, input;
    checks := [];
    r, a, b, c := h.SendIfDue(clock, y.takesDue);
    if r == Err(ConnectionZombied) {
      done := Some(Pass(a, b, c, c, c, Quiet));
      return;
    }
    if r.Err? {
      done, checks := None, [a, b];
      return;
    }
    var timeout;
    timeout, p, q := h.PollTimeout(clock);
    r, input := HandleInput(h, clock, y);
    done := Some(Pass(a, b, c, p, q, input));
  }

  /**
   * The gateway's polling from a new heartbeat state on, for any messages and any
   * behaviour of the clock.  The run `xs` is what the turns call for, at the
   * readings that were taken of the clock, one pass for each turn until the loop
   * fails; `checks` are the readings of a check whose heartbeat was not taken.  If
   * the passes are timely for some bound on the loop's own delays, a dead
   * connection is noticed in time; if moreover every heartbeat is answered, the
   * connection is not given up.
   */
  method Poll(h: HeartbeatState, clock: Clock, turns: seq<Turn>, ghost lag: nat)
    returns (r: Result<(), Failure>, ghost xs: seq<Pass>, ghost checks: seq<int>)
    requires h.Valid(clock) && !h.ackPending && h.lastAck == clock.now
    requires h.nextHeartbeat <= clock.now + h.interval
    modifies h, clock
    ensures Outcome(old(h.Value()), xs, r, h.Value())
    ensures Shown(old(h.Value()), xs, turns) && (r.Ok? ==> |xs| == |turns|)
    ensures r.Ok? || r == Err(ConnectionZombied) || r == Err(SendFailed)
    ensures clock.readings == old(clock.readings) + RunReadings(old(h.Value()), xs) + checks
    ensures forall x | x in xs :: x.InOrder()
    ensures forall k | 0 <= k < |xs| :: xs[k].input.Unsent? ==> k == |xs| - 1 && r == Err(SendFailed) && checks == []
    ensures r == Err(SendFailed) && checks == [] ==> xs != [] && xs[|xs| - 1].input.Unsent?
    ensures checks != [] ==>
              && r == Err(SendFailed) && |xs| < |turns| && !turns[|xs|].takesDue
              && |checks| == 2 && h.Value().Due(checks[0], checks[1])
    ensures var s, now := old(h.Value()), old(clock.now);
            Timely(s, now, now + lag, xs, lag) ==>
              && NoticedInTime(s, xs, lag)
              && (Answered(s, now, xs, s.interval - MS - 3 * lag) ==> r != Err(ConnectionZombied))
  {
    hide Step, Run, Timely, Answered, NoticedInTime, Shows, Readings, RunReadings, Shown;
    ghost var s := h.Value();
    ghost var now := clock.now;
    xs, checks := [], [];
    r := Ok(());
    NoPasses(s, turns);
    var i := 0;
    while i < |turns|
      invariant 0 <= i == |xs| <= |turns| && h.Valid(clock) && r.Ok? && checks == []
      invariant Run(s, xs) == Some(h.Value()) && Shown(s, xs, turns)
      invariant clock.readings == old(clock.readings) + RunReadings(s, xs)
      invariant forall x | x in xs :: x.InOrder() && !x.input.Unsent?
    {
      ghost var done;
      r, done, checks := OnePass(h, clock, turns[i]);
      if done.Some? {
        RunSnoc(s, xs, done.value);
        ShownSnoc(s, xs, done.value, turns);
        assert (xs + [done.value])[..|xs|] == xs;
        xs := xs + [done.value];
      }
      if r.Err? {
        break;
      }
      i := i + 1;
    }
    Conclude(s, now, xs, lag);
  }

  lemma NoPasses(s: Beat, turns: seq<Turn>)
    ensures Run(s, []) == Some(s) && Shown(s, [], turns) && RunReadings(s, []) == []
  {}

  lemma Conclude(s: Beat, now: int, xs: seq<Pass>, lag: nat)
    requires s.interval >= MS && !s.pending && s.lastAck == now && s.next <= now + s.interval
    ensures Timely(s, now, now + lag, xs, lag) ==>
              && NoticedInTime(s, xs, lag)
              && (Answered(s, now, xs, s.interval - MS - 3 * lag) ==> Run(s, xs).Some?)
  {
    hide Timely, Answered, OnTrack, FlagOnTrack;
    StartsOnTrack(s.interval, s.next - now, now, lag);
    if Timely(s, now, now + lag, xs, lag) {
      forall k | 0 <= k < |xs| && StateAt(s, xs, k).Some?
        ensures xs[k].a <= StateAt(s, xs, k).value.lastAck + 2 * s.interval + MS + 4 * lag
      {
        ZombieRaisedInTime(s, now, now + lag, xs, lag, k);
        IntervalStays(s, xs[..k]);
      }
      if Answered(s, now, xs, s.interval - MS - 3 * lag) {
        AnsweredIsNeverZombied(s, now, now, now + lag, xs, lag);
      }
    }
  }

  lemma {:induction false} IntervalStays(s: Beat, xs: seq<Pass>)
    requires Run(s, xs).Some?
    ensures Run(s, xs).value.interval == s.interval
    decreases |xs|
  {
    if xs != [] {
      IntervalStays(Step(s, xs[0]).value, xs[1..]);
    }
  }
}
