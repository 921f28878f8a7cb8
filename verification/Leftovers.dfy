/**
 * What an earlier connection leaves behind: the read buffer keeps its length, and
 * the length decides how much a read asks for, hence which passes count as small
 * reads, hence the flood limit.  Everything else is as on a new client.  The bound
 * below which the length has no influence is exact, for a stream given without a
 * handshake and for a client that connects.
 */
module Leftovers {
  import opened Bytes
  import opened Frames
  import opened Messages
  import opened Connection
  import opened Transport
  import opened ReadBuffer
  import opened Reading
  import FrameIo
  import H = Handshake

  /** A leftover buffer no longer than a first read asks for is indistinguishable from a new one. */
  lemma {:induction false} ShortLeftoverIsFresh(c: Config, w: bytes, len: nat, plan: seq<ReadEvent>, draws: seq<bool>, n: nat)
    requires len <= MIN_READ_SLICE
    ensures Passes(c, Start(w), Unread(len, |w|, plan, draws), n).0 == Passes(c, Start(w), Unread(0, |w|, plan, draws), n).0
    ensures n > 0 ==>
              Passes(c, Start(w), Unread(len, |w|, plan, draws), n) == Passes(c, Start(w), Unread(0, |w|, plan, draws), n)
  {
    hide Pass;
    if n == 1 {
      FirstPass(c, w, len, plan, draws);
      assert Passes(c, Start(w), Unread(len, |w|, plan, draws), 0) == (Start(w), Unread(len, |w|, plan, draws));
      assert Passes(c, Start(w), Unread(0, |w|, plan, draws), 0) == (Start(w), Unread(0, |w|, plan, draws));
    } else if n > 1 {
      ShortLeftoverIsFresh(c, w, len, plan, draws, n - 1);
    }
  }

  lemma FirstPass(c: Config, w: bytes, len: nat, plan: seq<ReadEvent>, draws: seq<bool>)
    requires len <= MIN_READ_SLICE
    ensures Pass(c, Start(w), Unread(len, |w|, plan, draws)) == Pass(c, Start(w), Unread(0, |w|, plan, draws))
  {
    hide ParseFrame, OnWire, AfterFill;
    FirstFill(len, |w|, plan);
  }

  lemma FirstFill(len: nat, left: nat, plan: seq<ReadEvent>)
    requires len <= MIN_READ_SLICE
    ensures AfterFill(Intake(0, 0, len, left, plan), 2) == AfterFill(Intake(0, 0, 0, left, plan), 2)
  {}

  /** The fills made for a whole frame with a two-octet header. */
  lemma ShortFrameFills(r: Intake, w: bytes, maxPayload: nat)
    requires r.end <= r.len && ParseFrame(w, maxPayload).Whole?
    requires var p := ParseFrame(w, maxPayload); p.size == |p.frame.payload| + 2
    ensures FrameIo.AfterFrame(r, w, maxPayload) ==
            var (a, f) := AfterFill(r, 2);
            if f != Filled then (a, f) else AfterFill(a, ParseFrame(w, maxPayload).size)
  {
    hide SplitOctets, AfterFill, FromBigEndian;
  }

  /** The fills made for a whole frame with a four-octet header. */
  lemma MediumFrameFills(r: Intake, w: bytes, maxPayload: nat)
    requires r.end <= r.len && ParseFrame(w, maxPayload).Whole?
    requires var p := ParseFrame(w, maxPayload); p.size == |p.frame.payload| + 4
    ensures FrameIo.AfterFrame(r, w, maxPayload) ==
            var (a, f) := AfterFill(r, 2);
            if f != Filled then (a, f)
            else
              var (b, g) := AfterFill(a, 4);
              if g != Filled then (b, g) else AfterFill(b, ParseFrame(w, maxPayload).size)
  {
    hide SplitOctets, AfterFill, FromBigEndian;
  }

  // A binary frame of 4095 octets, not final, and an empty pong behind it.
  function Big(): (f: Frame)
    ensures |f.payload| == 4091
  {
    Frame(false, OP_BINARY, seq(4091, _ => 0))
  }

  const TINY := Frame(true, OP_PONG, [])
  const TIGHT := Config(4096, 4096, 1, 1)       // a frame budget and a flood limit of 1

  function TwoFrames(): (w: bytes)
    ensures |w| == 4097
  {
    ServerFrame(Big()) + ServerFrame(TINY)
  }

  /** What the parser makes of the two frames. */
  lemma TwoFramesParse()
    ensures var w := TwoFrames();
            && ParseFrame(w, 4096) == Whole(Big(), 4095)
            && ParseFrame(w[4095..], 4096) == Whole(TINY, 2)
  {
    hide ParseFrame, LengthField;
    WitnessBits();
    ServerFrameParses(Big(), ServerFrame(TINY), 4096);
    assert TwoFrames()[4095..] == ServerFrame(TINY) == ServerFrame(TINY) + [];
    ServerFrameParses(TINY, [], 4096);
  }

  lemma WitnessBits()
    ensures Admissible(Big(), 4096) && Admissible(TINY, 4096)
  {}

  const BURSTS := [Ready(4097), Ready(4097)]

  function AfterBig(): Core {
    Core(TwoFrames()[4095..], InBinary(Big().payload), None, 1, [])
  }

  /** The pass over the first frame, if it fetches at least 4096 octets. */
  lemma BigPass(u: Supply, a: Intake)
    requires InOrder(u) && u.intake.start == 0 && a.start == 0 && 4096 <= a.end <= a.len && u.intake.end == 0
    requires AfterFill(u.intake, 2) == (a, Filled)
    ensures Pass(TIGHT, Start(TwoFrames()), u) == (AfterBig(), Supply(a.(start := 4095), u.draws))
  {
    hide ParseFrame, FrameIo.AfterFrame, AfterReads, TwoFrames;
    TwoFramesParse();
    MediumFrameFills(u.intake, TwoFrames(), 4096);
    BinaryBegins();
  }

  lemma BinaryBegins()
    ensures OnFrame(Idle, Big(), 4096) == Continue(InBinary(Big().payload))
    ensures OnFrame(InBinary(Big().payload), TINY, 4096) == Continue(InBinary(Big().payload))
  {}

  /** The pass over the second frame trips the limit if it fetches nothing, and does not if it fetches one octet. */
  lemma TinyPass(u: Supply, a: Intake)
    requires InOrder(u) && u.intake.start == 4095 && u.intake.end <= 4097
    requires AfterFill(u.intake, 2) == (a, Filled) && a.start == 4095 && a.end == 4097 <= a.len
    ensures var r := Pass(TIGHT, AfterBig(), u);
            && r.0.delivered == []
            && (u.intake.end == 4097 ==> r.0.ended == Some(ByAbort(Flood)))
            && (u.intake.end == 4096 ==> r.0.ended == None && r.1 == Supply(a.(start := 4097), u.draws))
  {
    hide ParseFrame, FrameIo.AfterFrame, AfterReads, TwoFrames;
    TwoFramesParse();
    ShortFrameFills(u.intake, TwoFrames()[4095..], 4096);
    BinaryBegins();
  }

  lemma LongFill(len: nat)
    requires len > MIN_READ_SLICE
    ensures AfterFill(Intake(0, 0, len, 4097, BURSTS), 2) == (Intake(0, 4097, len, 0, [Ready(4097)]), Filled)
  {
    assert BURSTS[1..] == [Ready(4097)];
    assert Grown(len, 0, 2) == len;
    var r := Intake(0, 4097, len, 0, [Ready(4097)]);
    assert AfterRead(Intake(0, 0, len, 4097, BURSTS)) == (r, Filled);
    assert AfterReads(r, 2) == (r, Filled);
    assert AfterReads(Intake(0, 0, len, 4097, BURSTS), 2) == (r, Filled);
  }

  lemma NewFill()
    ensures AfterFill(Intake(0, 0, 0, 4097, BURSTS), 2) == (Intake(0, 4096, 4096, 1, [Ready(4097)]), Filled)
    ensures AfterFill(Intake(4095, 4096, 4096, 1, [Ready(4097)]), 2) == (Intake(4095, 4097, 8192, 0, []), Filled)
  {
    assert BURSTS[1..] == [Ready(4097)] && [Ready(4097)][1..] == [];
  }

  /** A longer leftover buffer takes both frames in one read, and the second frame trips the flood limit. */
  lemma LongLeftoverFloods(len: nat, draws: seq<bool>)
    requires len > MIN_READ_SLICE
    ensures var k, u := Start(TwoFrames()), Unread(len, 4097, BURSTS, draws);
            && Passes(TIGHT, k, u, 1).0 == AfterBig()
            && Passes(TIGHT, k, u, 2).0.ended == Some(ByAbort(Flood)) && Passes(TIGHT, k, u, 2).0.delivered == []
  {
    hide Pass, TwoFrames, AfterFill;
    var k, u := Start(TwoFrames()), Unread(len, 4097, BURSTS, draws);
    var a := Intake(0, 4097, len, 0, [Ready(4097)]);
    LongFill(len);
    BigPass(u, a);
    TwoPasses(TIGHT, k, u);
    InHand(a.(start := 4095));
    TinyPass(Supply(a.(start := 4095), draws), a.(start := 4095));
  }

  lemma InHand(r: Intake)
    requires r.end <= r.len
    ensures r.end >= r.start + 2 ==> AfterFill(r, 2) == (r, Filled)
  {}

  lemma TwoPasses(c: Config, k: Core, u: Supply)
    requires k.recv.Carried() && InOrder(u)
    ensures Passes(c, k, u, 1) == Pass(c, k, u)
    ensures Passes(c, k, u, 2) == Pass(c, Pass(c, k, u).0, Pass(c, k, u).1)
  {
    hide Pass;
    assert Passes(c, k, u, 0) == (k, u);
  }

  /**
   * A new buffer needs a second, small read for the last octet, and nothing trips,
   * however often it is read; it has then become a longer buffer itself.
   */
  lemma NewBufferDoesNotFlood(draws: seq<bool>, n: nat)
    ensures var r := Passes(TIGHT, Start(TwoFrames()), Unread(0, 4097, BURSTS, draws), n);
            r.0.ended == None && r.0.delivered == [] && (n == 2 ==> r.1.intake.len == 8192)
  {
    hide Pass, TwoFrames, AfterFill;
    var k, u := Start(TwoFrames()), Unread(0, 4097, BURSTS, draws);
    NewFill();
    BigPass(u, Intake(0, 4096, 4096, 1, [Ready(4097)]));
    TwoPasses(TIGHT, k, u);
    TinyPass(Supply(Intake(4095, 4096, 4096, 1, [Ready(4097)]), draws), Intake(4095, 4097, 8192, 0, []));
    assert Passes(TIGHT, k, u, 0) == (k, u);
    if n > 2 {
      var (j, v) := Passes(TIGHT, k, u, 2);
      PassesAdd(TIGHT, k, u, 2, n - 2);
      QuietForever(TIGHT, j, v, n - 2);
    }
  }

  /** A drained buffer on a stream whose schedule has run out. */
  predicate Dry(u: Supply) {
    u.intake.start == u.intake.end <= u.intake.len && u.intake.plan == []
  }

  lemma {:induction false} QuietForever(c: Config, k: Core, u: Supply, n: nat)
    requires k.recv.Carried() && Dry(u)
    ensures Passes(c, k, u, n).0 == k && Dry(Passes(c, k, u, n).1)
  {
    hide Pass;
    if n > 0 {
      QuietForever(c, k, u, n - 1);
      QuietPass(c, k, Passes(c, k, u, n - 1).1);
    }
  }

  lemma QuietPass(c: Config, k: Core, u: Supply)
    requires k.recv.Carried() && Dry(u)
    ensures Pass(c, k, u).0 == k && Dry(Pass(c, k, u).1)
  {
    hide ParseFrame, OnWire;
  }

  /** Nothing an earlier connection left in the read buffer shows, whatever is read and however it arrives. */
  ghost predicate Harmless(len: nat) {
    forall c: Config, w: bytes, plan: seq<ReadEvent>, draws: seq<bool>, n: nat ::
      Passes(c, Start(w), Unread(len, |w|, plan, draws), n).0 == Passes(c, Start(w), Unread(0, |w|, plan, draws), n).0
  }

  /** The exact condition: the leftover buffer is no longer than the first read of a new client asks for. */
  lemma HarmlessIffShort(len: nat)
    ensures Harmless(len) <==> len <= MIN_READ_SLICE
  {
    hide Passes, TwoFrames;
    if len <= MIN_READ_SLICE {
      forall c: Config, w: bytes, plan: seq<ReadEvent>, draws: seq<bool>, n: nat
        ensures Passes(c, Start(w), Unread(len, |w|, plan, draws), n).0 == Passes(c, Start(w), Unread(0, |w|, plan, draws), n).0
      {
        ShortLeftoverIsFresh(c, w, len, plan, draws, n);
      }
    } else {
      LongLeftoverFloods(len, []);
      NewBufferDoesNotFlood([], 2);
      assert |TwoFrames()| == 4097;
    }
  }

  // ----- Behind an opening handshake -----

  /** The length to which the search for the response header grows a shorter buffer. */
  const ROOM: nat := H.MAX_HEADER + MIN_READ_HEADROOM

  /** After a handshake, a leftover buffer no longer than that is indistinguishable from a new one. */
  lemma ShortLeftoverConnects(len: nat, w: bytes, plan: seq<ReadEvent>, draws: seq<bool>, header: nat)
    requires len <= ROOM
    ensures H.Welcomes(len, w, plan) <==> H.Welcomes(0, w, plan)
    ensures AfterResponse(len, w, plan, draws, header) == AfterResponse(0, w, plan, draws, header)
  {
    hide H.AfterSearch, H.IsVerdict, H.StatusOk;
    assert H.Searched(len, w, plan) == H.Searched(0, w, plan);
  }

  /** With either buffer the response is accepted or not, and `n` passes over what follows its header lead to one state. */
  ghost predicate Alike(len: nat, c: Config, w: bytes, header: nat, plan: seq<ReadEvent>, draws: seq<bool>, n: nat)
    requires header <= |w|
  {
    && (H.Welcomes(len, w, plan) <==> H.Welcomes(0, w, plan))
    && (H.Welcomes(0, w, plan) && H.IsVerdict(w, H.HeaderEnd(header)) ==>
          Passes(c, Start(w[header..]), AfterResponse(len, w, plan, draws, header), n).0
          == Passes(c, Start(w[header..]), AfterResponse(0, w, plan, draws, header), n).0)
  }

  /** Nothing an earlier connection left in the read buffer shows after a handshake. */
  ghost predicate HarmlessToConnect(len: nat) {
    forall c: Config, w: bytes, header: nat, plan: seq<ReadEvent>, draws: seq<bool>, n: nat | header <= |w| ::
      Alike(len, c, w, header, plan, draws, n)
  }

  // A response of 16 octets, a binary frame of 8687 octets, not final, and an empty pong.
  const RESPONSE: bytes := H.STATUS + [H.CR, H.LF, H.CR, H.LF]

  function Bulk(): (f: Frame)
    ensures |f.payload| == 8683
  {
    Frame(false, OP_BINARY, seq(8683, _ => 0))
  }

  const SLIM := Config(16384, 4096, 1, 1)       // as `TIGHT`, but for larger frames

  function Sequel(): (w: bytes)
    ensures |w| == 8689
  {
    ServerFrame(Bulk()) + ServerFrame(TINY)
  }

  function Greeting(): (w: bytes)
    ensures |w| == 8705 && w[16..] == Sequel()
  {
    RESPONSE + Sequel()
  }

  const GUSTS := [Ready(8705), Ready(8705)]

  lemma SequelParses()
    ensures var w := Sequel();
            && ParseFrame(w, 16384) == Whole(Bulk(), 8687)
            && ParseFrame(w[8687..], 16384) == Whole(TINY, 2)
  {
    hide ParseFrame, LengthField;
    BulkBits();
    ServerFrameParses(Bulk(), ServerFrame(TINY), 16384);
    assert Sequel()[8687..] == ServerFrame(TINY) == ServerFrame(TINY) + [];
    ServerFrameParses(TINY, [], 16384);
  }

  lemma BulkBits()
    ensures Admissible(Bulk(), 16384) && Admissible(TINY, 16384)
    ensures OnFrame(Idle, Bulk(), 16384) == Continue(InBinary(Bulk().payload))
    ensures OnFrame(InBinary(Bulk().payload), TINY, 16384) == Continue(InBinary(Bulk().payload))
  {}

  function AfterBulk(): Core {
    Core(Sequel()[8687..], InBinary(Bulk().payload), None, 1, [])
  }

  /** The pass over the first frame, which is at hand. */
  lemma BulkPass(u: Supply)
    requires InOrder(u) && u.intake.start == 0 && u.intake.end >= 8687
    ensures Pass(SLIM, Start(Sequel()), u) == (AfterBulk(), Supply(u.intake.(start := 8687), u.draws))
  {
    hide ParseFrame, FrameIo.AfterFrame, AfterReads, Sequel;
    SequelParses();
    MediumFrameFills(u.intake, Sequel(), 16384);
    BulkBits();
  }

  /** The pass over the second frame compacts; it trips the limit if the frame is at hand, and not if an octet is to come. */
  lemma LastPass(u: Supply)
    requires InOrder(u) && u.intake.start == 8687
    requires u.intake.end == 8689 || (u.intake.end == 8688 && u.intake.left == 1 && u.intake.plan == [Ready(8705)])
    ensures var r := Pass(SLIM, AfterBulk(), u);
            && r.0.delivered == []
            && r.0.ended == if u.intake.end == 8689 then Some(ByAbort(Flood)) else None
  {
    hide ParseFrame, FrameIo.AfterFrame, AfterFill, Sequel;
    SequelParses();
    var m := Maintained(u);
    assert m.intake.start == 0 && m.intake.end == u.intake.end - 8687;
    ShortFrameFills(m.intake, Sequel()[8687..], 16384);
    LastFill(m.intake);
    BulkBits();
  }

  lemma LastFill(r: Intake)
    requires r.start == 0 && r.end <= r.len
    requires r.end == 2 || (r.end == 1 && r.left == 1 && r.plan == [Ready(8705)])
    ensures var (a, f) := AfterFill(r, 2);
            f == Filled && a.start == 0 && a.end == 2 <= a.len && AfterFill(a, 2) == (a, Filled)
  {
    if r.end == 1 {
      var grown := r.(len := Grown(r.len, 1, 2));
      var a := grown.(end := 2, left := 0, plan := []);
      assert [Ready(8705)][1..] == [];
      assert AfterRead(grown) == (a, Filled);
      assert AfterReads(a, 2) == (a, Filled);
    }
  }

  lemma GreetingIsAccepted(k: nat)
    requires 16 <= k <= 8705
    ensures H.IsVerdict(Greeting()[..k], H.HeaderEnd(16)) && H.Ends(Greeting()[..k])
    ensures H.IsVerdict(Greeting(), H.HeaderEnd(16)) && H.StatusOk(Greeting(), 16)
  {
    hide H.LineEnds, Sequel, H.IsVerdict;
    ResponseVerdict();
    H.VerdictIsStable(RESPONSE, Sequel()[..k - 16], H.HeaderEnd(16));
    assert Greeting()[..k] == RESPONSE + Sequel()[..k - 16];
    H.VerdictIsStable(RESPONSE, Sequel(), H.HeaderEnd(16));
    H.OneHeaderEnd(Greeting()[..k], H.HeaderEnd(16));
    assert Greeting()[..16] == RESPONSE && RESPONSE[..12] == H.STATUS;
    if !H.Ends(Greeting()[..k]) {
      H.VerdictIsUnique(Greeting()[..k], H.HeaderEnd(16), H.Unfinished);
    }
  }

  lemma ResponseVerdict()
    ensures H.IsVerdict(RESPONSE, H.HeaderEnd(16))
  {
    hide H.LineEnds;
    assert RESPONSE == [72, 84, 84, 80, 47, 49, 46, 49, 32, 49, 48, 49, 13, 10, 13, 10];
  }

  /** What the search fetches of it. */
  lemma GreetingSearched(len: nat)
    ensures H.Welcomes(len, Greeting(), GUSTS)
    ensures H.Searched(len, Greeting(), GUSTS) ==
            (if len > ROOM then Intake(0, 8705, len, 0, [Ready(8705)]) else Intake(0, 8704, ROOM, 1, [Ready(8705)]), Filled)
  {
    hide H.IsVerdict, H.StatusOk, Greeting, H.Ends;
    var grown := Intake(0, 0, Max(len, ROOM), 8705, GUSTS);
    var k := if len > ROOM then 8705 else 8704;
    assert GUSTS[1..] == [Ready(8705)];
    GreetingIsAccepted(k);
    assert H.Searched(len, Greeting(), GUSTS) == H.AfterSearch(grown, Greeting());
    assert AfterRead(grown) == (grown.(end := k, left := 8705 - k, plan := [Ready(8705)]), Filled);
  }

  /** After connecting, two passes trip the limit if and only if the buffer was longer. */
  lemma GreetingOutcome(len: nat, draws: seq<bool>)
    ensures var k, u := Start(Sequel()), AfterResponse(len, Greeting(), GUSTS, draws, 16);
            var one := Pass(SLIM, k, u);
            var two := Pass(SLIM, one.0, one.1);
            && one.0.ended == None && one.0.delivered == [] && two.0.delivered == []
            && two.0.ended == (if len > ROOM then Some(ByAbort(Flood)) else None)
  {
    hide Pass, Sequel, Greeting, H.Searched;
    GreetingSearched(len);
    var u := AfterResponse(len, Greeting(), GUSTS, draws, 16);
    BulkPass(u);
    LastPass(Supply(u.intake.(start := 8687), draws));
  }

  /** Without a handshake, the first of the two frames makes a new buffer longer than that. */
  lemma BulkGrows(draws: seq<bool>)
    ensures Pass(SLIM, Start(Sequel()), Unread(0, 8689, GUSTS, draws)).1.intake.len == 9199 > ROOM
    ensures Pass(SLIM, Start(Sequel()), Unread(0, 8689, GUSTS, draws)).0 == AfterBulk()
  {
    hide ParseFrame, FrameIo.AfterFrame, Sequel, AfterFill;
    SequelParses();
    BulkFills();
    MediumFrameFills(Intake(0, 0, 0, 8689, GUSTS), Sequel(), 16384);
    BulkBits();
  }

  lemma BulkFills()
    ensures var a, b := Intake(0, 4096, 4096, 4593, [Ready(8705)]), Intake(0, 8689, 9199, 0, []);
            && AfterFill(Intake(0, 0, 0, 8689, GUSTS), 2) == (a, Filled) && AfterFill(a, 4) == (a, Filled)
            && AfterFill(a, 8687) == (b, Filled)
  {
    assert GUSTS[1..] == [Ready(8705)] && [Ready(8705)][1..] == [];
  }

  /** The exact condition: the leftover buffer is no longer than the search for the header makes a new one. */
  lemma HarmlessToConnectIffShort(len: nat)
    ensures HarmlessToConnect(len) <==> len <= ROOM
  {
    hide Passes, Greeting, Sequel, H.Welcomes, AfterResponse, H.IsVerdict;
    if len <= ROOM {
      forall c: Config, w: bytes, header: nat, plan: seq<ReadEvent>, draws: seq<bool>, n: nat | header <= |w|
        ensures Alike(len, c, w, header, plan, draws, n)
      {
        ShortLeftoverConnects(len, w, plan, draws, header);
      }
    } else {
      GreetingSearched(0);
      GreetingIsAccepted(16);
      GreetingOutcome(len, []);
      GreetingOutcome(0, []);
      TwoPasses(SLIM, Start(Sequel()), AfterResponse(len, Greeting(), GUSTS, [], 16));
      TwoPasses(SLIM, Start(Sequel()), AfterResponse(0, Greeting(), GUSTS, [], 16));
      assert |Greeting()| == 8705 && Greeting()[16..] == Sequel();
      assert !Alike(len, SLIM, Greeting(), 16, GUSTS, [], 2);
    }
  }
}
