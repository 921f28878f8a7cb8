/**
 * Flood accounting: how many frames a peer can make the client process before
 * the limit trips, and who can never trip it.  Which passes count as small reads
 * is not assumed: it follows from the buffer and the stream's events.
 */
module Pressure {
  import opened Bytes
  import opened Frames
  import opened Messages
  import opened Connection
  import opened Reading
  import ReadBuffer

  function TotalRelief(ms: seq<Message>): nat {
    if ms == [] then 0 else TotalRelief(ms[..|ms| - 1]) + Relief(ms[|ms| - 1])
  }

  /** Entries between 1 and 127. */
  function SmallOnes(fetches: seq<nat>): nat {
    if fetches == [] then 0
    else SmallOnes(fetches[..|fetches| - 1]) + if Small(fetches[|fetches| - 1]) then 1 else 0
  }

  predicate AllSmall(fetches: seq<nat>) {
    forall x | x in fetches :: Small(x)
  }

  predicate Flooded(k: Core) {
    k.ended == Some(ByAbort(Flood))
  }

  /** The peer's frames that the first `n` passes processed. */
  function Processed(c: Config, k: Core, u: Supply, n: nat): (fs: seq<Frame>)
    requires k.recv.Carried() && InOrder(u)
    ensures |fs| == |Fetches(c, k, u, n)|
  {
    if n == 0 then []
    else
      var (j, v) := Passes(c, k, u, n - 1);
      Processed(c, k, u, n - 1) + ProcessedBy(c, j, v)
  }

  function ProcessedBy(c: Config, k: Core, u: Supply): (fs: seq<Frame>)
    requires InOrder(u)
    ensures |fs| == |FetchedBy(c, k, u)|
  {
    if FetchedBy(c, k, u) == [] then [] else [ParseFrame(k.wire, c.maxPayload).frame]
  }

  lemma ReliefSnoc(ms: seq<Message>, m: Message)
    ensures TotalRelief(ms + [m]) == TotalRelief(ms) + Relief(m)
  {
    assert (ms + [m])[..|ms|] == ms;
  }

  lemma {:induction false} SmallOnesAppend(xs: seq<nat>, ys: seq<nat>)
    requires |ys| <= 1
    ensures SmallOnes(xs + ys) == SmallOnes(xs) + SmallOnes(ys)
  {
    if ys == [] {
      assert xs + ys == xs;
    } else {
      assert (xs + ys)[..|xs|] == xs && ys[..0] == [];
    }
  }

  /** The score after the octets at hand were processed. */
  lemma WireScore(c: Config, k: Core, fetched: nat)
    requires k.recv.Carried() && k.ended == None && ParseFrame(k.wire, c.maxPayload).Whole?
    ensures var j := OnWire(c, k, fetched);
            && k.score + 1 + TotalRelief(k.delivered)
               <= j.score + TotalRelief(j.delivered) + (if Small(fetched) then 1 else 0)
            && (!Flooded(j) ==> j.score <= c.maxFlood)
            && (Small(fetched) ==> j.score <= Max(k.score, 1))
            && (Small(fetched) && c.maxFlood >= 1 && k.score <= c.maxFlood ==> !Flooded(j))
  {
    hide ParseFrame, OnFrame, TotalRelief, Relief;
    var f := ParseFrame(k.wire, c.maxPayload).frame;
    match OnFrame(k.recv, f, c.maxPayload) {
      case Deliver(m) => ReliefSnoc(k.delivered, m);
      case Finish(info) => ReliefSnoc(k.delivered, Close(info));
      case _ =>
    }
  }

  /** One pass: the score pays for every frame that neither a small read nor relief covers. */
  lemma PassScore(c: Config, k: Core, u: Supply)
    requires k.recv.Carried() && InOrder(u)
    ensures var j, fetched := Pass(c, k, u).0, FetchedBy(c, k, u);
            && |fetched| <= 1
            && k.score + |fetched| + TotalRelief(k.delivered) <= j.score + TotalRelief(j.delivered) + SmallOnes(fetched)
            && (!Flooded(j) && k.score <= c.maxFlood ==> j.score <= c.maxFlood)
            && (AllSmall(fetched) ==> j.score <= Max(k.score, 1))
            && (AllSmall(fetched) && c.maxFlood >= 1 && k.score <= c.maxFlood && !Flooded(k) ==> !Flooded(j))
  {
    hide ParseFrame, FetchFrame, TotalRelief, Relief;
    var f := FetchFrame(c, u, k.wire);
    if k.ended == None && f.fill == ReadBuffer.Filled {
      assert [f.fetched][..0] == [];
      if ParseFrame(k.wire, c.maxPayload).Whole? {
        hide OnWire;
        WireScore(c, k, f.fetched);
        assert f.fetched in FetchedBy(c, k, u);
      }
    }
  }

  /**
   * Without a flood error, the frames processed are at most the limit, plus those
   * whose pass fetched 1 to 127 octets, plus the relief of the messages delivered.
   */
  lemma {:induction false} FramesAreBudgeted(c: Config, k: Core, u: Supply, n: nat)
    requires k.recv.Carried() && InOrder(u)
    ensures var j, fetched := Passes(c, k, u, n).0, Fetches(c, k, u, n);
            && k.score + |fetched| + TotalRelief(k.delivered) <= j.score + SmallOnes(fetched) + TotalRelief(j.delivered)
            && (!Flooded(j) && k.score <= c.maxFlood ==>
                  && j.score <= c.maxFlood
                  && k.score + |fetched| + TotalRelief(k.delivered)
                     <= c.maxFlood + SmallOnes(fetched) + TotalRelief(j.delivered))
  {
    hide Pass, FetchedBy, Flooded;
    if n > 0 {
      var (j, v) := Passes(c, k, u, n - 1);
      FramesAreBudgeted(c, k, u, n - 1);
      PassScore(c, j, v);
      SmallOnesAppend(Fetches(c, k, u, n - 1), FetchedBy(c, j, v));
      FloodedStays(c, j, v);
    }
  }

  lemma FloodedStays(c: Config, k: Core, u: Supply)
    requires k.recv.Carried() && InOrder(u)
    ensures Flooded(k) ==> Flooded(Pass(c, k, u).0)
  {}

  /** A peer whose frames all arrive by small reads keeps the score at 1 and trips no limit of at least 1. */
  lemma {:induction false} TrickleNeverFloods(c: Config, k: Core, u: Supply, n: nat)
    requires k.recv.Carried() && InOrder(u) && AllSmall(Fetches(c, k, u, n))
    ensures Passes(c, k, u, n).0.score <= Max(k.score, 1)
    ensures c.maxFlood >= 1 && k.score <= c.maxFlood && !Flooded(k) ==> !Flooded(Passes(c, k, u, n).0)
  {
    hide Pass, FetchedBy, Flooded;
    if n > 0 {
      var (j, v) := Passes(c, k, u, n - 1);
      var before, last := Fetches(c, k, u, n - 1), FetchedBy(c, j, v);
      assert forall x | x in before :: x in before + last;
      assert forall x | x in last :: x in before + last;
      TrickleNeverFloods(c, k, u, n - 1);
      PassScore(c, j, v);
    }
  }

  /** The frames counted are the peer's frames: the octets read are their encodings. */
  lemma {:induction false} ProcessedIsConsumed(c: Config, k: Core, u: Supply, n: nat)
    requires c.Ok() && k.recv.Carried() && InOrder(u)
    ensures AllSized(Processed(c, k, u, n))
    ensures k.wire == ServerFrames(Processed(c, k, u, n)) + Passes(c, k, u, n).0.wire
  {
    hide Pass, FetchedBy, ProcessedBy, ServerFrame;
    if n == 0 {
      NoServerFrames(k.wire);
    } else {
      var (j, v) := Passes(c, k, u, n - 1);
      ProcessedIsConsumed(c, k, u, n - 1);
      PassConsumes(c, j, v);
      ServerFramesAppend(Processed(c, k, u, n - 1), ProcessedBy(c, j, v));
    }
  }

  lemma NoServerFrames(w: bytes)
    ensures ServerFrames([]) + w == w
  {}

  lemma PassConsumes(c: Config, k: Core, u: Supply)
    requires c.Ok() && k.recv.Carried() && InOrder(u)
    ensures var last := ProcessedBy(c, k, u);
            AllSized(last) && k.wire == ServerFrames(last) + Pass(c, k, u).0.wire
  {
    hide ParseFrame, OnFrame, FetchFrame, ServerFrame;
    NoServerFrames(k.wire);
    var p := ParseFrame(k.wire, c.maxPayload);
    if p.Whole? {
      WholeIsServerFrame(k.wire, c.maxPayload);
      assert k.wire == k.wire[..p.size] + k.wire[p.size..];
      assert ServerFrames([p.frame]) == ServerFrame(p.frame) + [];
    }
  }
}
