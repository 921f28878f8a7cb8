/**
 * What the application receives, over every run: the messages are those of the
 * pure reading of the peer's octets, however the octets were split into reads,
 * whatever was sent meanwhile, and whatever connection the buffers served before.
 */
module Delivery {
  import opened Bytes
  import opened Frames
  import opened Messages
  import opened Connection
  import opened TextAssembly

  /** The connection was cut off for a reason outside the peer's octets. */
  predicate Aborted(s: Endpoint) {
    s.close.Closed? && s.close.why.ByAbort?
  }

  /** Delivered messages together with those still to come. */
  function Outlook(c: Config, s: Endpoint): Transcript
    requires s.recv.Carried()
  {
    match s.close
    case Closed(ByPeer) => Transcript(s.delivered, Ended)
    case Closed(ByError(e)) => Transcript(s.delivered, Broken(e))
    case Closed(_) => Transcript(s.delivered, Waiting)
    case _ =>
      var t := Transcribe(s.recv, s.wire, c.maxPayload);
      Transcript(s.delivered + t.messages, t.end)
  }

  /** No step changes the outlook; an abort only cuts it short. */
  lemma StepOutlook(c: Config, s: Endpoint, l: Label)
    requires c.Ok() && s.recv.Carried() && Enabled(c, s, l)
    ensures var t := Apply(c, s, l);
            && Outlook(c, t).messages <= Outlook(c, s).messages
            && (!Aborted(t) ==> Outlook(c, t) == Outlook(c, s))
            && (Aborted(s) ==> Aborted(t))
  {
    hide ParseFrame, OnFrame, ClientFrame;
    if l.Receive? {
      ReceiveOutlook(c, s, l);
    }
  }

  lemma ReceiveOutlook(c: Config, s: Endpoint, l: Label)
    requires c.Ok() && s.recv.Carried() && Enabled(c, s, l) && l.Receive?
    ensures var t := Apply(c, s, l);
            && Outlook(c, t).messages <= Outlook(c, s).messages
            && (!Aborted(t) ==> Outlook(c, t) == Outlook(c, s))
  {
    hide ParseFrame, OnFrame, ClientFrame;
    var p := ParseFrame(s.wire, c.maxPayload);
    if p.Whole? {
      WholeIsServerFrame(s.wire, c.maxPayload);
      match OnFrame(s.recv, p.frame, c.maxPayload) {
        case Deliver(m) =>
          var rest := Transcribe(Idle, s.wire[p.size..], c.maxPayload);
          assert s.delivered + ([m] + rest.messages) == s.delivered + [m] + rest.messages;
        case _ =>
      }
    }
  }

  lemma {:induction false} RunOutlook(c: Config, s: Endpoint, ls: seq<Label>)
    requires c.Ok() && s.recv.Carried() && Run(c, s, ls).Some?
    ensures var t := Run(c, s, ls).value;
            && Outlook(c, t).messages <= Outlook(c, s).messages
            && (!Aborted(t) ==> Outlook(c, t) == Outlook(c, s) && !Aborted(s))
    decreases |ls|
  {
    hide Apply, Enabled, Outlook;
    if ls != [] {
      var front := ls[..|ls| - 1];
      RunOutlook(c, s, front);
      StepOutlook(c, Run(c, s, front).value, ls[|ls| - 1]);
    }
  }

  /**
   * The messages of every run are a beginning of the pure reading of the peer's
   * octets; once no whole frame is left, or the connection ended on its own,
   * they are all of it, and the ending is the one the octets call for.
   */
  lemma DeliveredIsTheTranscript(c: Config, w: bytes, ls: seq<Label>)
    requires c.Ok() && Run(c, Fresh(w), ls).Some?
    ensures var t, whole := Run(c, Fresh(w), ls).value, Transcribe(Idle, w, c.maxPayload);
            && t.delivered <= whole.messages
            && (!t.close.Closed? && ParseFrame(t.wire, c.maxPayload).NeedMore? ==>
                  t.delivered == whole.messages && whole.end == Waiting)
            && (t.close == Closed(ByPeer) ==> whole == Transcript(t.delivered, Ended))
            && (t.close == Closed(ByEof) ==> whole == Transcript(t.delivered, Waiting))
            && forall e :: t.close == Closed(ByError(e)) ==> whole == Transcript(t.delivered, Broken(e))
  {
    hide ParseFrame, OnFrame;
    RunOutlook(c, Fresh(w), ls);
    assert [] + Transcribe(Idle, w, c.maxPayload).messages == Transcribe(Idle, w, c.maxPayload).messages;
    var t := Run(c, Fresh(w), ls).value;
    assert t.delivered + [] == t.delivered;
  }

  /**
   * Two uses of the client fed the same octets agree: one delivers a beginning of
   * what the other delivers, and if both end on their own they end alike.
   */
  lemma RunsAgree(c: Config, w: bytes, xs: seq<Label>, ys: seq<Label>)
    requires c.Ok() && Run(c, Fresh(w), xs).Some? && Run(c, Fresh(w), ys).Some?
    ensures var a, b := Run(c, Fresh(w), xs).value, Run(c, Fresh(w), ys).value;
            && (a.delivered <= b.delivered || b.delivered <= a.delivered)
            && (a.close.Closed? && b.close.Closed? && !Aborted(a) && !Aborted(b) ==>
                  a.delivered == b.delivered && a.close == b.close)
  {
    hide ParseFrame, OnFrame, Apply, Enabled, Transcribe;
    DeliveredIsTheTranscript(c, w, xs);
    DeliveredIsTheTranscript(c, w, ys);
  }

  /**
   * A fragmented text within the limit, pings in between or not, valid or not: in
   * every run that was not cut off, the application has received nothing yet, or
   * the one text that reassembly makes of the fragments; it has received that text
   * once everything is read, and a text that is refused ends the connection.
   */
  lemma FragmentedTextReachesApplication(c: Config, fs: seq<Frame>, parts: seq<bytes>, ls: seq<Label>)
    requires c.Ok() && AllAdmissible(fs, c.maxPayload) && Run(c, Fresh(ServerFrames(fs)), ls).Some?
    requires parts != [] && |Concat(parts)| <= c.maxPayload
    ensures var t := Run(c, Fresh(ServerFrames(fs)), ls).value;
            WithoutPingPong(fs) == Fragments(OP_TEXT, parts) ==>
              match Assemble(EMPTY, parts)
              case Some(m) =>
                && t.delivered <= [Text(m)]
                && (!Aborted(t) && ParseFrame(t.wire, c.maxPayload).NeedMore? ==> t.delivered == [Text(m)])
                && (forall e :: t.close != Closed(ByError(e)))
              case None =>
                && t.delivered == []
                && (t.close.Closed? && !Aborted(t) ==> t.close == Closed(ByError(InvalidUtf8)))
                && (!t.close.Closed? ==> !ParseFrame(t.wire, c.maxPayload).NeedMore?)
  {
    hide ParseFrame, OnFrame, Apply, Enabled, Fragments, Assemble;
    var w, max := ServerFrames(fs), c.maxPayload;
    PingPongTransparent(Idle, fs, [], max);
    FragmentedTextOutcome(parts, [], max);
    assert w + [] == w;
    NothingFromNothing(max);
    DeliveredIsTheTranscript(c, w, ls);
  }

  // ----- Bounds over whole runs -----

  predicate BoundsHold(c: Config, s: Endpoint) {
    && s.recv.Ok(c.maxPayload)
    && forall m | m in s.delivered :: MessageOk(m, c.maxPayload)
  }

  lemma StepBounds(c: Config, s: Endpoint, l: Label)
    requires c.Ok() && s.recv.Carried() && Enabled(c, s, l) && BoundsHold(c, s)
    ensures BoundsHold(c, Apply(c, s, l))
  {
    hide ParseFrame, OnFrame, ClientFrame, MessageOk;
    if l.Receive? && ParseFrame(s.wire, c.maxPayload).Whole? {
      WholeIsServerFrame(s.wire, c.maxPayload);
      OnFrameKeeps(s.recv, ParseFrame(s.wire, c.maxPayload).frame, c.maxPayload);
    }
  }

  /** Reassembly stays within the limit, and every delivered text is UTF-8, in every run. */
  lemma {:induction false} BoundsAlwaysHold(c: Config, w: bytes, ls: seq<Label>)
    requires c.Ok() && Run(c, Fresh(w), ls).Some?
    ensures BoundsHold(c, Run(c, Fresh(w), ls).value)
    decreases |ls|
  {
    hide Apply, Enabled;
    if ls != [] {
      var front := ls[..|ls| - 1];
      BoundsAlwaysHold(c, w, front);
      StepBounds(c, Run(c, Fresh(w), front).value, ls[|ls| - 1]);
    }
  }
}
