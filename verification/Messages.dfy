/**
 * Messages: what one frame does to the reassembly state, and the pure reading
 * of a whole byte stream as a sequence of messages.  This is the reference that
 * the buffered, resumable `read_message` loop has to agree with.
 */
module Messages {
  import opened Bytes
  import opened Frames
  import opened TextAssembly
  import Utf8

  datatype Message =
    | Text(text: bytes)
    | Binary(data: bytes)
    | Close(info: CloseInfo)

  /** Progress of a fragmented message. */
  datatype Recv =
    | Idle
    | InText(st: TextState)
    | InBinary(data: bytes)
  {
    /** A fragmented text carries a tail that a scan left over. */
    predicate Carried() {
      InText? ==> TailOk(st.tail)
    }

    predicate Ok(maxPayload: nat) {
      match this
      case Idle => true
      case InText(st) => Sound(st) && |st.text| + |st.tail| <= maxPayload
      case InBinary(data) => |data| <= maxPayload
    }
  }

  /** The outcome of one frame. */
  datatype Effect =
    | Continue(recv: Recv)
    | Deliver(message: Message)
    | Finish(info: CloseInfo)
    | Reject(error: ConnError)

  function OnFrame(recv: Recv, f: Frame, maxPayload: nat): (e: Effect)
    requires recv.Carried()
    ensures e.Continue? ==> e.recv.Carried()
  {
    if f.opcode == OP_CONTINUATION then
      match recv
      case Idle => Reject(UnexpectedContinuation)
      case InText(st) =>
        var total := |st.text| + |st.tail| + |f.payload|;
        if total > maxPayload then Reject(FragmentedMessageTooLarge(total))
        else
          (match PushText(st, f.payload, f.fin)
           case None => Reject(InvalidUtf8)
           case Some(next) => if f.fin then Deliver(Text(next.text)) else Continue(InText(next)))
      case InBinary(data) =>
        var total := |data| + |f.payload|;
        if total > maxPayload then Reject(FragmentedMessageTooLarge(total))
        else if f.fin then Deliver(Binary(data + f.payload))
        else Continue(InBinary(data + f.payload))
    else if f.opcode == OP_TEXT || f.opcode == OP_BINARY then
      if recv != Idle then Reject(DataDuringFragmentation)
      else if f.fin then
        if f.opcode == OP_BINARY then Deliver(Binary(f.payload))
        else if Utf8.Valid(f.payload) then Deliver(Text(f.payload))
        else Reject(InvalidUtf8)
      else if f.opcode == OP_BINARY then Continue(InBinary(f.payload))
      else
        match PushText(EMPTY, f.payload, false)
        case None => Reject(InvalidUtf8)
        case Some(next) => Continue(InText(next))
    else if f.opcode == OP_CLOSE then
      match ReadClose(f.payload)
      case Err(e) => Reject(e)
      case Ok(info) => Finish(info)
    else if f.opcode == OP_PING || f.opcode == OP_PONG then Continue(recv)
    else Reject(UnknownOpcode(f.opcode))
  }

  function Payload(m: Message): bytes {
    match m
    case Text(t) => t
    case Binary(d) => d
    case Close(info) => info.reason
  }

  /** What reassembly promises of a delivered message. */
  predicate MessageOk(m: Message, maxPayload: nat) {
    && |Payload(m)| <= maxPayload
    && (!m.Binary? ==> Utf8.Valid(Payload(m)))
  }

  /** Bounds and well-formedness are kept by every frame the parser lets through. */
  lemma OnFrameKeeps(recv: Recv, f: Frame, maxPayload: nat)
    requires recv.Ok(maxPayload) && 125 <= maxPayload <= ISIZE_MAX && |f.payload| <= maxPayload
    requires IsControl(f.opcode) ==> |f.payload| <= 125
    ensures var e := OnFrame(recv, f, maxPayload);
            && (e.Continue? ==> e.recv.Ok(maxPayload))
            && (e.Deliver? ==> MessageOk(e.message, maxPayload) && !e.message.Close?)
            && (e.Finish? ==> MessageOk(Close(e.info), maxPayload))
    // the length sum of a continuation cannot wrap around
    ensures recv.InText? ==> |recv.st.text| + |recv.st.tail| + |f.payload| < USIZE_LIMIT
    ensures recv.InBinary? ==> |recv.data| + |f.payload| < USIZE_LIMIT
  {
    hide Utf8.Valid, Utf8.ValidUpTo, PushText, Drops, FromBigEndian;
    if recv.InText? && PushText(recv.st, f.payload, f.fin).Some? {
      PushKeeps(recv.st, f.payload, f.fin);
    }
    if PushText(EMPTY, f.payload, false).Some? {
      EmptyIsSound();
      PushKeeps(EMPTY, f.payload, false);
    }
    EmptyIsSound();
  }

  lemma EmptyIsSound()
    ensures Sound(EMPTY) && Utf8.Valid([])
  {}

  // ----- A whole stream -----

  /** How a stream ends: awaiting more octets, after a close frame, or at a protocol error. */
  datatype End = Waiting | Ended | Broken(error: ConnError)

  datatype Transcript = Transcript(messages: seq<Message>, end: End)

  function Prepend(m: Message, t: Transcript): Transcript {
    Transcript([m] + t.messages, t.end)
  }

  /** Everything that a connection in state `recv` delivers from the octets `w`. */
  function Transcribe(recv: Recv, w: bytes, maxPayload: nat): Transcript
    requires recv.Carried()
    decreases |w|
  {
    match ParseFrame(w, maxPayload)
    case NeedMore => Transcript([], Waiting)
    case Bad(e) => Transcript([], Broken(e))
    case Whole(f, n) =>
      match OnFrame(recv, f, maxPayload)
      case Continue(next) => Transcribe(next, w[n..], maxPayload)
      case Deliver(m) => Prepend(m, Transcribe(Idle, w[n..], maxPayload))
      case Finish(info) => Transcript([Close(info)], Ended)
      case Reject(e) => Transcript([], Broken(e))
  }

  /** More octets only add messages; a stream that has ended or broken is settled. */
  lemma {:induction false} TranscribePrefix(recv: Recv, w: bytes, more: bytes, maxPayload: nat)
    requires recv.Carried()
    ensures var t, u := Transcribe(recv, w, maxPayload), Transcribe(recv, w + more, maxPayload);
            && t.messages <= u.messages
            && (!t.end.Waiting? ==> u == t)
    decreases |w|
  {
    hide ParseFrame, OnFrame;
    if !ParseFrame(w, maxPayload).NeedMore? {
      ParseStable(w, more, maxPayload);
      if ParseFrame(w, maxPayload).Whole? {
        var n := ParseFrame(w, maxPayload).size;
        assert (w + more)[n..] == w[n..] + more;
        match OnFrame(recv, ParseFrame(w, maxPayload).frame, maxPayload) {
          case Continue(next) => TranscribePrefix(next, w[n..], more, maxPayload);
          case Deliver(_) => TranscribePrefix(Idle, w[n..], more, maxPayload);
          case _ =>
        }
      }
    }
  }

  predicate AllAdmissible(fs: seq<Frame>, maxPayload: nat) {
    forall f | f in fs :: Admissible(f, maxPayload)
  }

  /** The first frame of an encoded sequence is read first. */
  lemma TranscribeFirst(f: Frame, fs: seq<Frame>, tail: bytes, maxPayload: nat)
    requires maxPayload <= ISIZE_MAX && AllAdmissible([f] + fs, maxPayload)
    ensures f in [f] + fs && AllAdmissible(fs, maxPayload)
    ensures var w := ServerFrames([f] + fs) + tail;
            && ParseFrame(w, maxPayload) == Whole(f, |ServerFrame(f)|)
            && w[|ServerFrame(f)|..] == ServerFrames(fs) + tail
  {
    hide ParseFrame, ServerFrame;
    assert ([f] + fs)[0] == f && ([f] + fs)[1..] == fs;
    forall g | g in fs ensures g in [f] + fs {}
    ServerFrameParses(f, ServerFrames(fs) + tail, maxPayload);
    assert ServerFrames([f] + fs) + tail == ServerFrame(f) + (ServerFrames(fs) + tail);
  }

  /** The stream without its ping and pong frames. */
  function WithoutPingPong(fs: seq<Frame>): (r: seq<Frame>)
    ensures forall f | f in r :: f in fs
  {
    if fs == [] then []
    else
      var rest := WithoutPingPong(fs[1..]);
      if fs[0].opcode == OP_PING || fs[0].opcode == OP_PONG then rest else [fs[0]] + rest
  }

  /** Pings and pongs never change what is delivered, even inside fragmented messages. */
  lemma {:induction false} PingPongTransparent(recv: Recv, fs: seq<Frame>, tail: bytes, maxPayload: nat)
    requires recv.Carried()
    requires maxPayload <= ISIZE_MAX && AllAdmissible(fs, maxPayload)
    ensures Transcribe(recv, ServerFrames(fs) + tail, maxPayload)
         == Transcribe(recv, ServerFrames(WithoutPingPong(fs)) + tail, maxPayload)
    decreases |fs|
  {
    hide ParseFrame, ServerFrame, PushText, ReadClose, Utf8.Valid;
    if fs != [] {
      var f, rest := fs[0], fs[1..];
      assert fs == [f] + rest;
      TranscribeFirst(f, rest, tail, maxPayload);
      if f.opcode == OP_PING || f.opcode == OP_PONG {
        PingPongTransparent(recv, rest, tail, maxPayload);
      } else {
        TranscribeFirst(f, WithoutPingPong(rest), tail, maxPayload);
        match OnFrame(recv, f, maxPayload) {
          case Continue(next) => PingPongTransparent(next, rest, tail, maxPayload);
          case Deliver(_) => PingPongTransparent(Idle, rest, tail, maxPayload);
          case _ =>
        }
      }
    }
  }

  // ----- Fragmented messages -----

  /** The frames of a message sent in pieces; `opcode` goes on the first. */
  function Fragments(opcode: byte, parts: seq<bytes>): (fs: seq<Frame>)
    requires parts != []
    ensures fs != [] && fs[0] == Frame(|parts| == 1, opcode, parts[0])
    decreases |parts|
  {
    [Frame(|parts| == 1, opcode, parts[0])]
    + if |parts| == 1 then [] else Fragments(OP_CONTINUATION, parts[1..])
  }

  lemma {:induction false} FragmentsAdmissible(opcode: byte, parts: seq<bytes>, maxPayload: nat)
    requires parts != [] && opcode <= OP_BINARY && |Concat(parts)| <= maxPayload
    ensures AllAdmissible(Fragments(opcode, parts), maxPayload)
    decreases |parts|
  {
    assert FourBits(opcode);
    if |parts| > 1 {
      FragmentsAdmissible(OP_CONTINUATION, parts[1..], maxPayload);
    }
  }

  /** What becomes of a text message whose reassembly gives `text`, followed by `tail`. */
  function TextOutcome(text: Option<bytes>, tail: bytes, maxPayload: nat): Transcript {
    match text
    case Some(m) => Prepend(Text(m), Transcribe(Idle, tail, maxPayload))
    case None => Transcript([], Broken(InvalidUtf8))
  }

  /** The rest of a text message, from any reassembly state. */
  lemma {:induction false} TextContinues(st: TextState, parts: seq<bytes>, tail: bytes, maxPayload: nat)
    requires TailOk(st.tail) && parts != []
    requires |st.text| + |st.tail| + |Concat(parts)| <= maxPayload <= ISIZE_MAX
    ensures AllAdmissible(Fragments(OP_CONTINUATION, parts), maxPayload)
    ensures Transcribe(InText(st), ServerFrames(Fragments(OP_CONTINUATION, parts)) + tail, maxPayload)
         == TextOutcome(Assemble(st, parts), tail, maxPayload)
    decreases |parts|
  {
    hide ParseFrame, ServerFrame, PushText, ReadClose;
    FragmentsAdmissible(OP_CONTINUATION, parts, maxPayload);
    var fs := Fragments(OP_CONTINUATION, parts);
    assert fs == [fs[0]] + fs[1..];
    TranscribeFirst(fs[0], fs[1..], tail, maxPayload);
    if |parts| == 1 {
      assert ServerFrames([]) + tail == tail;
    } else if PushText(st, parts[0], false).Some? {
      TextContinues(PushText(st, parts[0], false).value, parts[1..], tail, maxPayload);
    }
  }

  /**
   * Every fragmentation of every text within the limit, valid or not: the stream
   * delivers exactly what the fold of `push_text_payload` makes of the fragments.
   */
  lemma FragmentedTextOutcome(parts: seq<bytes>, tail: bytes, maxPayload: nat)
    requires parts != [] && |Concat(parts)| <= maxPayload <= ISIZE_MAX
    ensures AllAdmissible(Fragments(OP_TEXT, parts), maxPayload)
    ensures Transcribe(Idle, ServerFrames(Fragments(OP_TEXT, parts)) + tail, maxPayload)
         == TextOutcome(Assemble(EMPTY, parts), tail, maxPayload)
  {
    hide ParseFrame, ServerFrame, PushText, Utf8.Valid, ReadClose, Admissible, Fragments;
    FragmentsAdmissible(OP_TEXT, parts, maxPayload);
    var fs := Fragments(OP_TEXT, parts);
    FragmentsRest(OP_TEXT, parts);
    assert fs == [fs[0]] + fs[1..];
    TranscribeFirst(fs[0], fs[1..], tail, maxPayload);
    if |parts| == 1 {
      WholeTextIsOneFragment(parts[0]);
      assert ServerFrames([]) + tail == tail;
    } else if PushText(EMPTY, parts[0], false).Some? {
      TextContinues(PushText(EMPTY, parts[0], false).value, parts[1..], tail, maxPayload);
    }
  }

  lemma FragmentsRest(opcode: byte, parts: seq<bytes>)
    requires parts != []
    ensures Fragments(opcode, parts)[1..] == if |parts| == 1 then [] else Fragments(OP_CONTINUATION, parts[1..])
  {}

  /** The one-shot check of an unfragmented text is the fold over its single fragment. */
  lemma WholeTextIsOneFragment(text: bytes)
    ensures Assemble(EMPTY, [text]) == if Utf8.Valid(text) then Some(text) else None
  {
    hide Utf8.Valid;
    Utf8.ValidIffAllScanned(text);
    assert EMPTY.text + text == text;
  }

  /** A text message split at any octets, even inside characters, is delivered whole. */
  lemma FragmentedTextIsDelivered(parts: seq<bytes>, tail: bytes, maxPayload: nat)
    requires parts != [] && Utf8.Valid(Concat(parts)) && |Concat(parts)| <= maxPayload <= ISIZE_MAX
    ensures AllAdmissible(Fragments(OP_TEXT, parts), maxPayload)
    ensures Transcribe(Idle, ServerFrames(Fragments(OP_TEXT, parts)) + tail, maxPayload)
         == Prepend(Text(Concat(parts)), Transcribe(Idle, tail, maxPayload))
  {
    hide Assemble, Utf8.Valid, Transcribe, ServerFrames, Fragments;
    ValidIffAcceptedWhole(parts);
    FragmentedTextOutcome(parts, tail, maxPayload);
  }

  /**
   * On the wire: a text message is delivered as it was sent if and only if it is
   * UTF-8; an invalid one is refused, unless a step of its reassembly takes the
   * branch that loses octets and the rest is accepted: then a shorter, valid
   * text is delivered in its place.
   */
  lemma WhatBecomesOfText(parts: seq<bytes>, maxPayload: nat)
    requires parts != [] && |Concat(parts)| <= maxPayload <= ISIZE_MAX
    ensures AllAdmissible(Fragments(OP_TEXT, parts), maxPayload)
    ensures var t := Transcribe(Idle, ServerFrames(Fragments(OP_TEXT, parts)), maxPayload);
            && (t == Transcript([Text(Concat(parts))], Waiting) <==> Utf8.Valid(Concat(parts)))
            && (t == Transcript([], Broken(InvalidUtf8)) <==> Assemble(EMPTY, parts).None?)
            && (!Utf8.Valid(Concat(parts)) && Assemble(EMPTY, parts).Some? ==>
                  var m := Assemble(EMPTY, parts).value;
                  && t == Transcript([Text(m)], Waiting)
                  && DropsSomewhere(EMPTY, parts) && Utf8.Valid(m) && |m| < |Concat(parts)|)
  {
    hide Assemble, DropsSomewhere, Utf8.Valid, ServerFrames, Fragments, ParseFrame, Sound;
    FragmentedTextOutcome(parts, [], maxPayload);
    var w := ServerFrames(Fragments(OP_TEXT, parts));
    assert w + [] == w;
    NothingFromNothing(maxPayload);
    ValidIffAcceptedWhole(parts);
    if Assemble(EMPTY, parts).Some? {
      var m := Assemble(EMPTY, parts).value;
      AcceptedIsFaithfulIff(parts);
      EmptyIsSound();
      AssembledKeeps(EMPTY, parts);
      assert EMPTY.text + EMPTY.tail + Concat(parts) == Concat(parts);
      assert [Text(m)] + [] == [Text(m)] && [Text(m)][0] == Text(m);
      assert [Text(Concat(parts))][0] == Text(Concat(parts));
    }
  }

  lemma NothingFromNothing(maxPayload: nat)
    ensures Transcribe(Idle, [], maxPayload) == Transcript([], Waiting)
  {}

  /** Three frames carry C3, 41, A4; the application receives C3 A4. */
  lemma DroppedOctetOnTheWire(maxPayload: nat)
    requires 3 <= maxPayload <= ISIZE_MAX
    ensures AllAdmissible(Fragments(OP_TEXT, [[0xC3], [0x41], [0xA4]]), maxPayload)
    ensures Transcribe(Idle, ServerFrames(Fragments(OP_TEXT, [[0xC3], [0x41], [0xA4]])), maxPayload)
         == Transcript([Text([0xC3, 0xA4])], Waiting)
    ensures !Utf8.Valid([0xC3, 0x41, 0xA4])
  {
    hide Assemble, Utf8.Valid, ServerFrames, Fragments, ParseFrame;
    var parts: seq<bytes> := [[0xC3], [0x41], [0xA4]];
    DroppedOctetWitness();
    ThreeOctets();
    FragmentedTextOutcome(parts, [], maxPayload);
    var w := ServerFrames(Fragments(OP_TEXT, parts));
    assert w + [] == w;
    NothingFromNothing(maxPayload);
  }

  lemma ThreeOctets()
    ensures |Concat<byte>([[0xC3], [0x41], [0xA4]])| == 3
  {
    var parts: seq<bytes> := [[0xC3], [0x41], [0xA4]];
    assert parts[1..] == [[0x41], [0xA4]] && parts[1..][1..] == [[0xA4]] && parts[1..][1..][1..] == [];
  }

  lemma {:induction false} BinaryContinues(s: bytes, parts: seq<bytes>, tail: bytes, maxPayload: nat)
    requires parts != [] && |s + Concat(parts)| <= maxPayload <= ISIZE_MAX
    ensures AllAdmissible(Fragments(OP_CONTINUATION, parts), maxPayload)
    ensures Transcribe(InBinary(s), ServerFrames(Fragments(OP_CONTINUATION, parts)) + tail, maxPayload)
         == Prepend(Binary(s + Concat(parts)), Transcribe(Idle, tail, maxPayload))
    decreases |parts|
  {
    hide ParseFrame, ServerFrame, PushText, ReadClose;
    FragmentsAdmissible(OP_CONTINUATION, parts, maxPayload);
    var fs := Fragments(OP_CONTINUATION, parts);
    assert fs == [fs[0]] + fs[1..];
    TranscribeFirst(fs[0], fs[1..], tail, maxPayload);
    assert s + Concat(parts) == s + parts[0] + Concat(parts[1..]);
    if |parts| == 1 {
      assert s + parts[0] == s + Concat(parts);
      assert ServerFrames([]) + tail == tail;
    } else {
      BinaryContinues(s + parts[0], parts[1..], tail, maxPayload);
    }
  }

  /** A binary message split in any way is delivered whole. */
  lemma FragmentedBinaryIsDelivered(parts: seq<bytes>, tail: bytes, maxPayload: nat)
    requires parts != [] && |Concat(parts)| <= maxPayload <= ISIZE_MAX
    ensures AllAdmissible(Fragments(OP_BINARY, parts), maxPayload)
    ensures Transcribe(Idle, ServerFrames(Fragments(OP_BINARY, parts)) + tail, maxPayload)
         == Prepend(Binary(Concat(parts)), Transcribe(Idle, tail, maxPayload))
  {
    hide ParseFrame, ServerFrame, PushText, ReadClose, Admissible, Fragments;
    FragmentsAdmissible(OP_BINARY, parts, maxPayload);
    var fs := Fragments(OP_BINARY, parts);
    FragmentsRest(OP_BINARY, parts);
    assert fs == [fs[0]] + fs[1..];
    TranscribeFirst(fs[0], fs[1..], tail, maxPayload);
    if |parts| == 1 {
      assert Concat(parts) == parts[0];
      assert ServerFrames([]) + tail == tail;
    } else {
      BinaryContinues(parts[0], parts[1..], tail, maxPayload);
    }
  }
}
