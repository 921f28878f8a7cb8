/**
 * The octets on the wire as plain numbers: the header of a frame, what each opcode
 * does, close codes, and the frames a client sends, with nothing named.
 */
module Wire {
  import opened Bytes
  import opened Frames
  import opened Masking
  import opened Messages
  import opened Scalars
  import opened TextAssembly
  import Utf8

  // ----- Octets -----

  lemma ReservedAreDigits(b: byte)
    ensures ByteValue(b & 0x70) == ByteValue(b) / 16 % 8 * 16
  {}

  lemma LowBitsAreDigits(b: byte)
    ensures ByteValue(b & 0x0F) == ByteValue(b) % 16 && ByteValue(b & 0x7F) == ByteValue(b) % 128
  {}

  lemma HighBitIsDigit(b: byte)
    ensures b & 0x80 != 0 <==> ByteValue(b) >= 128
  {}

  /** Two or eight octets as a number, the first counting most. */
  function Number(s: bytes): nat
    requires |s| == 2 || |s| == 8
  {
    var last := ByteValue(s[|s| - 2]) * 256 + ByteValue(s[|s| - 1]);
    if |s| == 2 then last
    else
      ByteValue(s[0]) * 72057594037927936 + ByteValue(s[1]) * 281474976710656 + ByteValue(s[2]) * 1099511627776
      + ByteValue(s[3]) * 4294967296 + ByteValue(s[4]) * 16777216 + ByteValue(s[5]) * 65536 + last
  }

  lemma NumberIsBigEndian(s: bytes)
    requires |s| == 2 || |s| == 8
    ensures FromBigEndian(s) == Number(s)
  {
    hide ByteValue, FromBigEndian;
    TwoMore(s);
    if |s| == 8 {
      assert s[..6][..4] == s[..4] && s[..4][..2] == s[..2];
      TwoMore(s[..6]);
      TwoMore(s[..4]);
      TwoMore(s[..2]);
    }
  }

  lemma TwoMore(s: bytes)
    requires |s| >= 2
    ensures var n := |s| - 2;
            && FromBigEndian(s) == FromBigEndian(s[..n]) * 65536 + ByteValue(s[n]) * 256 + ByteValue(s[n + 1])
            && (n == 0 ==> FromBigEndian(s[..n]) == 0)
  {
    hide ByteValue, FromBigEndian, Pow256;
    var front := s[..|s| - 1];
    OneMore(s);
    OneMore(front);
    assert front[..|front| - 1] == s[..|s| - 2] && front[|front| - 1] == s[|s| - 2];
  }

  lemma OneMore(s: bytes)
    requires s != []
    ensures FromBigEndian(s) == FromBigEndian(s[..|s| - 1]) * 256 + ByteValue(s[|s| - 1])
    ensures |s| == 1 ==> FromBigEndian(s[..0]) == 0
  {
    hide ByteValue, Pow256;
  }

  // ----- Headers -----

  /** The header at the head of `w`, from the values of its octets. */
  function HeadByNumbers(w: bytes, maxPayload: nat): Head {
    if |w| < 2 then Short
    else
      var a, b := ByteValue(w[0]), ByteValue(w[1]);
      if a / 16 % 8 != 0 then BadHead(BadReservedBits(ByteOf(a / 16 % 8 * 16)))
      else if b >= 128 then BadHead(MaskedServerFrame)
      else LengthByNumbers(a >= 128, a % 16, b, w, maxPayload)
  }

  /** The length octets, and what control frames may not be. */
  function LengthByNumbers(final: bool, op: nat, b: nat, w: bytes, maxPayload: nat): Head
    requires op < 16 && b < 128 && |w| >= 2
  {
    if (b == 126 && |w| < 4) || (b == 127 && |w| < 10) then Short
    else
      var len := if b < 126 then b else if b == 126 then Number(w[2..4]) else Number(w[2..10]);
      if b == 127 && len >= 9223372036854775808 then BadHead(PayloadLengthMsb)
      else if (b == 126 && len < 126) || (b == 127 && len < 65536) then BadHead(NonMinimalLength)
      else if b >= 126 && len > maxPayload then BadHead(PayloadTooLarge(len))
      else if op >= 8 && !final then BadHead(FragmentedControl)
      else if op >= 8 && len > 125 then BadHead(ControlPayloadTooLarge(len))
      else Header(final, ByteOf(op), if b < 126 then 2 else if b == 126 then 4 else 10, len)
  }

  lemma OpcodeOrder(op: byte)
    ensures IsControl(op) <==> ByteValue(op) >= 8
  {}

  lemma LengthIsByNumbers(final: bool, op: nat, b: nat, w: bytes, maxPayload: nat)
    requires op < 16 && b < 128 && |w| >= 2
    ensures CheckControl(DecodeLength(final, ByteOf(op), b, w, maxPayload)) == LengthByNumbers(final, op, b, w, maxPayload)
  {
    hide ByteOf, ByteValue, FromBigEndian, Number, IsControl;
    OpcodeOrder(ByteOf(op));
    ByteValueOf(op);
    if |w| >= 4 { NumberIsBigEndian(w[2..4]); }
    if |w| >= 10 { NumberIsBigEndian(w[2..10]); }
  }

  lemma SplitByNumbers(b0: byte, b1: byte)
    ensures var a, b := ByteValue(b0), ByteValue(b1);
            && SplitOctets(b0, b1) == Octets2(ByteOf(a / 16 % 8 * 16), a >= 128, ByteOf(a % 16), b >= 128, b % 128)
            && (SplitOctets(b0, b1).rsv == 0 <==> a / 16 % 8 == 0)
  {
    hide ByteOf, ByteValue;
    ReservedAreDigits(b0);
    LowBitsAreDigits(b0);
    LowBitsAreDigits(b1);
    HighBitIsDigit(b0);
    HighBitIsDigit(b1);
    ByteOfValue(b0 & 0x70);
    ByteOfValue(b0 & 0x0F);
    ZeroIsZero(b0 & 0x70);
  }

  lemma ZeroIsZero(b: byte)
    ensures ByteValue(b) == 0 <==> b == 0
  {}

  /** The parser reads headers as their numbers say. */
  lemma HeadIsByNumbers(w: bytes, maxPayload: nat)
    ensures ParseHead(w, maxPayload) == HeadByNumbers(w, maxPayload)
  {
    hide ByteOf, ByteValue, SplitOctets, CheckControl, DecodeLength, LengthByNumbers;
    if |w| >= 2 {
      SplitByNumbers(w[0], w[1]);
      var a, b := ByteValue(w[0]), ByteValue(w[1]);
      if b < 128 {
        LengthIsByNumbers(a >= 128, a % 16, b, w, maxPayload);
      }
    }
  }

  // ----- What each opcode does -----

  /** Pings and pongs change nothing, and opcodes without a meaning are refused, whatever is being received. */
  lemma OtherOpcodes(recv: Recv, fin: bool, op: byte, payload: bytes, maxPayload: nat)
    requires recv.Carried()
    ensures var e, n := OnFrame(recv, Frame(fin, op, payload), maxPayload), ByteValue(op);
            && (n == 9 || n == 10 ==> e == Continue(recv))
            && (3 <= n <= 7 || n >= 11 ==> e == Reject(UnknownOpcode(op)))
            && (n == 0 && recv == Idle ==> e == Reject(UnexpectedContinuation))
            && ((n == 1 || n == 2) && recv != Idle ==> e == Reject(DataDuringFragmentation))
  {
    hide PushText, Utf8.Valid, ReadClose;
    OpcodeNumbers(op);
  }

  lemma OpcodeNumbers(op: byte)
    ensures ByteValue(op) == if op == OP_CONTINUATION then 0 else if op == OP_TEXT then 1 else if op == OP_BINARY then 2
                             else if op == OP_CLOSE then 8 else if op == OP_PING then 9 else if op == OP_PONG then 10
                             else ByteValue(op)
    ensures ByteValue(op) in {0, 1, 2, 8, 9, 10} ==>
              op in {OP_CONTINUATION, OP_TEXT, OP_BINARY, OP_CLOSE, OP_PING, OP_PONG}
  {}

  /** Binary frames, whole or in fragments, and the limit on what is reassembled. */
  lemma BinaryOpcodes(data: bytes, fin: bool, payload: bytes, maxPayload: nat)
    ensures OnFrame(Idle, Frame(fin, 2, payload), maxPayload)
         == if fin then Deliver(Binary(payload)) else Continue(InBinary(payload))
    ensures OnFrame(InBinary(data), Frame(fin, 0, payload), maxPayload) ==
            if |data| + |payload| > maxPayload then Reject(FragmentedMessageTooLarge(|data| + |payload|))
            else if fin then Deliver(Binary(data + payload)) else Continue(InBinary(data + payload))
  {}

  /** A whole text frame is delivered if it encodes scalar values, and refused otherwise. */
  lemma TextOpcode(payload: bytes, maxPayload: nat)
    ensures var e := OnFrame(Idle, Frame(true, 1, payload), maxPayload);
            if exists cs | AllScalars(cs) :: payload == EncodedText(cs) then e == Deliver(Text(payload))
            else e == Reject(InvalidUtf8)
  {
    hide Utf8.Valid, PushText, ReadClose;
    ValidIffEncoded(payload);
  }

  /** Text in fragments: begun without a limit, continued up to the limit, tail included. */
  lemma TextFragmentOpcodes(st: TextState, fin: bool, payload: bytes, maxPayload: nat)
    requires TailOk(st.tail)
    ensures OnFrame(Idle, Frame(false, 1, payload), maxPayload) ==
            match PushText(TextState([], []), payload, false)
            case None => Reject(InvalidUtf8)
            case Some(next) => Continue(InText(next))
    ensures var total := |st.text| + |st.tail| + |payload|;
            OnFrame(InText(st), Frame(fin, 0, payload), maxPayload) ==
            if total > maxPayload then Reject(FragmentedMessageTooLarge(total))
            else
              match PushText(st, payload, fin)
              case None => Reject(InvalidUtf8)
              case Some(next) => if fin then Deliver(Text(next.text)) else Continue(InText(next))
  {
    hide PushText, Utf8.Valid, ReadClose;
  }

  // ----- Text on the wire -----

  /**
   * Text of any scalar values, cut anywhere, even inside a character, is delivered as
   * it was sent; and nothing else that is sent as text is.
   */
  lemma TextIsDeliveredIffScalars(parts: seq<bytes>, maxPayload: nat)
    requires parts != [] && |Concat(parts)| <= maxPayload <= ISIZE_MAX
    ensures AllAdmissible(Fragments(1, parts), maxPayload)
    ensures Transcribe(Idle, ServerFrames(Fragments(1, parts)), maxPayload) == Transcript([Text(Concat(parts))], Waiting)
            <==> exists cs | AllScalars(cs) :: Concat(parts) == EncodedText(cs)
  {
    hide Utf8.Valid, Transcribe, ServerFrames, Fragments, Assemble, EncodedText;
    WhatBecomesOfText(parts, maxPayload);
    ValidIffEncoded(Concat(parts));
  }

  /** Whatever octets arrive, all text that is delivered encodes scalar values. */
  lemma {:induction false} DeliveredTextIsScalars(recv: Recv, w: bytes, maxPayload: nat)
    requires 125 <= maxPayload <= ISIZE_MAX && recv.Ok(maxPayload)
    ensures forall m | m in Transcribe(recv, w, maxPayload).messages && m.Text? ::
              exists cs | AllScalars(cs) :: m.text == EncodedText(cs)
    decreases |w|
  {
    hide Utf8.Valid, PushText, ReadClose, ParseFrame, OnFrame, EncodedText;
    if ParseFrame(w, maxPayload).Whole? {
      var f, n := ParseFrame(w, maxPayload).frame, ParseFrame(w, maxPayload).size;
      WholeIsServerFrame(w, maxPayload);
      OnFrameKeeps(recv, f, maxPayload);
      match OnFrame(recv, f, maxPayload) {
        case Continue(next) => DeliveredTextIsScalars(next, w[n..], maxPayload);
        case Deliver(m) =>
          DeliveredTextIsScalars(Idle, w[n..], maxPayload);
          ValidIffEncoded(Payload(m));
        case _ =>
      }
    }
  }

  /** One frame of short text, by its octets. */
  lemma ShortTextFrame(cs: seq<nat>, maxPayload: nat)
    requires AllScalars(cs) && |EncodedText(cs)| < 126 && |EncodedText(cs)| <= maxPayload
    ensures Transcribe(Idle, [129, ByteOf(|EncodedText(cs)|)] + EncodedText(cs), maxPayload)
         == Transcript([Text(EncodedText(cs))], Waiting)
  {
    hide Utf8.Valid, PushText, ReadClose, ParseHead, EncodedText, OnFrame, ByteOf, ByteValue;
    var text := EncodedText(cs);
    var w := [129, ByteOf(|text|)] + text;
    ByteValueOf(|text|);
    FinalText();
    HeadIsByNumbers(w, maxPayload);
    assert w[2..2 + |text|] == text && w[2 + |text|..] == [];
    assert ParseFrame(w, maxPayload) == Whole(Frame(true, 1, text), |w|);
    TextOpcode(text, maxPayload);
    NothingFromNothing(maxPayload);
  }

  lemma FinalText()
    ensures ByteValue(129) == 129 && ByteOf(1) == 1
  {
    assert ByteValue(1) == 1;
    ByteOfValue(1);
  }

  /** U+1F600 in one frame. */
  lemma FourOctetCharacter(maxPayload: nat)
    requires 4 <= maxPayload
    ensures Transcribe(Idle, [0x81, 0x04, 0xF0, 0x9F, 0x98, 0x80], maxPayload)
         == Transcript([Text([0xF0, 0x9F, 0x98, 0x80])], Waiting)
  {
    hide Transcribe, Encoded, ByteOf;
    FourOctetScalar();
    OneScalar(0x1F600);
    ShortTextFrame([0x1F600], maxPayload);
    var text := EncodedText([0x1F600]);
    assert text == [0xF0, 0x9F, 0x98, 0x80] && |text| == 4;
    assert [129, ByteOf(|text|)] + text == [0x81, 0x04, 0xF0, 0x9F, 0x98, 0x80];
  }

  lemma OneScalar(c: nat)
    requires IsScalar(c)
    ensures AllScalars([c]) && EncodedText([c]) == Encoded(c)
  {
    hide Encoded;
    assert [c][1..] == [];
  }

  lemma FourOctetScalar()
    ensures Encoded(0x1F600) == [0xF0, 0x9F, 0x98, 0x80] && ByteOf(4) == 0x04
  {
    hide ByteOf, ByteValue;
    OctetLiterals();
    ByteOfValue(0xF0);
    ByteOfValue(0x9F);
    ByteOfValue(0x98);
    ByteOfValue(0x80);
    ByteOfValue(0x04);
  }

  lemma OctetLiterals()
    ensures ByteValue(0xF0) == 0xF0 && ByteValue(0x9F) == 0x9F && ByteValue(0x98) == 0x98 && ByteValue(0x80) == 0x80
    ensures ByteValue(0x04) == 4
  {}

  // ----- Close frames -----

  /** Codes that may be received in a close frame. */
  predicate Receivable(code: nat) {
    1000 <= code <= 1004 || 1007 <= code <= 1014 || 1016 <= code <= 4999
  }

  /** The payload of a close frame, by the number in its first two octets. */
  lemma CloseByNumbers(payload: bytes)
    ensures var r := ReadClose(payload);
            if payload == [] then r == Ok(CloseInfo(None, []))
            else if |payload| == 1 then r == Err(BadClosePayload)
            else
              var code, reason := ByteValue(payload[0]) * 256 + ByteValue(payload[1]), payload[2..];
              if !Receivable(code) then r == Err(InvalidCloseCode(code))
              else if exists cs | AllScalars(cs) :: reason == EncodedText(cs) then r == Ok(CloseInfo(Some(code), reason))
              else r == Err(InvalidUtf8)
  {
    hide Utf8.Valid, FromBigEndian, ByteValue, EncodedText;
    if |payload| >= 2 {
      NumberIsBigEndian(payload[..2]);
      ValidIffEncoded(payload[2..]);
    }
  }

  /** A close frame ends the connection with its code and reason, or is refused. */
  lemma CloseOpcode(recv: Recv, fin: bool, payload: bytes, maxPayload: nat)
    requires recv.Carried()
    ensures OnFrame(recv, Frame(fin, 8, payload), maxPayload) ==
            match ReadClose(payload)
            case Err(e) => Reject(e)
            case Ok(info) => Finish(info)
  {
    hide Utf8.Valid, PushText, ReadClose;
  }

  // ----- What a client sends -----

  /** Codes that may be sent, the reason's length, and the payload's octets. */
  lemma ClosePayloadByNumbers(code: nat, reason: bytes)
    requires code < 65536
    ensures ClosePayload(code, reason) ==
            if !(1000 <= code <= 1003 || 1007 <= code <= 1014 || 3000 <= code <= 4999) then Err(BadCloseCode(code))
            else if |reason| > 123 then Err(CloseReasonTooLong(|reason|))
            else Ok([ByteOf(code / 256), ByteOf(code % 256)] + reason)
  {
    hide ByteOf;
    TwoOctetsOf(code);
  }

  lemma TwoOctetsOf(n: nat)
    requires n < 65536
    ensures n < Pow256(2) && BigEndian(n, 2) == [ByteOf(n / 256), ByteOf(n % 256)]
  {
    hide ByteOf;
    Pow256Values();
    var high := BigEndian(n / 256, 1);
    assert high == BigEndian(0, 0) + [ByteOf(n / 256)];
  }

  /** The octets of a frame as a client sends it, by their numbers. */
  lemma ClientFrameByNumbers(f: OutFrame)
    requires f.WellFormed()
    ensures var c, n := ClientFrame(f), |f.payload|;
            var at := if n < 126 then 2 else if n < 65536 then 4 else 10;
            && |c| == at + 4 + n
            && ByteValue(c[0]) == 128 + ByteValue(f.opcode)
            && ByteValue(c[1]) == (if n < 126 then 128 + n else if n < 65536 then 254 else 255)
            && (n >= 126 ==> Number(c[2..at]) == n)
            && c[at..at + 4] == f.mask
            && forall i | 0 <= i < n :: c[at + 4 + i] == f.payload[i] ^ f.mask[i % 4]
  {
    hide ByteOf, ByteValue, BigEndian, LengthField, Number;
    var c, n := ClientFrame(f), |f.payload|;
    var field := LengthField(n, MASK_BIT);
    var at := 1 + |field|;
    FirstByNumbers(f.opcode);
    FieldByNumbers(n);
    var body := Masked(f.payload, f.mask);
    assert c == [FIN | f.opcode] + field + f.mask + body;
    assert c[1] == field[0] && c[2..at] == field[1..];
    forall i | 0 <= i < n ensures c[at + 4 + i] == f.payload[i] ^ f.mask[i % 4] {
      assert c[at + 4 + i] == body[i];
    }
  }

  lemma FirstByNumbers(op: byte)
    requires FourBits(op)
    ensures ByteValue(FIN | op) == 128 + ByteValue(op) && ByteValue(op) < 16
  {}

  lemma FieldByNumbers(n: nat)
    requires n < USIZE_LIMIT
    ensures var s := LengthField(n, MASK_BIT);
            && ByteValue(s[0]) == (if n < 126 then 128 + n else if n < 65536 then 254 else 255)
            && (n >= 126 ==> Number(s[1..]) == n)
  {
    hide ByteOf, ByteValue, BigEndian, FromBigEndian, Number;
    Pow256Values();
    LongMarks();
    if n < 126 {
      ShortMark(n);
    } else {
      var width := if n < 65536 then 2 else 8;
      FromBigEndianInverts(n, width);
      NumberIsBigEndian(BigEndian(n, width));
      assert LengthField(n, MASK_BIT)[1..] == BigEndian(n, width);
    }
  }

  lemma LongMarks()
    ensures ByteValue(MASK_BIT | 126) == 254 && ByteValue(MASK_BIT | 127) == 255
  {}

  lemma ShortMark(n: nat)
    requires n < 126
    ensures ByteValue(MASK_BIT | ByteOf(n)) == 128 + n
  {
    ByteValueOf(n);
    MarkBit(ByteOf(n));
  }

  lemma MarkBit(b: byte)
    requires b < 128
    ensures ByteValue(MASK_BIT | b) == 128 + ByteValue(b)
  {}
}
