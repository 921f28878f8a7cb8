/**
 * The frame codec (section 5.2 of RFC 6455): the pure parser that
 * `read_message` must agree with, the encodings it accepts, the frames that
 * `build_frame` emits, and the payload of close frames.
 */
module Frames {
  import opened Bytes
  import opened Masking
  import Utf8

  const FIN: byte := 0x80
  const RESERVED_MASK: byte := 0x70
  const OPCODE_MASK: byte := 0x0F
  const MASK_BIT: byte := 0x80
  const LEN_MASK: byte := 0x7F

  const OP_CONTINUATION: byte := 0x0
  const OP_TEXT: byte := 0x1
  const OP_BINARY: byte := 0x2
  const OP_CLOSE: byte := 0x8
  const OP_PING: byte := 0x9
  const OP_PONG: byte := 0xA

  predicate FourBits(op: byte) { op & 0xF0 == 0 }

  predicate IsControl(op: byte) { op >= OP_CLOSE }

  /** `isize::MAX` on a 64-bit machine. */
  const ISIZE_MAX: nat := 0x7FFF_FFFF_FFFF_FFFF

  datatype ConnError =
    | Io
    | ConnClosed
    | HeadersTooLarge
    | BadReservedBits(rsv: byte)
    | PayloadTooLarge(len: nat)
    | UnexpectedContinuation
    | FragmentedMessageTooLarge(total: nat)
    | InvalidUtf8
    | DataDuringFragmentation
    | FragmentedControl
    | ControlPayloadTooLarge(len: nat)
    | BadClosePayload
    | UnknownOpcode(opcode: byte)
    | NonMinimalLength
    | PayloadLengthMsb
    | InvalidCloseCode(code: nat)
    | MaskedServerFrame
    | Flood
    | PingTimeout

  datatype Frame = Frame(fin: bool, opcode: byte, payload: bytes)

  // ----- The parser -----

  datatype Head =
    | Short
    | BadHead(error: ConnError)
    | Header(fin: bool, opcode: byte, size: nat, len: nat)

  datatype Parse =
    | NeedMore
    | Bad(error: ConnError)
    | Whole(frame: Frame, size: nat)

  /** The length octets: `n` is the 7-bit length, `w` the frame from its first octet. */
  function DecodeLength(fin: bool, opcode: byte, n: nat, w: bytes, maxPayload: nat): Head {
    if n <= 125 then Header(fin, opcode, 2, n)
    else if n == 126 then
      if |w| < 4 then Short
      else
        var len := FromBigEndian(w[2..4]);
        if len < 126 then BadHead(NonMinimalLength)
        else if len > maxPayload then BadHead(PayloadTooLarge(len))
        else Header(fin, opcode, 4, len)
    else
      if |w| < 10 then Short
      else
        var len := FromBigEndian(w[2..10]);
        if len > ISIZE_MAX then BadHead(PayloadLengthMsb)
        else if len < 65536 then BadHead(NonMinimalLength)
        else if len > maxPayload then BadHead(PayloadTooLarge(len))
        else Header(fin, opcode, 10, len)
  }

  /** The fields of the first two octets. */
  datatype Octets2 = Octets2(rsv: byte, fin: bool, opcode: byte, masked: bool, n: nat)

  function SplitOctets(b0: byte, b1: byte): Octets2 {
    Octets2(b0 & RESERVED_MASK, b0 & FIN != 0, b0 & OPCODE_MASK, b1 & MASK_BIT != 0, ByteValue(b1 & LEN_MASK))
  }

  function ParseHead(w: bytes, maxPayload: nat): Head {
    if |w| < 2 then Short
    else
      var o := SplitOctets(w[0], w[1]);
      if o.rsv != 0 then BadHead(BadReservedBits(o.rsv))
      else if o.masked then BadHead(MaskedServerFrame)
      else CheckControl(DecodeLength(o.fin, o.opcode, o.n, w, maxPayload))
  }

  /** Control frames are never fragmented and carry at most 125 octets. */
  function CheckControl(h: Head): Head {
    if h.Header? && IsControl(h.opcode) && !h.fin then BadHead(FragmentedControl)
    else if h.Header? && IsControl(h.opcode) && h.len > 125 then BadHead(ControlPayloadTooLarge(h.len))
    else h
  }

  /** The first frame of a byte stream. */
  function ParseFrame(w: bytes, maxPayload: nat): (p: Parse)
    ensures p.Whole? ==> 2 <= p.size <= |w| && |p.frame.payload| < p.size
  {
    match ParseHead(w, maxPayload)
    case Short => NeedMore
    case BadHead(e) => Bad(e)
    case Header(fin, opcode, size, len) =>
      if |w| < size + len then NeedMore
      else Whole(Frame(fin, opcode, w[size..size + len]), size + len)
  }

  lemma LengthStable(fin: bool, opcode: byte, n: nat, w: bytes, more: bytes, maxPayload: nat)
    requires !DecodeLength(fin, opcode, n, w, maxPayload).Short?
    ensures DecodeLength(fin, opcode, n, w + more, maxPayload) == DecodeLength(fin, opcode, n, w, maxPayload)
  {
    hide FromBigEndian;
    assert |w| >= 4 ==> (w + more)[2..4] == w[2..4];
    assert |w| >= 10 ==> (w + more)[2..10] == w[2..10];
  }

  lemma HeadStable(w: bytes, more: bytes, maxPayload: nat)
    requires !ParseHead(w, maxPayload).Short?
    ensures ParseHead(w + more, maxPayload) == ParseHead(w, maxPayload)
  {
    hide DecodeLength, SplitOctets, CheckControl;
    assert (w + more)[0] == w[0] && (w + more)[1] == w[1];
    var o := SplitOctets(w[0], w[1]);
    ShortStays(DecodeLength(o.fin, o.opcode, o.n, w, maxPayload));
    if o.rsv == 0 && !o.masked {
      LengthStable(o.fin, o.opcode, o.n, w, more, maxPayload);
    }
  }

  lemma ShortStays(h: Head)
    ensures CheckControl(h).Short? <==> h.Short?
  {}

  /** A decision taken on the octets at hand is the decision on every longer stream. */
  lemma ParseStable(w: bytes, more: bytes, maxPayload: nat)
    requires !ParseFrame(w, maxPayload).NeedMore?
    ensures ParseFrame(w + more, maxPayload) == ParseFrame(w, maxPayload)
  {
    hide ParseHead;
    HeadStable(w, more, maxPayload);
    var h := ParseHead(w, maxPayload);
    if h.Header? {
      assert (w + more)[h.size..h.size + h.len] == w[h.size..h.size + h.len];
    }
  }

  // ----- Encodings -----

  lemma Pow256Values()
    ensures Pow256(2) == 65536 && Pow256(8) == USIZE_LIMIT
  {
    assert Pow256(4) == 0x1_0000_0000;
    assert Pow256(8) == 256 * 256 * 256 * 256 * Pow256(4);
  }

  /** The length octets after the first header octet; `bit` is the mask bit or 0. */
  function LengthField(len: nat, bit: byte): (s: bytes)
    requires len < USIZE_LIMIT
    ensures |s| == if len < 126 then 1 else if len < 65536 then 3 else 9
  {
    Pow256Values();
    if len < 126 then [bit | ByteOf(len)]
    else if len < 65536 then [bit | 126] + BigEndian(len, 2)
    else [bit | 127] + BigEndian(len, 8)
  }

  /** An unmasked frame, as a server sends it. */
  function ServerFrame(f: Frame): bytes
    requires |f.payload| < USIZE_LIMIT
  {
    [(if f.fin then FIN else 0) | f.opcode] + LengthField(|f.payload|, 0) + f.payload
  }

  /** What section 5.2 and the configured limit allow a server frame to be. */
  predicate Admissible(f: Frame, maxPayload: nat) {
    && FourBits(f.opcode)
    && |f.payload| <= maxPayload
    && (IsControl(f.opcode) ==> f.fin && |f.payload| <= 125)
  }

  lemma FirstOctetBits(fin: bool, opcode: byte)
    requires FourBits(opcode)
    ensures var b := (if fin then FIN else 0) | opcode;
            b & RESERVED_MASK == 0 && (b & FIN != 0 <==> fin) && b & OPCODE_MASK == opcode
  {}

  lemma FirstOctetRebuilt(b: byte)
    requires b & RESERVED_MASK == 0
    ensures (if b & FIN != 0 then FIN else 0) | (b & OPCODE_MASK) == b
    ensures FourBits(b & OPCODE_MASK)
  {}

  lemma SmallLengthBits(n: nat)
    requires n < 128
    ensures ByteOf(n) & MASK_BIT == 0 && ByteValue(ByteOf(n) & LEN_MASK) == n
    ensures (0 | ByteOf(n)) == ByteOf(n)
    ensures (MASK_BIT | ByteOf(n)) & MASK_BIT != 0 && ByteValue((MASK_BIT | ByteOf(n)) & LEN_MASK) == n
  {
    var b := ByteOf(n);
    LowBits(n, b);
    ByteValueOf(n);
    assert (MASK_BIT | b) & LEN_MASK == b & LEN_MASK;
  }

  lemma LowBits(n: nat, b: byte)
    requires n < 128 && b == ByteOf(n)
    ensures b & MASK_BIT == 0 && b & LEN_MASK == b
  {
    ByteValueOf(n);
  }

  /** Reading back a length field, followed by anything. */
  lemma LengthFieldParses(first: byte, len: nat, rest: bytes, maxPayload: nat)
    requires len <= maxPayload <= ISIZE_MAX && len < USIZE_LIMIT
    ensures var w := [first] + LengthField(len, 0) + rest;
            var o := SplitOctets(first, w[1]);
            && !o.masked
            && DecodeLength(o.fin, o.opcode, o.n, w, maxPayload) == Header(o.fin, o.opcode, 1 + |LengthField(len, 0)|, len)
  {
    hide ByteOf, ByteValue, FromBigEndian, BigEndian;
    var field := LengthField(len, 0);
    var w := [first] + field + rest;
    Pow256Values();
    assert w[0] == first && w[1] == field[0];
    if len < 126 {
      SmallLengthBits(len);
    } else if len < 65536 {
      LiteralBits();
      assert w[2..4] == field[1..] == BigEndian(len, 2);
      FromBigEndianInverts(len, 2);
    } else {
      LiteralBits();
      assert w[2..10] == field[1..] == BigEndian(len, 8);
      FromBigEndianInverts(len, 8);
    }
  }

  lemma LiteralBits()
    ensures (0 | 126) & MASK_BIT == 0 && ByteValue((0 | 126) & LEN_MASK) == 126
    ensures (0 | 127) & MASK_BIT == 0 && ByteValue((0 | 127) & LEN_MASK) == 127
    ensures (MASK_BIT | 126) & MASK_BIT != 0 && ByteValue((MASK_BIT | 126) & LEN_MASK) == 126
    ensures (MASK_BIT | 127) & MASK_BIT != 0 && ByteValue((MASK_BIT | 127) & LEN_MASK) == 127
  {}

  lemma FirstOctetSplits(fin: bool, opcode: byte, b1: byte)
    requires FourBits(opcode)
    ensures var o := SplitOctets((if fin then FIN else 0) | opcode, b1);
            o.rsv == 0 && o.fin == fin && o.opcode == opcode
  {
    FirstOctetBits(fin, opcode);
  }

  lemma ControlAllowed(f: Frame, h: Head, maxPayload: nat)
    requires Admissible(f, maxPayload) && h.Header? && h.opcode == f.opcode && h.fin == f.fin && h.len == |f.payload|
    ensures CheckControl(h) == h
  {}

  /** The header of an admissible frame is read back from its octets. */
  lemma ServerHeadParses(f: Frame, rest: bytes, maxPayload: nat)
    requires maxPayload <= ISIZE_MAX && Admissible(f, maxPayload)
    ensures |f.payload| < USIZE_LIMIT
    ensures var field := LengthField(|f.payload|, 0);
            ParseHead([(if f.fin then FIN else 0) | f.opcode] + field + rest, maxPayload)
            == Header(f.fin, f.opcode, 1 + |field|, |f.payload|)
  {
    hide DecodeLength, LengthField, SplitOctets, CheckControl;
    var first := (if f.fin then FIN else 0) | f.opcode;
    var field := LengthField(|f.payload|, 0);
    FirstOctetSplits(f.fin, f.opcode, field[0]);
    LengthFieldParses(first, |f.payload|, rest, maxPayload);
    ControlAllowed(f, Header(f.fin, f.opcode, 1 + |field|, |f.payload|), maxPayload);
  }

  /** The parser reads back every admissible frame, whatever follows it. */
  lemma ServerFrameParses(f: Frame, rest: bytes, maxPayload: nat)
    requires maxPayload <= ISIZE_MAX && Admissible(f, maxPayload)
    ensures |f.payload| < USIZE_LIMIT
    ensures ParseFrame(ServerFrame(f) + rest, maxPayload) == Whole(f, |ServerFrame(f)|)
  {
    hide ParseHead, LengthField, Admissible;
    ServerHeadParses(f, f.payload + rest, maxPayload);
    var field, w := LengthField(|f.payload|, 0), ServerFrame(f) + rest;
    assert w == [(if f.fin then FIN else 0) | f.opcode] + field + (f.payload + rest);
    assert w[1 + |field|..1 + |field| + |f.payload|] == f.payload;
  }

  /** What the length octets of an accepted header must have been. */
  lemma ParsedLengthField(w: bytes, maxPayload: nat)
    requires |w| >= 2 && w[1] & MASK_BIT == 0 && maxPayload <= ISIZE_MAX
    requires var o := SplitOctets(w[0], w[1]); DecodeLength(o.fin, o.opcode, o.n, w, maxPayload).Header?
    ensures var o := SplitOctets(w[0], w[1]);
            var h := DecodeLength(o.fin, o.opcode, o.n, w, maxPayload);
            && h.fin == o.fin && h.opcode == o.opcode
            && 2 <= h.size <= |w| && h.len < USIZE_LIMIT
            && w[1..h.size] == LengthField(h.len, 0)
            && (maxPayload >= 125 ==> h.len <= maxPayload)
  {
    hide ByteOf, ByteValue, FromBigEndian, BigEndian;
    Pow256Values();
    var o := SplitOctets(w[0], w[1]);
    var h := DecodeLength(o.fin, o.opcode, o.n, w, maxPayload);
    LengthOctetBits(w[1]);
    if h.size == 2 {
      assert w[1..2] == [w[1]];
      ByteOfValue(w[1] & LEN_MASK);
    } else if h.size == 4 {
      assert w[1..4] == [w[1]] + w[2..4];
      BigEndianInverts(w[2..4]);
    } else {
      assert w[1..10] == [w[1]] + w[2..10];
      BigEndianInverts(w[2..10]);
    }
  }

  lemma LengthOctetBits(b: byte)
    requires b & MASK_BIT == 0
    ensures b & LEN_MASK == b && (0 | b) == b
    ensures ByteValue(b & LEN_MASK) == 126 ==> b == 126
    ensures ByteValue(b & LEN_MASK) > 126 ==> b == 127
  {}

  /** The parser accepts nothing but the encodings of admissible frames: one encoding of each. */
  lemma WholeIsServerFrame(w: bytes, maxPayload: nat)
    requires 125 <= maxPayload <= ISIZE_MAX && ParseFrame(w, maxPayload).Whole?
    ensures var p := ParseFrame(w, maxPayload);
            && Admissible(p.frame, maxPayload)
            && |p.frame.payload| < USIZE_LIMIT
            && p.size == |ServerFrame(p.frame)| <= |w|
            && w[..p.size] == ServerFrame(p.frame)
  {
    hide DecodeLength, LengthField;
    var h := ParseHead(w, maxPayload);
    ParsedLengthField(w, maxPayload);
    FirstOctetRebuilt(w[0]);
    assert w[..h.size + h.len] == [w[0]] + w[1..h.size] + w[h.size..h.size + h.len];
  }

  // ----- Frames sent by the client -----

  /** A frame handed to the send buffer: always final, always masked. */
  datatype OutFrame = OutFrame(opcode: byte, payload: bytes, mask: bytes) {
    predicate WellFormed() {
      FourBits(opcode) && |payload| < USIZE_LIMIT && |mask| == 4
    }
  }

  predicate AllWellFormed(fs: seq<OutFrame>) {
    forall f | f in fs :: f.WellFormed()
  }

  /** Octets on the wire of a client frame with `n` octets of payload. */
  function WireSize(n: nat): nat {
    (if n < 126 then 6 else if n < 65536 then 8 else 14) + n
  }

  /** The octets that `build_frame` appends. */
  function ClientFrame(f: OutFrame): (s: bytes)
    requires f.WellFormed()
    ensures |s| == WireSize(|f.payload|)
  {
    [FIN | f.opcode] + LengthField(|f.payload|, MASK_BIT) + f.mask + Masked(f.payload, f.mask)
  }

  function ClientFrames(fs: seq<OutFrame>): bytes
    requires AllWellFormed(fs)
  {
    if fs == [] then [] else ClientFrame(fs[0]) + ClientFrames(fs[1..])
  }

  predicate AllSized(fs: seq<Frame>) {
    forall f | f in fs :: |f.payload| < USIZE_LIMIT
  }

  function ServerFrames(fs: seq<Frame>): bytes
    requires AllSized(fs)
  {
    if fs == [] then [] else ServerFrame(fs[0]) + ServerFrames(fs[1..])
  }

  lemma {:induction false} ServerFramesAppend(xs: seq<Frame>, ys: seq<Frame>)
    requires AllSized(xs) && AllSized(ys)
    ensures AllSized(xs + ys)
    ensures ServerFrames(xs + ys) == ServerFrames(xs) + ServerFrames(ys)
  {
    hide ServerFrame;
    if xs == [] {
      assert xs + ys == ys;
    } else {
      assert (xs + ys)[1..] == xs[1..] + ys;
      ServerFramesAppend(xs[1..], ys);
    }
  }

  lemma {:induction false} ClientFramesSnoc(fs: seq<OutFrame>, f: OutFrame)
    requires AllWellFormed(fs) && f.WellFormed()
    ensures AllWellFormed(fs + [f])
    ensures ClientFrames(fs + [f]) == ClientFrames(fs) + ClientFrame(f)
  {
    hide ClientFrame;
    if fs == [] {
      assert fs + [f] == [f];
    } else {
      assert (fs + [f])[1..] == fs[1..] + [f];
      ClientFramesSnoc(fs[1..], f);
    }
  }

  datatype ServerView = ServerView(fin: bool, opcode: byte, payload: bytes, size: nat)

  /** What a server reads at the head of the stream: a whole masked frame, unmasked, or nothing yet. */
  function ServerReads(w: bytes): Option<ServerView> {
    if |w| < 2 || SplitOctets(w[0], w[1]).rsv != 0 || !SplitOctets(w[0], w[1]).masked then None
    else
      var o := SplitOctets(w[0], w[1]);
      var size := if o.n <= 125 then 2 else if o.n == 126 then 4 else 10;
      if |w| < size + 4 then None
      else
        var len := if o.n <= 125 then o.n else FromBigEndian(w[2..size]);
        if |w| < size + 4 + len then None
        else Some(ServerView(o.fin, o.opcode, Masked(w[size + 4..size + 4 + len], w[size..size + 4]), size + 4 + len))
  }

  /** A server reads exactly the opcode and payload that were sent, and where the frame ends. */
  lemma ServerReadsClientFrame(f: OutFrame, rest: bytes)
    requires f.WellFormed()
    ensures ServerReads(ClientFrame(f) + rest) == Some(ServerView(true, f.opcode, f.payload, |ClientFrame(f)|))
  {
    hide FromBigEndian, BigEndian, SplitOctets, LengthField, Masked;
    var field := LengthField(|f.payload|, MASK_BIT);
    var body := Masked(f.payload, f.mask);
    var w := ClientFrame(f) + rest;
    var size := 1 + |field|;
    ClientHeadBits(f.opcode, |f.payload|);
    assert w == [FIN | f.opcode] + (field + f.mask + body + rest);
    assert w[1] == field[0];
    assert w[2..size] == field[1..];
    assert w[size..size + 4] == f.mask;
    assert w[size + 4..size + 4 + |body|] == body;
    MaskedInvolution(f.payload, f.mask);
  }

  lemma ClientHeadBits(opcode: byte, len: nat)
    requires FourBits(opcode) && len < USIZE_LIMIT
    ensures var field := LengthField(len, MASK_BIT);
            && SplitOctets(FIN | opcode, field[0])
               == Octets2(0, true, opcode, true, if len < 126 then len else if len < 65536 then 126 else 127)
            && (len >= 126 ==> FromBigEndian(field[1..]) == len)
  {
    hide LengthField;
    FirstOctetBits(true, opcode);
    ClientLengthBits(len);
  }

  lemma ClientLengthBits(len: nat)
    requires len < USIZE_LIMIT
    ensures var field := LengthField(len, MASK_BIT);
            && field[0] & MASK_BIT != 0
            && ByteValue(field[0] & LEN_MASK) == (if len < 126 then len else if len < 65536 then 126 else 127)
            && (len >= 126 ==> FromBigEndian(field[1..]) == len)
  {
    hide ByteOf, ByteValue, FromBigEndian, BigEndian;
    Pow256Values();
    if len < 126 {
      SmallLengthBits(len);
    } else {
      LiteralBits();
      var width := if len < 65536 then 2 else 8;
      FromBigEndianInverts(len, width);
      assert LengthField(len, MASK_BIT)[1..] == BigEndian(len, width);
    }
  }

  // ----- Close payloads (sections 5.5.1 and 7.4 of RFC 6455) -----

  predicate SendableCode(code: nat) {
    1000 <= code <= 1003 || 1007 <= code <= 1014 || 3000 <= code <= 4999
  }

  predicate ReceivableCode(code: nat) {
    1000 <= code <= 4999 && code != 1005 && code != 1006 && code != 1015
  }

  datatype CallerError = Closing | BadCloseCode(code: nat) | CloseReasonTooLong(len: nat)

  /** `close_payload`: the two code octets, then the reason. */
  function ClosePayload(code: nat, reason: bytes): (r: Result<bytes, CallerError>)
    requires code < 65536
    ensures r.Ok? ==> 2 <= |r.value| <= 125
  {
    if !SendableCode(code) then Err(BadCloseCode(code))
    else if |reason| > 123 then Err(CloseReasonTooLong(|reason|))
    else
      Pow256Values();
      Ok(BigEndian(code, 2) + reason)
  }

  datatype CloseInfo = CloseInfo(code: Option<nat>, reason: bytes)

  /** The validation in `handle_close`. */
  function ReadClose(payload: bytes): Result<CloseInfo, ConnError> {
    if |payload| == 1 then Err(BadClosePayload)
    else if |payload| >= 2 then
      var code := FromBigEndian(payload[..2]);
      if !ReceivableCode(code) then Err(InvalidCloseCode(code))
      else if !Utf8.Valid(payload[2..]) then Err(InvalidUtf8)
      else Ok(CloseInfo(Some(code), payload[2..]))
    else Ok(CloseInfo(None, []))
  }

  /** Every close payload that can be sent is accepted with the same code and reason. */
  lemma ClosePayloadIsReadBack(code: nat, reason: bytes)
    requires code < 65536 && Utf8.Valid(reason) && ClosePayload(code, reason).Ok?
    ensures ReadClose(ClosePayload(code, reason).value) == Ok(CloseInfo(Some(code), reason))
  {
    Pow256Values();
    var p := ClosePayload(code, reason).value;
    FromBigEndianInverts(code, 2);
    assert p[..2] == BigEndian(code, 2) && p[2..] == reason;
  }

  /** Echoing the first two octets of an accepted close repeats its code. */
  lemma EchoRepeatsCode(payload: bytes)
    requires ReadClose(payload).Ok?
    ensures var echo := payload[..Min(|payload|, 2)];
            ReadClose(echo) == Ok(CloseInfo(ReadClose(payload).value.code, []))
  {
    var echo := payload[..Min(|payload|, 2)];
    if |payload| >= 2 {
      assert echo[..2] == payload[..2] && echo[2..] == [];
    }
  }
}
