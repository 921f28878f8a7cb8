/**
 * Frames in and out of the buffers: `build_frame`, the header-and-payload part
 * of `read_message`, and the buffer in which fragmented text is reassembled.
 */
module FrameIo {
  import opened Bytes
  import opened Masking
  import opened Frames
  import opened Transport
  import opened ReadBuffer
  import SendBuffer
  import opened TextAssembly
  import Utf8

  /** A 32-bit draw from the random number generator, as octets: any value at all. */
  method DrawMask() returns (mask: bytes)
    ensures |mask| == 4
  {
    var a: byte, b: byte, c: byte, d: byte := *, *, *, *;
    mask := [a, b, c, d];
  }

  /** Where the allocator put the payload, and the machine's byte order. */
  method Machine() returns (offset: nat, little: bool)
  {
    offset, little := *, *;
  }

  /** `build_frame`: appends one final, masked frame. */
  method BuildFrame(send: SendBuffer.SendBuf, opcode: byte, payload: bytes) returns (mask: bytes)
    requires send.Valid() && FourBits(opcode) && |payload| < USIZE_LIMIT
    modifies send`buf
    ensures send.Valid() && |mask| == 4
    ensures var f := OutFrame(opcode, payload, mask);
            f.WellFormed() && send.Pending() == old(send.Pending()) + ClientFrame(f)
  {
    hide LengthField, Masked;
    ghost var was := send.Pending();
    PushHeader(send, opcode, |payload|);
    mask := DrawMask();
    send.Push(mask);
    send.Push(payload);
    ghost var p, k := send.Pending(), |send.Pending()| - |payload|;
    assert p[k..] == payload;
    MaskLast(send, |payload|, mask);
    ghost var head := [FIN | opcode] + LengthField(|payload|, MASK_BIT);
    assert p[..k] == was + (head + mask);
    assert was + (head + mask) + Masked(payload, mask) == was + (head + mask + Masked(payload, mask));
  }

  /** The first octet and the length octets. */
  method PushHeader(send: SendBuffer.SendBuf, opcode: byte, len: nat)
    requires send.Valid() && len < USIZE_LIMIT
    modifies send`buf
    ensures send.Valid()
    ensures send.Pending() == old(send.Pending()) + ([FIN | opcode] + LengthField(len, MASK_BIT))
  {
    hide ByteOf, BigEndian, LengthField;
    LengthFieldParts(len);
    send.Push([FIN | opcode]);
    ghost var was := send.Pending();
    if len < 126 {
      send.Push([MASK_BIT | ByteOf(len)]);
    } else if len < 65536 {
      send.Push([MASK_BIT | 126]);
      send.Push(BigEndian(len, 2));
      Associate(was, [MASK_BIT | 126], BigEndian(len, 2));
    } else {
      send.Push([MASK_BIT | 127]);
      send.Push(BigEndian(len, 8));
      Associate(was, [MASK_BIT | 127], BigEndian(len, 8));
    }
    Associate(old(send.Pending()), [FIN | opcode], LengthField(len, MASK_BIT));
  }

  /** The three forms of the length octets in a masked frame. */
  lemma LengthFieldParts(len: nat)
    requires len < USIZE_LIMIT
    ensures Pow256(2) == 65536 && Pow256(8) == USIZE_LIMIT
    ensures LengthField(len, MASK_BIT) ==
            if len < 126 then [MASK_BIT | ByteOf(len)]
            else if len < 65536 then [MASK_BIT | 126] + BigEndian(len, 2)
            else [MASK_BIT | 127] + BigEndian(len, 8)
  {
    hide ByteOf, BigEndian;
    Pow256Values();
  }

  /** `apply_mask(send.last_mut(len), mask)`. */
  method MaskLast(send: SendBuffer.SendBuf, len: nat, mask: bytes)
    requires send.Valid() && |mask| == 4 && len <= |send.Pending()|
    modifies send`buf
    ensures send.Valid()
    ensures var p, k := old(send.Pending()), old(|send.Pending()|) - len;
            send.Pending() == p[..k] + Masked(p[k..], mask)
  {
    var at := |send.buf| - len;
    var last := new byte[len](i requires 0 <= i < len && at + len == |send.buf| reads send => send.buf[at + i]);
    assert last[..] == send.buf[at..];
    var offset, little := Machine();
    ApplyMask(last, mask, offset, little);
    send.buf := send.buf[..at] + last[..];
  }

  // ----- Reading one frame -----

  /** The next frame, or why there is none. */
  datatype NextFrame =
    | Arrived(fin: bool, opcode: byte, len: nat)
    | Stalled
    | Ended
    | ReadError
    | Malformed(error: ConnError)

  /** How much is fetched for the header of the frame at the head of the wire `w`. */
  function AfterHead(r: Intake, w: bytes): (a: (Intake, FillResult))
    requires r.end <= r.len
    ensures a.0.start == r.start && r.end <= a.0.end <= a.0.len
  {
    var (a, f) := AfterFill(r, 2);
    if f != Filled || |w| < 2 then (a, f)
    else
      var o := SplitOctets(w[0], w[1]);
      if o.rsv != 0 || o.masked || o.n < 126 then (a, Filled)
      else AfterFill(a, if o.n == 126 then 4 else 10)
  }

  /** How much is fetched for the whole frame: `Filled` if the octets at hand decide it. */
  function AfterFrame(r: Intake, w: bytes, maxPayload: nat): (a: (Intake, FillResult))
    requires r.end <= r.len
    ensures a.0.start == r.start && r.end <= a.0.end <= a.0.len
  {
    var (a, f) := AfterHead(r, w);
    if f != Filled then (a, f)
    else
      match ParseHead(w, maxPayload)
      case Header(_, _, size, len) => AfterFill(a, size + len)
      case _ => (a, Filled)
  }

  /** The outcome of a fill that each result reports. */
  function FillOf(r: NextFrame): FillResult {
    match r
    case Stalled => WouldBlock
    case Ended => AtEof
    case ReadError => IoFailed
    case _ => Filled
  }

  /**
   * The header and payload part of `read_message`: fills the buffer as far as
   * each stage needs, then consumes the frame and leaves its payload in place
   * just before `start`.
   */
  method ReadFrame(read: ReadBuf, stream: Stream, maxPayload: nat) returns (r: NextFrame)
    requires read.Valid() && 125 <= maxPayload <= ISIZE_MAX
    modifies read, stream`input, stream`readPlan, stream`served
    ensures read.Valid() && |old(stream.input)| - |stream.input| == read.end - old(read.end) >= 0
    ensures |old(stream.served)| <= |stream.served|
    ensures r.Arrived? ==>
              && r.len <= read.start
              && var payload := read.buf[read.start - r.len..read.start];
              && var p := ParseFrame(old(read.Pending() + stream.input), maxPayload);
              && p.Whole? && p.frame == Frame(r.fin, r.opcode, payload)
              && read.Pending() + stream.input == old(read.Pending() + stream.input)[p.size..]
    ensures !r.Arrived? ==>
              && read.start == old(read.start) && old(read.Pending()) <= read.Pending()
              && read.Pending() + stream.input == old(read.Pending() + stream.input)
    ensures r.Malformed? ==> ParseFrame(read.Pending() + stream.input, maxPayload) == Bad(r.error)
    ensures r.Stalled? || r.Ended? || r.ReadError? ==>
              && ParseFrame(read.Pending(), maxPayload).NeedMore?
              && read.Explains(stream, |old(stream.served)|,
                               if r.Stalled? then WouldBlock else if r.Ended? then AtEof else IoFailed)
    ensures r.Ended? ==> ParseFrame(read.Pending() + stream.input, maxPayload).NeedMore?
    ensures var (a, f) := AfterFrame(old(read.IntakeOf(stream)), old(read.Pending() + stream.input), maxPayload);
            && f == FillOf(r)
            && read.IntakeOf(stream).(start := old(read.start)) == a
  {
    hide ParseHead, ParseFrame, AfterHead, AfterFill;
    ghost var w := read.Pending() + stream.input;
    var h, fill := ReadHead(read, stream, maxPayload);
    if fill != Filled {
      return Unfilled(fill);
    }
    HeadStable(read.Pending(), stream.input, maxPayload);
    match h {
      case Short => assert false;
      case BadHead(e) =>
        return Malformed(e);
      case Header(_, _, _, _) =>
        r := TakeFrame(read, stream, h, maxPayload);
    }
  }

  /** The header: two octets, then as many length octets as they announce. */
  method ReadHead(read: ReadBuf, stream: Stream, maxPayload: nat) returns (h: Head, fill: FillResult)
    requires read.Valid() && 125 <= maxPayload <= ISIZE_MAX
    modifies read`buf, read`end, stream`input, stream`readPlan, stream`served
    ensures read.Valid() && |old(stream.input)| - |stream.input| == read.end - old(read.end) >= 0
    ensures |old(stream.served)| <= |stream.served|
    ensures old(read.Pending()) <= read.Pending()
    ensures read.Pending() + stream.input == old(read.Pending() + stream.input)
    ensures fill == Filled ==>
              && !h.Short? && h == ParseHead(read.Pending(), maxPayload)
              && (h.BadHead? ==> ParseFrame(read.Pending() + stream.input, maxPayload) == Bad(h.error))
    ensures fill != Filled ==>
              && ParseFrame(read.Pending(), maxPayload).NeedMore?
              && (stream.input == [] ==> ParseFrame(read.Pending() + stream.input, maxPayload).NeedMore?)
    ensures read.Explains(stream, |old(stream.served)|, fill)
    ensures AfterHead(old(read.IntakeOf(stream)), old(read.Pending() + stream.input)) == (read.IntakeOf(stream), fill)
  {
    hide AfterFill, SplitOctets, DecodeLength, CheckControl, ParseHead, ParseFrame;
    h := Short;
    fill := Fill(read, stream, 2);
    if fill != Filled {
      StillShort(read.Pending(), stream.input, maxPayload);
      return;
    }
    var o := SplitOctets(read.Pending()[0], read.Pending()[1]);
    BadFirstOctets(read.Pending(), stream.input, maxPayload);
    if o.rsv != 0 {
      return BadHead(BadReservedBits(o.rsv)), fill;
    }
    if o.masked {
      return BadHead(MaskedServerFrame), fill;
    }
    if o.n >= 126 {
      fill := Fill(read, stream, if o.n == 126 then 4 else 10);
      if fill != Filled {
        StillShort(read.Pending(), stream.input, maxPayload);
        return;
      }
    }
    h := CheckControl(DecodeLength(o.fin, o.opcode, o.n, read.Pending(), maxPayload));
    HeadDecoded(read.Pending(), stream.input, maxPayload);
  }

  /** The last stage: the rest of a frame whose header is decided. */
  method TakeFrame(read: ReadBuf, stream: Stream, h: Head, maxPayload: nat) returns (r: NextFrame)
    requires read.Valid() && h.Header? && ParseHead(read.Pending(), maxPayload) == h
    modifies read, stream`input, stream`readPlan, stream`served
    ensures read.Valid() && |old(stream.input)| - |stream.input| == read.end - old(read.end) >= 0
    ensures |old(stream.served)| <= |stream.served|
    ensures r.Arrived? ==>
              && r.len <= read.start
              && var payload := read.buf[read.start - r.len..read.start];
              && var p := ParseFrame(old(read.Pending() + stream.input), maxPayload);
              && p.Whole? && p.frame == Frame(r.fin, r.opcode, payload)
              && read.Pending() + stream.input == old(read.Pending() + stream.input)[p.size..]
    ensures !r.Arrived? ==>
              && (r.Stalled? || r.Ended? || r.ReadError?)
              && read.start == old(read.start) && old(read.Pending()) <= read.Pending()
              && read.Pending() + stream.input == old(read.Pending() + stream.input)
              && ParseFrame(read.Pending(), maxPayload).NeedMore?
              && read.Explains(stream, |old(stream.served)|,
                               if r.Stalled? then WouldBlock else if r.Ended? then AtEof else IoFailed)
    ensures r.Ended? ==> ParseFrame(read.Pending() + stream.input, maxPayload).NeedMore?
    ensures var (a, f) := AfterFill(old(read.IntakeOf(stream)), h.size + h.len);
            && f == FillOf(r)
            && read.IntakeOf(stream).(start := old(read.start)) == a
  {
    hide ParseHead, ParseFrame, AfterFill;
    var size, len := h.size, h.len;
    var fill := Fill(read, stream, size + len);
    HeadExtends(old(read.Pending()), read.Pending(), stream.input, maxPayload);
    if fill != Filled {
      assert stream.input == [] ==> read.Pending() + stream.input == read.Pending();
      return Unfilled(fill);
    }
    ghost var p, rest := read.Pending(), stream.input;
    read.Consume(size + len);
    DropFront(p, rest, size + len);
    SliceOfSlice(read.buf, read.start - size - len, read.end, size, size + len);
    return Arrived(h.fin, h.opcode, len);
  }

  lemma SliceOfSlice(buf: bytes, a: nat, b: nat, i: nat, j: nat)
    requires a <= b <= |buf| && i <= j <= b - a
    ensures buf[a..b][i..j] == buf[a + i..a + j]
  {
    var s := buf[a..b];
    assert forall k | 0 <= k < j - i :: s[i..j][k] == s[i + k] == buf[a + i + k] == buf[a + i..a + j][k];
  }

  lemma DropFront(p: bytes, rest: bytes, n: nat)
    requires n <= |p|
    ensures p[n..] + rest == (p + rest)[n..]
  {}

  function Unfilled(r: FillResult): NextFrame
    requires r != Filled
  {
    match r case AtEof => Ended case WouldBlock => Stalled case IoFailed => ReadError
  }

  /** `fill_from`, seen as moving octets from the stream to the pending region. */
  method Fill(read: ReadBuf, stream: Stream, need: nat) returns (r: FillResult)
    requires read.Valid()
    modifies read`buf, read`end, stream`input, stream`readPlan, stream`served
    ensures read.Valid() && read.end >= old(read.end) && old(read.Pending()) <= read.Pending()
    ensures read.Pending() + stream.input == old(read.Pending() + stream.input)
    ensures |old(stream.input)| - |stream.input| == read.end - old(read.end)
    ensures r == Filled <==> |read.Pending()| >= need
    ensures read.Explains(stream, |old(stream.served)|, r) && |old(stream.served)| <= |stream.served|
    ensures AfterFill(old(read.IntakeOf(stream)), need) == (read.IntakeOf(stream), r)
  {
    r := read.FillFrom(stream, need);
    read.FillKeepsQueue(stream);
  }

  /** Fewer octets than the header needs: the parser asks for more. */
  lemma StillShort(p: bytes, rest: bytes, maxPayload: nat)
    requires |p| >= 2 ==>
               var o := SplitOctets(p[0], p[1]);
               o.rsv == 0 && !o.masked && o.n >= 126 && |p| < (if o.n == 126 then 4 else 10)
    ensures ParseFrame(p, maxPayload).NeedMore?
    ensures rest == [] ==> ParseFrame(p + rest, maxPayload).NeedMore?
  {
    hide SplitOctets;
    assert p + [] == p;
  }

  lemma BadFirstOctets(p: bytes, rest: bytes, maxPayload: nat)
    requires |p| >= 2
    ensures var o := SplitOctets(p[0], p[1]);
            && (o.rsv != 0 ==> ParseHead(p, maxPayload) == BadHead(BadReservedBits(o.rsv))
                               && ParseFrame(p + rest, maxPayload) == Bad(BadReservedBits(o.rsv)))
            && (o.rsv == 0 && o.masked ==> ParseHead(p, maxPayload) == BadHead(MaskedServerFrame)
                                           && ParseFrame(p + rest, maxPayload) == Bad(MaskedServerFrame))
  {
    hide SplitOctets;
    assert (p + rest)[0] == p[0] && (p + rest)[1] == p[1];
  }

  /** With the length octets at hand the header is decided, on the buffer and on the whole wire. */
  lemma HeadDecoded(p: bytes, rest: bytes, maxPayload: nat)
    requires |p| >= 2
    requires var o := SplitOctets(p[0], p[1]);
             o.rsv == 0 && !o.masked && (o.n >= 126 ==> |p| >= if o.n == 126 then 4 else 10)
    ensures var o := SplitOctets(p[0], p[1]);
            var h := CheckControl(DecodeLength(o.fin, o.opcode, o.n, p, maxPayload));
            && !h.Short? && h == ParseHead(p, maxPayload)
            && (h.BadHead? ==> ParseFrame(p + rest, maxPayload) == Bad(h.error))
  {
    hide SplitOctets, CheckControl;
    var o := SplitOctets(p[0], p[1]);
    DecodedNotShort(o.fin, o.opcode, o.n, p, maxPayload);
    ShortStays(DecodeLength(o.fin, o.opcode, o.n, p, maxPayload));
    HeadStable(p, rest, maxPayload);
  }

  lemma DecodedNotShort(fin: bool, opcode: byte, n: nat, w: bytes, maxPayload: nat)
    requires n >= 126 ==> |w| >= if n == 126 then 4 else 10
    ensures !DecodeLength(fin, opcode, n, w, maxPayload).Short?
  {}

  /** A decided header stays decided as the buffer fills; then only the payload is awaited. */
  lemma HeadExtends(p: bytes, q: bytes, rest: bytes, maxPayload: nat)
    requires p <= q && ParseHead(p, maxPayload).Header?
    ensures var h := ParseHead(p, maxPayload);
            if |q| < h.size + h.len then ParseFrame(q, maxPayload).NeedMore?
            else ParseFrame(q + rest, maxPayload)
                 == Whole(Frame(h.fin, h.opcode, q[h.size..h.size + h.len]), h.size + h.len)
  {
    hide ParseHead;
    var h := ParseHead(p, maxPayload);
    assert q == p + q[|p|..];
    HeadStable(p, q[|p|..], maxPayload);
    HeadStable(q, rest, maxPayload);
    if |q| >= h.size + h.len {
      assert (q + rest)[h.size..h.size + h.len] == q[h.size..h.size + h.len];
    }
  }

  // ----- Reassembly of fragmented text -----

  /** `fragment_text`, `utf8_tail` and `utf8_tail_len`. */
  class TextBuffer {
    var text: bytes
    const tail: array<byte>
    var tailLen: nat

    ghost predicate Valid()
      reads this, tail
    {
      tail.Length == 3 && tailLen <= 3
    }

    function State(): TextState
      requires Valid()
      reads this, tail
    {
      TextState(text, tail[..tailLen])
    }

    constructor ()
      ensures Valid() && State() == EMPTY && fresh(tail)
    {
      text, tailLen := [], 0;
      tail := new byte[3](_ => 0);
    }

    method Clear()
      requires Valid()
      modifies this`text, this`tailLen
      ensures Valid() && State() == EMPTY
    {
      text, tailLen := [], 0;
    }

    /** Empties the text alone, as the shrinking of an idle reassembly buffer does. */
    method ClearText()
      requires Valid()
      modifies this`text
      ensures Valid() && State() == TextState([], old(State()).tail)
    {
      text := [];
    }

    /** Saves an unfinished piece in the tail array. */
    method SaveTail(inv: bytes)
      requires Valid() && |inv| <= 3
      modifies this`tailLen, tail
      ensures Valid() && State() == TextState(text, inv)
    {
      forall i | 0 <= i < |inv| {
        tail[i] := inv[i];
      }
      tailLen := |inv|;
      assert tail[..tailLen] == inv;
    }

    /** The single pass over data that starts at a character boundary. */
    method PushRest(data: bytes, isFinal: bool) returns (ok: bool)
      requires Valid() && tailLen == 0
      modifies this`text, this`tailLen, tail
      ensures Valid()
      ensures TailOk(State().tail)
      ensures ok <==> PushFresh(old(text), data, isFinal).Some?
      ensures ok ==> State() == PushFresh(old(text), data, isFinal).value
    {
      hide Utf8.ValidUpTo, Utf8.BadLen, Utf8.StartsWithChar;
      if |data| == 0 {
        assert text + [] == text;
        return true;
      }
      var valid := Utf8.ValidUpTo(data);
      text := text + data[..valid];
      if valid < |data| {
        Utf8.RestHasNoChar(data);
        var bad := Utf8.BadLen(data[valid..]);
        if isFinal || valid + bad < |data| {
          RefusedPieceIsInvalid(data[valid..]);
          assert !Utf8.Valid(data[valid..][..bad]);     // `unwrap_err`
          return false;
        }
        SaveTail(data[valid..]);
      } else {
        assert data[..valid] == data;
      }
      return true;
    }

    /** `push_text_payload`: appends one fragment; `false` is the `InvalidUtf8` error. */
    method Push(data: bytes, isFinal: bool) returns (ok: bool)
      requires Valid() && TailOk(State().tail)
      modifies this`text, this`tailLen, tail
      ensures Valid()
      ensures TailOk(State().tail)
      ensures ok <==> PushText(old(State()), data, isFinal).Some?
      ensures ok ==> State() == PushText(old(State()), data, isFinal).value
    {
      hide Utf8.ValidUpTo, Utf8.BadLen, Utf8.StartsWithChar, PushFresh;
      ghost var st := State();
      var consumed := 0;
      if tailLen != 0 {
        var tl := tailLen;
        var take := Min(|data|, 3);
        var buf := tail[..tl] + data[..take];
        assert buf == Joined(st.tail, data);
        var valid := Utf8.ValidUpTo(buf);
        if valid == 0 {
          if isFinal || tl + take >= 4 {
            Utf8.RestHasNoChar(buf);
            RefusedPieceIsInvalid(buf);
            assert !Utf8.Valid(buf);     // `unwrap_err`
            return false;
          } else {
            Utf8.RestHasNoChar(buf);
            BadPrefix(buf);
            SaveTail(buf[..Utf8.BadLen(buf)]);
            return true;
          }
        } else {
          HeadCompletesTail(st.tail, data);
          text := text + buf[..valid];
          tailLen := 0;
          consumed := valid - tl;
        }
      }
      assert consumed == 0 ==> data[consumed..] == data;
      ok := PushRest(data[consumed..], isFinal);
    }
  }
}
