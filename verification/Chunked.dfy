/**
 * Decoding a chunked response body (section 4.1 of RFC 7230): a pure decoder of
 * the whole octet stream, its grammar in both directions, and the buffered loop
 * that reads the stream piece by piece.
 */
module Chunked {
  import opened Bytes
  import opened Transport
  import Utf8

  const MAX_RESPONSE_BODY: nat := 16777216
  const COMPACT_BEYOND: nat := 8192
  const READ_SIZE: nat := 4096
  const CR: byte := 13
  const LF: byte := 10
  const CRLF: bytes := [13, 10]

  datatype Failure = ConnectionClosed | MalformedChunk | ResponseTooLarge(size: nat) | Io

  /** Settled whatever follows, or more octets are needed and this is the answer if none come. */
  datatype Progress = Settled(answer: Result<bytes, Failure>) | More(ifEnded: Result<bytes, Failure>)

  // ----- The size line -----

  predicate CrlfAt(d: bytes, i: int) {
    0 <= i < |d| - 1 && d[i] == CR && d[i + 1] == LF
  }

  /** `windows(2).position`: the first line end. */
  function FindCrlf(d: bytes): (r: Option<nat>)
    ensures match r
            case None => forall i :: !CrlfAt(d, i)
            case Some(p) => CrlfAt(d, p) && forall i | i < p :: !CrlfAt(d, i)
  {
    if |d| < 2 then None
    else if CrlfAt(d, 0) then Some(0)
    else
      assert forall i :: CrlfAt(d, i) ==> CrlfAt(d[1..], i - 1);
      match FindCrlf(d[1..])
      case None => None
      case Some(p) => assert CrlfAt(d[1..], p); Some(p + 1)
  }

  /** `split(';').next()`: an extension is dropped. */
  function UntilSemicolon(s: bytes): bytes {
    if s == [] || s[0] == 59 then [] else [s[0]] + UntilSemicolon(s[1..])
  }

  predicate AsciiSpace(b: byte) {
    9 <= b <= 13 || b == 32
  }

  /** The encodings of the white space characters outside ASCII. */
  predicate WideSpace(s: bytes) {
    || (|s| == 2 && s[0] == 0xC2 && (s[1] == 0x85 || s[1] == 0xA0))
    || (|s| == 3 && s[0] == 0xE1 && s[1] == 0x9A && s[2] == 0x80)
    || (|s| == 3 && s[0] == 0xE2 && s[1] == 0x80
        && (0x80 <= s[2] <= 0x8A || s[2] == 0xA8 || s[2] == 0xA9 || s[2] == 0xAF))
    || (|s| == 3 && s[0] == 0xE2 && s[1] == 0x81 && s[2] == 0x9F)
    || (|s| == 3 && s[0] == 0xE3 && s[1] == 0x80 && s[2] == 0x80)
  }

  /** Octets of the white space character that begins `s`; 0 if none does. */
  function LeadingSpace(s: bytes): (n: nat)
    ensures n <= |s|
  {
    if s != [] && AsciiSpace(s[0]) then 1
    else if |s| >= 2 && WideSpace(s[..2]) then 2
    else if |s| >= 3 && WideSpace(s[..3]) then 3
    else 0
  }

  function TrailingSpace(s: bytes): (n: nat)
    ensures n <= |s|
  {
    if s != [] && AsciiSpace(s[|s| - 1]) then 1
    else if |s| >= 2 && WideSpace(s[|s| - 2..]) then 2
    else if |s| >= 3 && WideSpace(s[|s| - 3..]) then 3
    else 0
  }

  function TrimStart(s: bytes): bytes
    decreases |s|
  {
    if LeadingSpace(s) == 0 then s else TrimStart(s[LeadingSpace(s)..])
  }

  function TrimEnd(s: bytes): bytes
    decreases |s|
  {
    if TrailingSpace(s) == 0 then s else TrimEnd(s[..|s| - TrailingSpace(s)])
  }

  function HexDigit(b: byte): (r: Option<nat>)
    ensures r.Some? ==> r.value < 16
  {
    if 48 <= b <= 57 then Some(ByteValue(b - 48))
    else if 97 <= b <= 102 then Some(ByteValue(b - 87))
    else if 65 <= b <= 70 then Some(ByteValue(b - 55))
    else None
  }

  function HexValue(ds: bytes): Option<nat> {
    if ds == [] then Some(0)
    else
      match (HexValue(ds[..|ds| - 1]), HexDigit(ds[|ds| - 1]))
      case (Some(high), Some(low)) => Some(high * 16 + low)
      case _ => None
  }

  /** `usize::from_str_radix(.., 16)`: an optional plus sign, digits, no overflow. */
  function ParseHex(t: bytes): (r: Option<nat>)
    ensures r.Some? ==> r.value < USIZE_LIMIT
  {
    var ds := if t != [] && t[0] == 43 then t[1..] else t;
    if ds == [] then None
    else
      match HexValue(ds)
      case None => None
      case Some(v) => if v < USIZE_LIMIT then Some(v) else None
  }

  function ChunkSize(line: bytes): Option<nat> {
    if Utf8.Valid(line) then ParseHex(TrimEnd(TrimStart(UntilSemicolon(line)))) else None
  }

  // ----- The pure decoder -----

  /** Header lines after the last chunk, up to an empty one. */
  function Trailers(d: bytes, got: bytes): Progress
    decreases |d|
  {
    match FindCrlf(d)
    case None => More(Ok(got))
    case Some(p) => if p == 0 then Settled(Ok(got)) else Trailers(d[p + 2..], got)
  }

  function Scan(d: bytes, got: bytes): Progress
    decreases |d|
  {
    match FindCrlf(d)
    case None => More(Err(ConnectionClosed))
    case Some(p) =>
      match ChunkSize(d[..p])
      case None => Settled(Err(MalformedChunk))
      case Some(size) => ScanChunk(d[p + 2..], got, size)
  }

  /** After a size line. */
  function ScanChunk(d: bytes, got: bytes, size: nat): Progress
    decreases |d|, 1
  {
    if size == 0 then Trailers(d, got)
    else if size > MAX_RESPONSE_BODY then Settled(Err(ResponseTooLarge(size)))
    else if |got| + size > MAX_RESPONSE_BODY then Settled(Err(ResponseTooLarge(|got| + size)))
    else if |d| < size + 2 then More(Err(ConnectionClosed))
    else if d[size..size + 2] != CRLF then Settled(Err(MalformedChunk))
    else Scan(d[size + 2..], got + d[..size])
  }

  /** The answer for a stream that ends after `d`. */
  function Decode(d: bytes): Result<bytes, Failure> {
    Answer(Scan(d, []))
  }

  function Answer(p: Progress): Result<bytes, Failure> {
    match p
    case Settled(r) => r
    case More(r) => r
  }

  // ----- More octets never change a settled answer -----

  lemma FindCrlfStable(d: bytes, more: bytes)
    requires FindCrlf(d).Some?
    ensures FindCrlf(d + more) == FindCrlf(d)
  {
    var p := FindCrlf(d).value;
    assert CrlfAt(d + more, p);
    assert forall i | i < p :: CrlfAt(d + more, i) ==> CrlfAt(d, i);
  }

  lemma {:induction false} TrailersStable(d: bytes, more: bytes, got: bytes)
    requires Trailers(d, got).Settled?
    ensures Trailers(d + more, got) == Trailers(d, got)
    decreases |d|
  {
    FindCrlfStable(d, more);
    var p := FindCrlf(d).value;
    if p > 0 {
      TrailersStable(d[p + 2..], more, got);
      assert (d + more)[p + 2..] == d[p + 2..] + more;
    }
  }

  /** How the octets are split between reads, and what follows the body, does not matter. */
  lemma {:induction false} ScanStable(d: bytes, more: bytes, got: bytes)
    requires Scan(d, got).Settled?
    ensures Scan(d + more, got) == Scan(d, got)
    decreases |d|
  {
    hide ChunkSize, FindCrlf;
    FindCrlfStable(d, more);
    var p := FindCrlf(d).value;
    assert (d + more)[..p] == d[..p] && (d + more)[p + 2..] == d[p + 2..] + more;
    if ChunkSize(d[..p]).Some? {
      ScanChunkStable(d[p + 2..], more, got, ChunkSize(d[..p]).value);
    }
  }

  lemma {:induction false} ScanChunkStable(d: bytes, more: bytes, got: bytes, size: nat)
    requires ScanChunk(d, got, size).Settled?
    ensures ScanChunk(d + more, got, size) == ScanChunk(d, got, size)
    decreases |d|, 1
  {
    hide Trailers, Scan;
    if size == 0 {
      TrailersStable(d, more, got);
    } else if size + 2 <= |d| {
      assert (d + more)[size..size + 2] == d[size..size + 2];
      assert (d + more)[size + 2..] == d[size + 2..] + more;
      assert (d + more)[..size] == d[..size];
      if Scan(d[size + 2..], got + d[..size]).Settled? {
        ScanStable(d[size + 2..], more, got + d[..size]);
      }
    }
  }

  // ----- The grammar -----

  /** A chunk as sent: its size line (size, optional extensions) and its data. */
  datatype Chunk = Chunk(line: bytes, data: bytes)

  /** The first line end after `line` is the one that ends it. */
  ghost predicate IsLine(line: bytes) {
    forall i :: !CrlfAt(line + [CR], i)
  }

  ghost predicate ChunkOk(c: Chunk) {
    IsLine(c.line) && c.data != [] && ChunkSize(c.line) == Some(|c.data|)
  }

  ghost predicate ChunksOk(cs: seq<Chunk>) {
    forall c | c in cs :: ChunkOk(c)
  }

  function EncodeChunk(c: Chunk): bytes {
    c.line + CRLF + c.data + CRLF
  }

  function Encode(cs: seq<Chunk>): bytes {
    if cs == [] then [] else EncodeChunk(cs[0]) + Encode(cs[1..])
  }

  function Data(cs: seq<Chunk>): bytes {
    if cs == [] then [] else cs[0].data + Data(cs[1..])
  }

  function TrailerText(lines: seq<bytes>): bytes {
    if lines == [] then [] else lines[0] + CRLF + TrailerText(lines[1..])
  }

  ghost predicate TrailersOk(lines: seq<bytes>) {
    forall line | line in lines :: line != [] && IsLine(line)
  }

  ghost predicate LastOk(line: bytes) {
    IsLine(line) && ChunkSize(line) == Some(0)
  }

  lemma LineEndsHere(line: bytes, t: bytes)
    requires IsLine(line)
    ensures FindCrlf(line + CRLF + t) == Some(|line|)
    ensures (line + CRLF + t)[..|line|] == line && (line + CRLF + t)[|line| + 2..] == t
  {
    var d := line + CRLF + t;
    assert CrlfAt(d, |line|);
    assert forall i | i < |line| :: CrlfAt(d, i) ==> CrlfAt(line + [CR], i);
  }

  lemma {:induction false} TrailersPast(lines: seq<bytes>, t: bytes, got: bytes)
    requires TrailersOk(lines)
    ensures Trailers(TrailerText(lines) + t, got) == Trailers(t, got)
  {
    if lines == [] {
      assert TrailerText(lines) + t == t;
    } else {
      var rest := TrailerText(lines[1..]) + t;
      assert TrailerText(lines) + t == lines[0] + CRLF + rest;
      LineEndsHere(lines[0], rest);
      TrailersPast(lines[1..], t, got);
    }
  }

  lemma ScanPastChunk(c: Chunk, t: bytes, got: bytes)
    requires ChunkOk(c) && |got| + |c.data| <= MAX_RESPONSE_BODY
    ensures Scan(EncodeChunk(c) + t, got) == Scan(t, got + c.data)
  {
    hide ChunkSize, FindCrlf;
    var rest := c.data + CRLF + t;
    assert EncodeChunk(c) + t == c.line + CRLF + rest;
    LineEndsHere(c.line, rest);
    var size := |c.data|;
    assert rest[size..size + 2] == CRLF && rest[size + 2..] == t && rest[..size] == c.data;
  }

  lemma {:induction false} ScanPastChunks(cs: seq<Chunk>, t: bytes, got: bytes)
    requires ChunksOk(cs) && |got| + |Data(cs)| <= MAX_RESPONSE_BODY
    ensures Scan(Encode(cs) + t, got) == Scan(t, got + Data(cs))
  {
    hide ChunkOk, Scan;
    if cs == [] {
      assert Encode(cs) + t == t && got + Data(cs) == got;
    } else {
      assert Encode(cs) + t == EncodeChunk(cs[0]) + (Encode(cs[1..]) + t);
      ScanPastChunk(cs[0], Encode(cs[1..]) + t, got);
      ScanPastChunks(cs[1..], t, got + cs[0].data);
      assert got + cs[0].data + Data(cs[1..]) == got + Data(cs);
    }
  }

  lemma ScanLast(last: bytes, t: bytes, got: bytes)
    requires LastOk(last)
    ensures Scan(last + CRLF + t, got) == Trailers(t, got)
  {
    hide ChunkSize, FindCrlf;
    LineEndsHere(last, t);
  }

  /** Every well-formed body within the limit is decoded to its data, whatever comes after it. */
  lemma EncodedIsDecoded(cs: seq<Chunk>, last: bytes, trailers: seq<bytes>, rest: bytes)
    requires ChunksOk(cs) && LastOk(last) && TrailersOk(trailers) && |Data(cs)| <= MAX_RESPONSE_BODY
    ensures Scan(Encode(cs) + (last + CRLF + (TrailerText(trailers) + (CRLF + rest))), []) == Settled(Ok(Data(cs)))
  {
    hide ChunkSize, FindCrlf, Scan, LastOk, ChunkOk;
    var tail := CRLF + rest;
    ScanPastChunks(cs, last + CRLF + (TrailerText(trailers) + tail), []);
    assert [] + Data(cs) == Data(cs);
    ScanLast(last, TrailerText(trailers) + tail, Data(cs));
    TrailersPast(trailers, tail, Data(cs));
    assert [] + CRLF + rest == tail;
    LineEndsHere([], rest);
  }

  // ----- Only well-formed bodies are accepted -----

  lemma LineBeforeCrlf(d: bytes, p: nat)
    requires FindCrlf(d) == Some(p)
    ensures IsLine(d[..p]) && d == d[..p] + CRLF + d[p + 2..]
  {
    assert forall i :: CrlfAt(d[..p] + [CR], i) ==> CrlfAt(d, i);
  }

  lemma {:induction false} TrailersSucceed(d: bytes, got: bytes)
    ensures Trailers(d, got) == Settled(Ok(got)) || Trailers(d, got) == More(Ok(got))
    decreases |d|
  {
    var f := FindCrlf(d);
    if f.Some? && f.value > 0 {
      TrailersSucceed(d[f.value + 2..], got);
    }
  }

  /** The stream begins with a size line of a known size. */
  lemma FirstLine(d: bytes, got: bytes) returns (line: bytes, size: nat, rest: bytes)
    requires Answer(Scan(d, got)).Ok?
    ensures IsLine(line) && ChunkSize(line) == Some(size) && d == line + CRLF + rest
    ensures Scan(d, got) == ScanChunk(rest, got, size)
  {
    hide ChunkSize, FindCrlf, ScanChunk;
    var p := FindCrlf(d).value;
    LineBeforeCrlf(d, p);
    line, size, rest := d[..p], ChunkSize(d[..p]).value, d[p + 2..];
  }

  /** A chunk that was taken is followed by its line end. */
  lemma FirstChunk(rest: bytes, got: bytes, size: nat) returns (data: bytes, t: bytes)
    requires Answer(ScanChunk(rest, got, size)).Ok? && size > 0
    ensures |data| == size && rest == data + CRLF + t && |got| + size <= MAX_RESPONSE_BODY
    ensures ScanChunk(rest, got, size) == Scan(t, got + data)
  {
    hide Scan;
    data, t := rest[..size], rest[size + 2..];
    assert rest == rest[..size] + rest[size..size + 2] + rest[size + 2..];
  }

  /** A decoded body is the data of the chunks the stream begins with, and is within the limit. */
  lemma {:induction false} AcceptedIsEncoded(d: bytes, got: bytes) returns (cs: seq<Chunk>, last: bytes, t: bytes)
    requires Answer(Scan(d, got)).Ok? && |got| <= MAX_RESPONSE_BODY
    ensures ChunksOk(cs) && LastOk(last) && d == Encode(cs) + (last + CRLF + t)
    ensures Answer(Scan(d, got)) == Ok(got + Data(cs)) && |got| + |Data(cs)| <= MAX_RESPONSE_BODY
    decreases |d|
  {
    hide ChunkSize, FindCrlf, Scan, ScanChunk, IsLine;
    var line, size, rest := FirstLine(d, got);
    if size == 0 {
      cs, last, t := [], line, rest;
      LastChunk(rest, got);
      assert d == Encode(cs) + (last + CRLF + t) && got + Data(cs) == got;
    } else {
      var data, t' := FirstChunk(rest, got, size);
      var c := Chunk(line, data);
      var others;
      others, last, t := AcceptedIsEncoded(t', got + data);
      cs := [c] + others;
      assert cs[1..] == others && (got + data) + Data(others) == got + Data(cs);
      assert d == EncodeChunk(c) + t' == Encode(cs) + (last + CRLF + t);
    }
  }

  lemma LastChunk(rest: bytes, got: bytes)
    ensures Answer(ScanChunk(rest, got, 0)) == Ok(got)
  {
    TrailersSucceed(rest, got);
  }

  ghost predicate IsBody(d: bytes, body: bytes) {
    exists cs, last, t ::
      && ChunksOk(cs) && LastOk(last) && d == Encode(cs) + (last + CRLF + t)
      && body == Data(cs) && |body| <= 16777216
  }

  /** Exactly the well-formed bodies within the limit are accepted, with exactly their data. */
  lemma AcceptedIffEncoded(d: bytes, body: bytes)
    ensures Decode(d) == Ok(body) <==> IsBody(d, body)
  {
    hide ChunkSize, FindCrlf, Scan, LastOk, ChunkOk, Encode, Data;
    if Decode(d) == Ok(body) {
      var cs, last, t := AcceptedIsEncoded(d, []);
      assert [] + Data(cs) == Data(cs);
      assert IsBody(d, body);
    }
    if IsBody(d, body) {
      var cs, last, t :| ChunksOk(cs) && LastOk(last) && d == Encode(cs) + (last + CRLF + t)
                         && body == Data(cs) && |body| <= 16777216;
      ScanPastChunks(cs, last + CRLF + t, []);
      assert [] + Data(cs) == Data(cs);
      ScanLast(last, t, body);
      TrailersSucceed(t, body);
    }
  }

  // ----- Trimming and cutting -----

  lemma {:induction false} CutAtSemicolon(s: bytes, ext: bytes)
    requires 59 !in s && (ext == [] || ext[0] == 59)
    ensures UntilSemicolon(s + ext) == s
  {
    if s == [] {
      assert s + ext == ext;
    } else {
      assert (s + ext)[1..] == s[1..] + ext;
      CutAtSemicolon(s[1..], ext);
    }
  }

  lemma {:induction false} AsciiIsValid(s: bytes)
    requires forall b | b in s :: b <= 0x7F
    ensures Utf8.Valid(s)
  {
    if s != [] {
      assert s[0] in s;
      assert forall b | b in s[1..] :: b in s;
      AsciiIsValid(s[1..]);
    }
  }

  lemma WideIsNotAscii(s: bytes)
    ensures WideSpace(s) ==> s[0] > 0x7F && s[|s| - 1] > 0x7F
  {}

  /** Text bounded by printable ASCII has nothing to trim. */
  lemma NothingToTrim(s: bytes)
    requires s != []
    ensures s[0] <= 0x7F && !AsciiSpace(s[0]) ==> LeadingSpace(s) == 0
    ensures s[|s| - 1] <= 0x7F && !AsciiSpace(s[|s| - 1]) ==> TrailingSpace(s) == 0
  {
    hide WideSpace;
    if |s| >= 2 {
      WideIsNotAscii(s[..2]);
      WideIsNotAscii(s[|s| - 2..]);
    }
    if |s| >= 3 {
      WideIsNotAscii(s[..3]);
      WideIsNotAscii(s[|s| - 3..]);
    }
  }

  // ----- The buffered loop -----

  datatype LineEnd = At(end: nat) | Ended | Failed

  /** The last read, one made after `servedBefore`, delivered no octets and no end. */
  ghost predicate ReadRefused(stream: Stream, servedBefore: nat)
    reads stream
  {
    servedBefore < |stream.served| && !stream.served[|stream.served| - 1].event.Ready?
  }

  /** A read has been made since. */
  twostate predicate Asked(stream: Stream)
    reads stream
  {
    |stream.served| > |old(stream.served)|
  }

  /** What is known of reads made since, if any. */
  twostate predicate Reads(stream: Stream)
    reads stream
  {
    && |stream.served| >= |old(stream.served)|
    && if Asked(stream) then |stream.LastUnread()| <= |old(stream.input)| else stream.LastUnread() == old(stream.LastUnread())
  }

  /** Of the octets `all`, in hand or unread at first: those in hand when `unread` was unread. */
  ghost function InHand(all: bytes, unread: bytes): bytes
    requires |unread| <= |all|
  {
    all[..|all| - |unread|]
  }

  lemma InHandBehind(head: bytes, all: bytes, unread: bytes)
    requires |unread| <= |all|
    ensures InHand(head + all, unread) == head + InHand(all, unread)
  {}

  method SearchCrlf(buf: bytes, pos: nat) returns (r: Option<nat>)
    requires pos <= |buf|
    ensures r == FindCrlf(buf[pos..])
  {
    var k := pos;
    while k + 1 < |buf|
      invariant pos <= k <= |buf|
      invariant forall i | i < k - pos :: !CrlfAt(buf[pos..], i)
    {
      if buf[k] == CR && buf[k + 1] == LF {
        assert CrlfAt(buf[pos..], k - pos);
        return Some(k - pos);
      }
      assert !CrlfAt(buf[pos..], k - pos);
      k := k + 1;
    }
    return None;
  }

  /** One read.  Octets in hand and unread octets together stay what they were. */
  method ReadSome(stream: Stream, soFar: bytes, pos: nat) returns (buf: bytes, r: Option<LineEnd>)
    requires pos <= |soFar|
    modifies stream`input, stream`readPlan, stream`served
    ensures pos <= |buf| && soFar <= buf && soFar[pos..] + old(stream.input) == buf[pos..] + stream.input
    ensures Asked(stream) && stream.LastUnread() == old(stream.input) && |buf| <= |soFar| + 4096
    ensures InHand(soFar[pos..] + old(stream.input), stream.LastUnread()) == soFar[pos..]
    ensures match r
            case None => |stream.input| < |old(stream.input)|
            case Some(e) =>
              && buf == soFar && !e.At?
              && if e == Ended then stream.input == [] else ReadRefused(stream, |old(stream.served)|)
  {
    buf, r := soFar, Some(Failed);
    var got := stream.Read(READ_SIZE);
    match got {
      case Got(data) =>
        assert (buf + data)[pos..] == buf[pos..] + data;
        buf := buf + data;
        r := if |data| == 0 then Some(Ended) else None;
        assert |data| == 0 ==> buf == soFar;
      case GotInterrupted =>
      case GotBlocked =>
      case GotError =>
    }
  }

  /** Reads until a line end is in hand; no read is made once one is. */
  method AwaitCrlf(stream: Stream, soFar: bytes, pos: nat) returns (buf: bytes, r: LineEnd)
    requires pos <= |soFar|
    modifies stream`input, stream`readPlan, stream`served
    ensures pos <= |buf| && soFar[pos..] + old(stream.input) == buf[pos..] + stream.input
    ensures soFar[pos..] <= buf[pos..]
    ensures match r
            case At(p) => p >= pos && FindCrlf(buf[pos..]) == Some(p - pos)
            case Ended => FindCrlf(buf[pos..]) == None && stream.input == []
            case Failed => ReadRefused(stream, |old(stream.served)|)
    ensures Reads(stream)
    ensures Asked(stream) ==> FindCrlf(InHand(soFar[pos..] + old(stream.input), stream.LastUnread())) == None
  {
    hide FindCrlf;
    buf := soFar;
    while true
      invariant pos <= |buf| && soFar[pos..] + old(stream.input) == buf[pos..] + stream.input
      invariant soFar[pos..] <= buf[pos..] && Reads(stream)
      invariant Asked(stream) ==> FindCrlf(InHand(soFar[pos..] + old(stream.input), stream.LastUnread())) == None
      decreases |stream.input|
    {
      var found := SearchCrlf(buf, pos);
      if found.Some? {
        return buf, At(pos + found.value);
      }
      var end;
      buf, end := ReadSome(stream, buf, pos);
      if end.Some? {
        return buf, end.value;
      }
    }
  }

  /** Reads until `need` octets from `pos` on are in hand; no read is made once they are. */
  method AwaitOctets(stream: Stream, soFar: bytes, pos: nat, need: nat) returns (buf: bytes, r: LineEnd)
    requires pos <= |soFar|
    modifies stream`input, stream`readPlan, stream`served
    ensures pos <= |buf| && soFar[pos..] + old(stream.input) == buf[pos..] + stream.input
    ensures soFar <= buf
    ensures match r
            case At(p) => p == pos + need <= |buf|
            case Ended => |buf| < pos + need && stream.input == []
            case Failed => ReadRefused(stream, |old(stream.served)|)
    ensures Reads(stream)
    ensures Asked(stream) ==> |InHand(soFar[pos..] + old(stream.input), stream.LastUnread())| < need
  {
    buf := soFar;
    while |buf| - pos < need
      invariant pos <= |buf| && soFar[pos..] + old(stream.input) == buf[pos..] + stream.input
      invariant soFar <= buf && Reads(stream)
      invariant Asked(stream) ==> |InHand(soFar[pos..] + old(stream.input), stream.LastUnread())| < need
      decreases |stream.input|
    {
      var end;
      buf, end := ReadSome(stream, buf, pos);
      if end.Some? {
        return buf, end.value;
      }
    }
    return buf, At(pos + need);
  }

  /** `r` is what the octets in hand decide, or what they decide because no more come. */
  predicate Decides(p: Progress, r: Result<bytes, Failure>, ended: bool) {
    p == Settled(r) || (ended && p == More(r))
  }

  lemma {:induction false} TrailerTextSnoc(lines: seq<bytes>, line: bytes)
    ensures TrailerText(lines + [line]) == TrailerText(lines) + line + CRLF
  {
    if lines == [] {
      assert [line][1..] == [];
    } else {
      assert (lines + [line])[1..] == lines[1..] + [line];
      TrailerTextSnoc(lines[1..], line);
    }
  }

  /** A line in hand is one more trailer line passed. */
  lemma TrailerLine(lines: seq<bytes>, buf: bytes, pos: nat, p: nat)
    requires pos < p <= |buf| && TrailersOk(lines) && FindCrlf(buf[pos..]) == Some(p - pos)
    ensures p + 2 <= |buf| && TrailersOk(lines + [buf[pos..p]])
    ensures TrailerText(lines) + buf[pos..] == TrailerText(lines + [buf[pos..p]]) + buf[p + 2..]
  {
    hide FindCrlf;
    var t := buf[pos..];
    LineBeforeCrlf(t, p - pos);
    assert t[..p - pos] == buf[pos..p] && t[p - pos + 2..] == buf[p + 2..];
    TrailerTextSnoc(lines, buf[pos..p]);
  }

  /** What the trailer lines passed so far leave of a later look at the buffer. */
  lemma TrailersAgree(lines: seq<bytes>, t: bytes, got: bytes)
    requires TrailersOk(lines)
    ensures Trailers(TrailerText(lines) + t, got) == Trailers(t, got)
    ensures FindCrlf(t) == None ==> Trailers(t, got) == More(Ok(got))
    ensures FindCrlf(t) == Some(0) ==> Trailers(t, got) == Settled(Ok(got))
  {
    TrailersPast(lines, t, got);
  }

  lemma NoTrailers()
    ensures TrailersOk([]) && TrailerText([]) == []
  {}

  /** Octets already passed go along with what a read moves from the stream into the buffer. */
  lemma Carry(head: bytes, before: bytes, unread: bytes, now: bytes, left: bytes)
    requires before + unread == now + left && before <= now
    ensures head + before + unread == head + now + left && head + before <= head + now
  {
    assert head + before + unread == head + (before + unread);
  }

  /**
   * One pass of the loop after the last chunk, with the trailer lines passed so far.
   * `all` are they, the octets in hand and the octets unread.
   */
  method AwaitTrailer(stream: Stream, soFar: bytes, pos: nat, ghost lines: seq<bytes>, ghost got: bytes, ghost all: bytes)
    returns (buf: bytes, end: LineEnd, ghost hand: bytes)
    requires pos <= |soFar| && TrailersOk(lines) && all == TrailerText(lines) + soFar[pos..] + stream.input
    modifies stream`input, stream`readPlan, stream`served
    ensures pos <= |buf| && hand == TrailerText(lines) + buf[pos..] && all == hand + stream.input
    ensures TrailerText(lines) + soFar[pos..] <= hand
    ensures match end
            case At(p) =>
              && p >= pos && FindCrlf(buf[pos..]) == Some(p - pos)
              && (p == pos ==> Trailers(hand, got) == Settled(Ok(got)))
            case Ended => Trailers(hand, got) == More(Ok(got)) && stream.input == []
            case Failed => ReadRefused(stream, |old(stream.served)|)
    ensures Reads(stream) && |stream.input| <= |old(stream.input)|
    ensures Asked(stream) ==> Trailers(InHand(all, stream.LastUnread()), got).More?
  {
    hide FindCrlf, Trailers, TrailerText, TrailersOk, InHand;
    buf, end := AwaitCrlf(stream, soFar, pos);
    hand := TrailerText(lines) + buf[pos..];
    ghost var behind := soFar[pos..] + old(stream.input);
    Carry(TrailerText(lines), soFar[pos..], old(stream.input), buf[pos..], stream.input);
    TrailersAgree(lines, buf[pos..], got);
    if Asked(stream) {
      TrailersAgree(lines, InHand(behind, stream.LastUnread()), got);
      InHandBehind(TrailerText(lines), behind, stream.LastUnread());
      assert all == TrailerText(lines) + behind;
    }
  }

  /** With less unread there is more in hand. */
  lemma MoreInHand(before: bytes, unread: bytes, now: bytes, left: bytes)
    requires before + unread == now + left && |left| <= |unread|
    ensures before <= now
  {
    assert before == (before + unread)[..|before|] == (now + left)[..|before|] == now[..|before|];
  }

  /** The loop after the last chunk.  `hand` is all that came into hand from `begin` on. */
  method ReadTrailers(stream: Stream, soFar: bytes, begin: nat, ghost got: bytes)
    returns (finished: bool, ghost hand: bytes)
    requires begin <= |soFar|
    modifies stream`input, stream`readPlan, stream`served
    ensures soFar[begin..] + old(stream.input) == hand + stream.input && soFar[begin..] <= hand
    ensures if finished then Decides(Trailers(hand, got), Ok(got), stream.input == [])
            else ReadRefused(stream, |old(stream.served)|)
    ensures Reads(stream)
    ensures Asked(stream) ==> Trailers(InHand(soFar[begin..] + old(stream.input), stream.LastUnread()), got).More?
  {
    hide FindCrlf, Trailers, IsLine, TrailerText, TrailersOk, InHand;
    var buf, pos := soFar, begin;
    ghost var lines, all := [], soFar[begin..] + stream.input;
    NoTrailers();
    finished, hand := true, soFar[begin..];
    assert [] + hand == hand;
    while true
      invariant 0 <= pos <= |buf| && TrailersOk(lines) && hand == TrailerText(lines) + buf[pos..]
      invariant all == hand + stream.input
      invariant Reads(stream) && |stream.input| <= |old(stream.input)|
      invariant Asked(stream) ==> Trailers(InHand(all, stream.LastUnread()), got).More?
      decreases |buf| - pos + |stream.input|
    {
      var next;
      buf, next, hand := AwaitTrailer(stream, buf, pos, lines, got, all);
      finished := next != Failed;
      if !next.At? || next.end == pos {
        break;
      }
      TrailerLine(lines, buf, pos, next.end);
      lines := lines + [buf[pos..next.end]];
      pos := next.end + 2;
    }
    MoreInHand(soFar[begin..], old(stream.input), hand, stream.input);
  }

  /** Drops what has been consumed once it is more than 8 KiB. */
  method CompactBeyond(buf0: bytes, pos0: nat) returns (buf: bytes, pos: nat)
    requires pos0 <= |buf0|
    ensures pos <= |buf| && buf[pos..] == buf0[pos0..]
    ensures if pos0 <= 8192 then pos == pos0 && buf == buf0 else pos == 0
  {
    buf, pos := buf0, pos0;
    if pos > COMPACT_BEYOND {
      buf := buf[pos..] + buf[|buf| - pos..];
      buf := buf[..|buf| - pos];
      pos := 0;
    }
  }

  /** A size line's chunk: the limits, the data, its line end. */
  method ReadData(stream: Stream, soFar: bytes, begin: nat, result0: bytes, size: nat)
    returns (buf: bytes, pos: nat, result: bytes, done: Option<Result<bytes, Failure>>,
             ghost hand: bytes, ghost data: bytes)
    requires begin <= |soFar| && size > 0
    modifies stream`input, stream`readPlan, stream`served
    ensures soFar[begin..] + old(stream.input) == hand + stream.input && soFar[begin..] <= hand
    ensures match done
            case None =>
              && pos <= |buf| && hand == data + CRLF + buf[pos..] && |data| == size
              && result == result0 + data && |result| <= MAX_RESPONSE_BODY
            case Some(r) =>
              if r == Err(Io) then ReadRefused(stream, |old(stream.served)|)
              else Decides(ScanChunk(hand, result0, size), r, stream.input == [])
    ensures Reads(stream)
    ensures Asked(stream) ==> ScanChunk(InHand(soFar[begin..] + old(stream.input), stream.LastUnread()), result0, size).More?
  {
    hide Scan;
    buf, pos, result, hand, data := soFar, begin, result0, soFar[begin..], [];
    if size > MAX_RESPONSE_BODY {
      done := Some(Err(ResponseTooLarge(size)));
      return;
    }
    if |result| + size > MAX_RESPONSE_BODY {
      done := Some(Err(ResponseTooLarge(|result| + size)));
      return;
    }
    var need := size + 2;
    var end;
    buf, end := AwaitOctets(stream, buf, pos, need);
    hand := buf[pos..];
    match end {
      case Failed => done := Some(Err(Io));
      case Ended => done := Some(Err(ConnectionClosed));
      case At(p) =>
        data := hand[..size];
        result := result + buf[pos..pos + size];
        assert buf[pos..pos + size] == data && buf[pos + size..pos + need] == hand[size..size + 2];
        if buf[pos + size..pos + need] != CRLF {
          done := Some(Err(MalformedChunk));
        } else {
          done := None;
          assert hand == data + hand[size..size + 2] + buf[pos + need..];
          buf, pos := CompactBeyond(buf, pos + need);
        }
    }
  }

  lemma ScanLine(line: bytes, t: bytes, got: bytes)
    requires IsLine(line)
    ensures Scan(line + CRLF + t, got) ==
            if ChunkSize(line) == None then Settled(Err(MalformedChunk)) else ScanChunk(t, got, ChunkSize(line).value)
  {
    hide ChunkSize, FindCrlf, ScanChunk;
    LineEndsHere(line, t);
  }

  lemma NoLine(t: bytes, got: bytes)
    requires FindCrlf(t) == None
    ensures Scan(t, got) == More(Err(ConnectionClosed))
  {}

  /** What a size line calls for: the trailers after the last chunk, or the chunk's data. */
  method ReadSized(stream: Stream, soFar: bytes, begin: nat, result0: bytes, size: nat)
    returns (buf: bytes, pos: nat, result: bytes, done: Option<Result<bytes, Failure>>,
             ghost hand: bytes, ghost data: bytes)
    requires begin <= |soFar|
    modifies stream`input, stream`readPlan, stream`served
    ensures soFar[begin..] + old(stream.input) == hand + stream.input && soFar[begin..] <= hand
    ensures match done
            case None =>
              && pos <= |buf| && hand == data + CRLF + buf[pos..] && |data| == size > 0
              && result == result0 + data && |result| <= MAX_RESPONSE_BODY
            case Some(r) =>
              if r == Err(Io) then ReadRefused(stream, |old(stream.served)|)
              else Decides(ScanChunk(hand, result0, size), r, stream.input == [])
    ensures Reads(stream)
    ensures Asked(stream) ==> ScanChunk(InHand(soFar[begin..] + old(stream.input), stream.LastUnread()), result0, size).More?
  {
    hide Scan, Trailers;
    if size == 0 {
      buf, pos, result, data := soFar, begin, result0, [];
      var finished;
      finished, hand := ReadTrailers(stream, buf, pos, result);
      done := Some(if finished then Ok(result) else Err(Io));
    } else {
      buf, pos, result, done, hand, data := ReadData(stream, soFar, begin, result0, size);
    }
  }

  /** A size line in hand, and what it calls for. */
  method ReadLine(stream: Stream, soFar: bytes, begin: nat, crlf: nat, result0: bytes)
    returns (buf: bytes, pos: nat, result: bytes, done: Option<Result<bytes, Failure>>,
             ghost hand: bytes, ghost c: Chunk)
    requires begin <= crlf && crlf + 2 <= |soFar| && FindCrlf(soFar[begin..]) == Some(crlf - begin)
    modifies stream`input, stream`readPlan, stream`served
    ensures soFar[begin..] + old(stream.input) == hand + stream.input && soFar[begin..] <= hand
    ensures match done
            case None =>
              && pos <= |buf| && hand == EncodeChunk(c) + buf[pos..] && ChunkOk(c)
              && result == result0 + c.data && |result| <= MAX_RESPONSE_BODY
            case Some(r) =>
              if r == Err(Io) then ReadRefused(stream, |old(stream.served)|)
              else Decides(Scan(hand, result0), r, stream.input == [])
    ensures Reads(stream)
    ensures Asked(stream) ==> Scan(InHand(soFar[begin..] + old(stream.input), stream.LastUnread()), result0).More?
  {
    hide ChunkSize, FindCrlf, Scan, ScanChunk, IsLine, InHand;
    ghost var all := soFar[begin..];
    LineBeforeCrlf(all, crlf - begin);
    var line := soFar[begin..crlf];
    ghost var head := line + CRLF;
    assert line == all[..crlf - begin] && all[crlf - begin + 2..] == soFar[crlf + 2..];
    var size := ChunkSize(line);
    ghost var tail;
    if size == None {
      ScanLine(line, soFar[crlf + 2..], result0);
      buf, pos, result, done := soFar, crlf + 2, result0, Some(Err(MalformedChunk));
      hand, c := all, Chunk([], []);
      return;
    }
    ghost var data;
    buf, pos, result, done, tail, data := ReadSized(stream, soFar, crlf + 2, result0, size.value);
    ScanLine(line, tail, result0);
    Carry(head, soFar[crlf + 2..], old(stream.input), tail, stream.input);
    c, hand := Chunk(line, data), head + tail;
    if Asked(stream) {
      ghost var behind := soFar[crlf + 2..] + old(stream.input);
      ScanLine(line, InHand(behind, stream.LastUnread()), result0);
      InHandBehind(head, behind, stream.LastUnread());
      assert soFar[begin..] + old(stream.input) == head + behind;
    }
  }

  /** One pass of the outer loop: a whole chunk, or the answer. */
  method ReadChunk(stream: Stream, soFar: bytes, begin: nat, result0: bytes)
    returns (buf: bytes, pos: nat, result: bytes, done: Option<Result<bytes, Failure>>,
             ghost hand: bytes, ghost c: Chunk)
    requires begin <= |soFar|
    modifies stream`input, stream`readPlan, stream`served
    ensures soFar[begin..] + old(stream.input) == hand + stream.input && soFar[begin..] <= hand
    ensures match done
            case None =>
              && pos <= |buf| && hand == EncodeChunk(c) + buf[pos..] && ChunkOk(c)
              && result == result0 + c.data && |result| <= MAX_RESPONSE_BODY
            case Some(r) =>
              if r == Err(Io) then ReadRefused(stream, |old(stream.served)|)
              else Decides(Scan(hand, result0), r, stream.input == [])
    ensures Reads(stream)
    ensures Asked(stream) ==> Scan(InHand(soFar[begin..] + old(stream.input), stream.LastUnread()), result0).More?
  {
    hide ChunkOk, EncodeChunk, Scan, InHand;
    pos, result, c := begin, result0, Chunk([], []);
    var end;
    buf, end := AwaitCrlf(stream, soFar, pos);
    hand := buf[pos..];
    ghost var all := soFar[begin..] + old(stream.input);
    if Asked(stream) {
      NoLine(InHand(all, stream.LastUnread()), result0);
    }
    match end {
      case Failed => done := Some(Err(Io));
      case Ended =>
        NoLine(hand, result0);
        done := Some(Err(ConnectionClosed));
      case At(crlf) =>
        buf, pos, result, done, hand, c := ReadLine(stream, buf, begin, crlf, result0);
    }
  }

  lemma {:induction false} EncodeSnoc(cs: seq<Chunk>, c: Chunk)
    ensures Encode(cs + [c]) == Encode(cs) + EncodeChunk(c) && Data(cs + [c]) == Data(cs) + c.data
  {
    hide EncodeChunk;
    if cs == [] {
      assert [c][1..] == [] && cs + [c] == [c];
    } else {
      assert (cs + [c])[1..] == cs[1..] + [c];
      EncodeSnoc(cs[1..], c);
      Associate(EncodeChunk(cs[0]), Encode(cs[1..]), EncodeChunk(c));
      Associate(cs[0].data, Data(cs[1..]), c.data);
    }
  }

  /** After the chunks passed so far, a later look at the buffer decides what the whole stream decides. */
  lemma ChunksAgree(cs: seq<Chunk>, t: bytes)
    requires ChunksOk(cs) && |Data(cs)| <= MAX_RESPONSE_BODY
    ensures Scan(Encode(cs) + t, []) == Scan(t, Data(cs))
  {
    hide Scan;
    ScanPastChunks(cs, t, []);
    assert [] + Data(cs) == Data(cs);
  }

  lemma DecidesForAll(taken: bytes, rest: bytes, r: Result<bytes, Failure>)
    requires Decides(Scan(taken, []), r, rest == [])
    ensures Decode(taken + rest) == r
  {
    hide Scan;
    if Scan(taken, []).Settled? {
      ScanStable(taken, rest, []);
    } else {
      assert taken + rest == taken;
    }
  }

  /**
   * `read_chunked_body`.  Unless a read fails, the answer is the pure decoder's
   * on the leftover octets and the whole stream, however they are split.  When the
   * last read was made, the octets in hand had not settled the answer; as a settled
   * answer stays settled, neither had they at any read before it.
   */
  method ReadChunkedBody(stream: Stream, leftover: bytes) returns (r: Result<bytes, Failure>, ghost taken: bytes)
    modifies stream`input, stream`readPlan, stream`served
    ensures leftover + old(stream.input) == taken + stream.input
    ensures r != Err(Io) ==> r == Decode(leftover + old(stream.input))
    ensures r == Err(Io) ==> ReadRefused(stream, |old(stream.served)|)
    ensures Reads(stream)
    ensures Asked(stream) ==> Scan(InHand(leftover + old(stream.input), stream.LastUnread()), []).More?
    ensures Scan(leftover, []).Settled? ==> !Asked(stream)
    ensures r.Ok? ==> |r.value| <= 16777216
  {
    hide Scan, ChunkOk, EncodeChunk, Decode, InHand;
    var buf, pos, result := leftover, 0, [];
    ghost var cs: seq<Chunk> := [];
    while true
      invariant 0 <= pos <= |buf| && ChunksOk(cs) && result == Data(cs) && |result| <= MAX_RESPONSE_BODY
      invariant leftover + old(stream.input) == Encode(cs) + buf[pos..] + stream.input
      invariant Reads(stream) && |stream.input| <= |old(stream.input)|
      invariant Asked(stream) ==> Scan(InHand(leftover + old(stream.input), stream.LastUnread()), []).More?
      decreases |buf| - pos + |stream.input|
    {
      ghost var before := buf[pos..] + stream.input;
      var done;
      ghost var hand, c;
      ghost var earlier := |stream.served|;
      buf, pos, result, done, hand, c := ReadChunk(stream, buf, pos, result);
      taken := Encode(cs) + hand;
      assert Encode(cs) + before == taken + stream.input;
      if |stream.served| > earlier {
        ChunksAgree(cs, InHand(before, stream.LastUnread()));
        InHandBehind(Encode(cs), before, stream.LastUnread());
        assert leftover + old(stream.input) == Encode(cs) + before;
      }
      match done {
        case Some(answer) =>
          if answer != Err(Io) {
            ChunksAgree(cs, hand);
            DecidesForAll(taken, stream.input, answer);
          }
          if Scan(leftover, []).Settled? && Asked(stream) {
            SettledStays(leftover, old(stream.input), stream.LastUnread());
          }
          r := answer;
          if r.Ok? {
            WithinLimit(leftover + old(stream.input));
          }
          return;
        case None =>
          EncodeSnoc(cs, c);
          NotEmpty(c);
          cs := cs + [c];
          assert taken == Encode(cs) + buf[pos..];
      }
    }
  }

  lemma SettledStays(leftover: bytes, input: bytes, unread: bytes)
    requires Scan(leftover, []).Settled? && |unread| <= |input|
    ensures Scan(InHand(leftover + input, unread), []).Settled?
  {
    hide Scan;
    ScanStable(leftover, input[..|input| - |unread|], []);
    assert InHand(leftover + input, unread) == leftover + input[..|input| - |unread|];
  }

  lemma NotEmpty(c: Chunk)
    ensures EncodeChunk(c) != []
  {}

  lemma WithinLimit(d: bytes)
    ensures Decode(d).Ok? ==> |Decode(d).value| <= MAX_RESPONSE_BODY
  {
    hide Scan;
    if Decode(d).Ok? {
      AcceptedIffEncoded(d, Decode(d).value);
    }
  }
}
