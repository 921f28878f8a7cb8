/**
 * Size lines of a chunked body, by tables: which lines give which size, with the
 * digits of both cases, the white space characters and the extensions written out.
 */
module SizeLines {
  import opened Bytes
  import opened Scalars
  import C = Chunked
  import Utf8

  // "0123456789abcdef" and "0123456789ABCDEF"
  const LOWER: bytes := [48, 49, 50, 51, 52, 53, 54, 55, 56, 57, 97, 98, 99, 100, 101, 102]
  const UPPER: bytes := [48, 49, 50, 51, 52, 53, 54, 55, 56, 57, 65, 66, 67, 68, 69, 70]

  predicate IsDigitOf(b: byte, d: nat) {
    d < 16 && (b == LOWER[d] || b == UPPER[d])
  }

  /** The digits, each in either case, write `n` to base 16. */
  predicate Spells(ds: bytes, n: nat) {
    if ds == [] then n == 0 else IsDigitOf(ds[|ds| - 1], n % 16) && Spells(ds[..|ds| - 1], n / 16)
  }

  /** The characters with the property White_Space. */
  predicate IsWhite(c: nat) {
    || 9 <= c <= 13 || c == 32 || c == 0x85 || c == 0xA0 || c == 0x1680 || 0x2000 <= c <= 0x200A
    || c == 0x2028 || c == 0x2029 || c == 0x202F || c == 0x205F || c == 0x3000
  }

  predicate AllWhite(cs: seq<nat>) {
    forall c | c in cs :: IsWhite(c)
  }

  /** White space, perhaps a plus sign, digits, white space, perhaps a semicolon and anything. */
  predicate Written(line: bytes, n: nat, before: seq<nat>, sign: bytes, ds: bytes, after: seq<nat>, ext: bytes) {
    && AllScalars(before) && AllWhite(before) && AllScalars(after) && AllWhite(after)
    && (sign == [] || sign == [43]) && ds != [] && Spells(ds, n) && (ext == [] || ext[0] == 59)
    && line == EncodedText(before) + (sign + ds) + EncodedText(after) + ext
  }

  ghost predicate IsSizeLine(line: bytes, n: nat) {
    exists before, sign, ds, after, ext :: Written(line, n, before, sign, ds, after, ext)
  }

  // ----- Digits -----

  lemma DigitByValue(b: byte)
    ensures var v := ByteValue(b);
            C.HexDigit(b) == if 48 <= v <= 57 then Some(v - 48) else if 97 <= v <= 102 then Some(v - 87)
                             else if 65 <= v <= 70 then Some(v - 55) else None
  {}

  lemma TableByValue(d: nat)
    requires d < 16
    ensures ByteValue(LOWER[d]) == (if d < 10 then 48 + d else 87 + d)
    ensures ByteValue(UPPER[d]) == (if d < 10 then 48 + d else 55 + d)
  {}

  lemma DigitByTable(b: byte, d: nat)
    ensures C.HexDigit(b) == Some(d) <==> IsDigitOf(b, d)
  {
    hide ByteValue, C.HexDigit;
    DigitByValue(b);
    if d < 16 {
      TableByValue(d);
      Order(b, LOWER[d]);
      Order(b, UPPER[d]);
    }
  }

  lemma Nibble(high: nat, low: nat, n: nat)
    requires low < 16
    ensures high * 16 + low == n <==> high == n / 16 && low == n % 16
  {}

  lemma {:induction false} ValueIffSpells(ds: bytes, n: nat)
    ensures C.HexValue(ds) == Some(n) <==> Spells(ds, n)
    decreases |ds|
  {
    hide C.HexDigit, IsDigitOf;
    if ds != [] {
      var front, last := ds[..|ds| - 1], ds[|ds| - 1];
      DigitByTable(last, n % 16);
      ValueIffSpells(front, n / 16);
      if C.HexValue(front).Some? && C.HexDigit(last).Some? {
        Nibble(C.HexValue(front).value, C.HexDigit(last).value, n);
      }
    }
  }

  // ----- White space -----

  lemma WideByValues(s: bytes)
    requires |s| == 2 || |s| == 3
    ensures C.WideSpace(s) <==>
            var a, b := ByteValue(s[0]), ByteValue(s[1]);
            if |s| == 2 then a == 0xC2 && (b == 0x85 || b == 0xA0)
            else
              var d := ByteValue(s[2]);
              || (a == 0xE1 && b == 0x9A && d == 0x80)
              || (a == 0xE2 && b == 0x80 && (0x80 <= d <= 0x8A || d == 0xA8 || d == 0xA9 || d == 0xAF))
              || (a == 0xE2 && b == 0x81 && d == 0x9F)
              || (a == 0xE3 && b == 0x80 && d == 0x80)
  {}

  lemma AsciiByValue(b: byte)
    ensures C.AsciiSpace(b) <==> 9 <= ByteValue(b) <= 13 || ByteValue(b) == 32
    ensures b == 59 <==> ByteValue(b) == 59
  {}

  /** The octets that the trimming looks for are those of the white space characters. */
  lemma WhiteOctets(c: nat)
    requires IsScalar(c) && IsWhite(c)
    ensures var s := Encoded(c);
            && (|s| == 1 ==> C.AsciiSpace(s[0])) && (|s| > 1 ==> |s| <= 3 && C.WideSpace(s))
            && 59 !in s
  {
    hide Encoded, C.WideSpace, C.AsciiSpace, ByteValue;
    var s := Encoded(c);
    EncodedValues(c);
    AsciiByValue(s[0]);
    if |s| > 1 {
      AsciiByValue(s[1]);
      if |s| > 2 { AsciiByValue(s[2]); }
      WideByValues(s);
    }
  }

  lemma OctetsAreWhite(s: bytes) returns (c: nat)
    requires (|s| == 1 && C.AsciiSpace(s[0])) || ((|s| == 2 || |s| == 3) && C.WideSpace(s))
    ensures IsScalar(c) && IsWhite(c) && Encoded(c) == s
  {
    hide Encoded, C.WideSpace, C.AsciiSpace, ByteValue;
    AsciiByValue(s[0]);
    if |s| == 1 {
      c := ByteValue(s[0]);
      OneOctet(s[0]);
    } else {
      WideByValues(s);
      if |s| == 2 {
        c := TwoOctets(s[0], s[1]);
        assert s == [s[0], s[1]];
      } else {
        c := ThreeOctets(s[0], s[1], s[2]);
        assert s == [s[0], s[1], s[2]];
      }
      EncodedValues(c);
    }
  }

  /** White space in front is trimmed whole. */
  lemma {:induction false} WhiteBefore(cs: seq<nat>, t: bytes)
    requires AllScalars(cs) && AllWhite(cs)
    ensures C.TrimStart(EncodedText(cs) + t) == C.TrimStart(t)
    ensures 59 !in EncodedText(cs)
  {
    hide Encoded, IsWhite, C.LeadingSpace;
    if cs == [] {
      assert EncodedText(cs) + t == t;
    } else {
      assert cs[0] in cs;
      var e, rest := Encoded(cs[0]), EncodedText(cs[1..]);
      WhiteLeads(cs[0], rest + t);
      assert EncodedText(cs) + t == e + (rest + t) && (e + (rest + t))[|e|..] == rest + t;
      WhiteOctets(cs[0]);
      WhiteBefore(cs[1..], t);
    }
  }

  lemma WhiteLeads(c: nat, t: bytes)
    requires IsScalar(c) && IsWhite(c)
    ensures C.LeadingSpace(Encoded(c) + t) == |Encoded(c)|
  {
    hide Encoded, IsWhite, C.WideSpace, C.AsciiSpace;
    var e := Encoded(c);
    var s := e + t;
    WhiteOctets(c);
    assert s[..|e|] == e && s[0] == e[0];
    if |e| > 1 {
      WideIsHigh(e);
      if |e| == 3 { assert s[..2] == e[..2]; WideIsPrefixFree(e); }
    }
  }

  lemma WideIsHigh(e: bytes)
    requires |e| == 2 || |e| == 3
    ensures C.WideSpace(e) ==> !C.AsciiSpace(e[0]) && !C.AsciiSpace(e[|e| - 1])
  {}

  lemma WideIsPrefixFree(e: bytes)
    requires |e| == 3
    ensures C.WideSpace(e) ==> !C.WideSpace(e[..2]) && !C.WideSpace(e[1..])
  {}

  /** White space behind is trimmed whole. */
  lemma {:induction false} WhiteAfter(t: bytes, cs: seq<nat>)
    requires AllScalars(cs) && AllWhite(cs)
    ensures C.TrimEnd(t + EncodedText(cs)) == C.TrimEnd(t)
    decreases |cs|
  {
    hide Encoded, IsWhite, C.TrailingSpace;
    if cs == [] {
      assert t + EncodedText(cs) == t;
    } else {
      var front, last := cs[..|cs| - 1], cs[|cs| - 1];
      assert last in cs && cs == front + [last];
      EncodedSnoc(front, last);
      var s := t + EncodedText(front);
      assert t + EncodedText(cs) == s + Encoded(last) && (s + Encoded(last))[..|s|] == s;
      WhiteTrails(s, last);
      WhiteAfter(t, front);
    }
  }

  lemma WhiteTrails(t: bytes, c: nat)
    requires IsScalar(c) && IsWhite(c)
    ensures C.TrailingSpace(t + Encoded(c)) == |Encoded(c)|
  {
    hide Encoded, IsWhite, C.WideSpace, C.AsciiSpace;
    var e := Encoded(c);
    var s := t + e;
    WhiteOctets(c);
    assert s[|s| - |e|..] == e && s[|s| - 1] == e[|e| - 1];
    if |e| > 1 {
      WideIsHigh(e);
      if |e| == 3 { assert s[|s| - 2..] == e[1..]; WideIsPrefixFree(e); }
    }
  }

  lemma WhiteCons(c: nat, cs: seq<nat>)
    requires IsScalar(c) && IsWhite(c) && AllScalars(cs) && AllWhite(cs)
    ensures AllScalars([c] + cs) && AllWhite([c] + cs) && EncodedText([c] + cs) == Encoded(c) + EncodedText(cs)
  {
    hide Encoded, IsWhite, IsScalar;
    assert ([c] + cs)[1..] == cs;
  }

  /** What is trimmed is white space, and what is left begins and ends without. */
  lemma {:induction false} TrimmedBefore(t: bytes) returns (cs: seq<nat>)
    ensures AllScalars(cs) && AllWhite(cs) && t == EncodedText(cs) + C.TrimStart(t)
    ensures C.LeadingSpace(C.TrimStart(t)) == 0
    decreases |t|
  {
    hide Encoded, IsWhite, C.LeadingSpace, IsScalar;
    var n := C.LeadingSpace(t);
    if n == 0 {
      cs := [];
      assert t == [] + t;
    } else {
      var c := LeadingIsWhite(t);
      var more := TrimmedBefore(t[n..]);
      cs := [c] + more;
      WhiteCons(c, more);
      Rejoin(t, n, Encoded(c), EncodedText(more), C.TrimStart(t[n..]));
    }
  }

  lemma Rejoin(t: bytes, n: nat, head: bytes, middle: bytes, rest: bytes)
    requires n <= |t| && head == t[..n] && t[n..] == middle + rest
    ensures t == (head + middle) + rest
  {
    assert t == t[..n] + t[n..];
  }

  lemma LeadingIsWhite(t: bytes) returns (c: nat)
    requires C.LeadingSpace(t) > 0
    ensures IsScalar(c) && IsWhite(c) && Encoded(c) == t[..C.LeadingSpace(t)]
  {
    hide Encoded, IsWhite, C.WideSpace, C.AsciiSpace;
    c := OctetsAreWhite(t[..C.LeadingSpace(t)]);
  }

  lemma {:induction false} TrimmedAfter(t: bytes) returns (cs: seq<nat>)
    ensures AllScalars(cs) && AllWhite(cs) && t == C.TrimEnd(t) + EncodedText(cs)
    decreases |t|
  {
    hide Encoded, IsWhite, C.TrailingSpace;
    var n := C.TrailingSpace(t);
    if n == 0 {
      cs := [];
      assert t == t + [];
    } else {
      var c := TrailingIsWhite(t);
      var more := TrimmedAfter(t[..|t| - n]);
      cs := more + [c];
      EncodedSnoc(more, c);
      assert t == t[..|t| - n] + t[|t| - n..];
    }
  }

  lemma TrailingIsWhite(t: bytes) returns (c: nat)
    requires C.TrailingSpace(t) > 0
    ensures IsScalar(c) && IsWhite(c) && Encoded(c) == t[|t| - C.TrailingSpace(t)..]
  {
    hide Encoded, IsWhite, C.WideSpace, C.AsciiSpace;
    var n := C.TrailingSpace(t);
    var s := t[|t| - n..];
    assert n == 1 ==> s[0] == t[|t| - 1];
    c := OctetsAreWhite(s);
  }

  // ----- The whole line -----

  lemma {:induction false} CutOff(s: bytes) returns (ext: bytes)
    ensures s == C.UntilSemicolon(s) + ext && 59 !in C.UntilSemicolon(s) && (ext == [] || ext[0] == 59)
  {
    if s == [] {
      ext := [];
    } else if s[0] == 59 {
      ext := s;
      assert [] + s == s;
    } else {
      ext := CutOff(s[1..]);
      assert s == [s[0]] + s[1..];
    }
  }

  predicate Plain(b: byte) {
    48 <= b <= 57 || 65 <= b <= 70 || 97 <= b <= 102
  }

  lemma DigitsArePlain(ds: bytes, n: nat)
    requires Spells(ds, n)
    ensures forall b | b in ds :: Plain(b)
  {
    if ds != [] {
      var front, last := ds[..|ds| - 1], ds[|ds| - 1];
      DigitsArePlain(front, n / 16);
      DigitIsPlain(last, n % 16);
      assert ds == front + [last];
    }
  }

  lemma DigitIsPlain(b: byte, d: nat)
    requires IsDigitOf(b, d)
    ensures Plain(b)
  {}

  /** White space on both sides of what holds none at its ends is trimmed. */
  lemma TrimsToCore(before: seq<nat>, core: bytes, after: seq<nat>)
    requires AllScalars(before) && AllWhite(before) && AllScalars(after) && AllWhite(after) && core != []
    requires core[0] <= 0x7F && !C.AsciiSpace(core[0])
    requires core[|core| - 1] <= 0x7F && !C.AsciiSpace(core[|core| - 1])
    ensures C.TrimEnd(C.TrimStart(EncodedText(before) + core + EncodedText(after))) == core
  {
    hide IsWhite, C.TrimStart, C.TrimEnd, EncodedText, C.AsciiSpace;
    var a, b := EncodedText(before), EncodedText(after);
    assert a + core + b == a + (core + b) && (core + b)[0] == core[0];
    WhiteBefore(before, core + b);
    Untrimmed(core + b);
    WhiteAfter(core, after);
    Untrimmed(core);
  }

  lemma PlainIsNoSpace(b: byte)
    requires Plain(b) || b == 43
    ensures b <= 0x7F && !C.AsciiSpace(b) && b != 59 && (Plain(b) ==> b != 43)
  {}

  /** A size line reads as its size. */
  lemma SizeLineReads(line: bytes, n: nat)
    requires IsSizeLine(line, n) && Utf8.Valid(line)
    ensures C.ChunkSize(line) == if n < USIZE_LIMIT then Some(n) else None
  {
    hide IsWhite, Spells, C.HexValue, C.TrimStart, C.TrimEnd, C.UntilSemicolon, Utf8.Valid, EncodedText, Plain, C.AsciiSpace;
    var before, sign, ds, after, ext :| Written(line, n, before, sign, ds, after, ext);
    var core, a, b := sign + ds, EncodedText(before), EncodedText(after);
    DigitsArePlain(ds, n);
    WhiteBefore(before, []);
    WhiteBefore(after, []);
    assert ds[0] in ds && ds[|ds| - 1] in ds && ds[|ds| - 1] == core[|core| - 1];
    PlainIsNoSpace(ds[0]);
    PlainIsNoSpace(ds[|ds| - 1]);
    PlainIsNoSpace(43);
    assert 59 !in a + core + b by { NoSemicolon(ds); }
    C.CutAtSemicolon(a + core + b, ext);
    TrimsToCore(before, core, after);
    ValueIffSpells(ds, n);
    assert core[|sign|..] == ds;
  }

  lemma NoSemicolon(ds: bytes)
    requires forall b | b in ds :: Plain(b)
    ensures 59 !in ds
  {
    hide Plain;
    if 59 in ds { PlainIsNoSpace(59); }
  }

  lemma Untrimmed(s: bytes)
    requires s != []
    ensures s[0] <= 0x7F && !C.AsciiSpace(s[0]) ==> C.TrimStart(s) == s
    ensures s[|s| - 1] <= 0x7F && !C.AsciiSpace(s[|s| - 1]) ==> C.TrimEnd(s) == s
  {
    C.NothingToTrim(s);
  }

  /** Only a size line has a size, and only the one it spells. */
  lemma SizedIsSizeLine(line: bytes, n: nat)
    requires C.ChunkSize(line) == Some(n)
    ensures IsSizeLine(line, n) && Utf8.Valid(line) && n < USIZE_LIMIT
  {
    hide Encoded, IsWhite, Spells, C.HexValue, C.TrimStart, C.TrimEnd, C.UntilSemicolon, Utf8.Valid;
    var u := C.UntilSemicolon(line);
    var ext := CutOff(line);
    var before := TrimmedBefore(u);
    var t := C.TrimStart(u);
    var after := TrimmedAfter(t);
    var core := C.TrimEnd(t);
    var sign: bytes, ds := if core[0] == 43 then [43] else [], if core[0] == 43 then core[1..] else core;
    ValueIffSpells(ds, n);
    assert core == sign + ds;
    assert Written(line, n, before, sign, ds, after, ext);
  }

  /** The size of a line is `n` if and only if the line writes it so, in well-formed text and 64 bits. */
  lemma SizeIffLine(line: bytes, n: nat)
    ensures C.ChunkSize(line) == Some(n) <==> IsSizeLine(line, n) && Utf8.Valid(line) && n < 0x1_0000_0000_0000_0000
  {
    hide IsSizeLine, C.ChunkSize;
    if IsSizeLine(line, n) && Utf8.Valid(line) { SizeLineReads(line, n); }
    if C.ChunkSize(line) == Some(n) { SizedIsSizeLine(line, n); }
  }

  // ----- Spellings -----

  /** The digits of `n`, the one at place `k` from the right in upper case if `upper(k)`. */
  function Spelled(n: nat, upper: nat -> bool, place: nat): (ds: bytes)
    ensures ds != []
  {
    var digit := [if upper(place) then UPPER[n % 16] else LOWER[n % 16]];
    if n < 16 then digit else Spelled(n / 16, upper, place + 1) + digit
  }

  lemma {:induction false} SpelledSpells(n: nat, upper: nat -> bool, place: nat)
    ensures Spells(Spelled(n, upper, place), n)
    decreases n
  {
    hide IsDigitOf;
    var ds := Spelled(n, upper, place);
    TablesHold(n % 16);
    if n < 16 {
      assert ds[..0] == [];
    } else {
      SpelledSpells(n / 16, upper, place + 1);
      assert ds[..|ds| - 1] == Spelled(n / 16, upper, place + 1);
    }
  }

  lemma TablesHold(d: nat)
    requires d < 16
    ensures IsDigitOf(LOWER[d], d) && IsDigitOf(UPPER[d], d)
  {}

  /** Every size is read from its digits, whichever of them are in upper case. */
  lemma SpelledReads(n: nat, upper: nat -> bool)
    requires n < 0x1_0000_0000_0000_0000
    ensures C.ChunkSize(Spelled(n, upper, 0)) == Some(n)
  {
    hide Spelled, Spells;
    var ds := Spelled(n, upper, 0);
    SpelledSpells(n, upper, 0);
    DigitsArePlain(ds, n);
    C.AsciiIsValid(ds);
    assert ds == [] + ([] + ds) + [] + [];
    assert Written(ds, n, [], [], ds, [], []);
    SizeLineReads(ds, n);
  }

  /** A line of ASCII without extension that holds anything but digits, white space and a plus sign is malformed. */
  lemma StrayOctet(line: bytes, b: byte)
    requires b in line && 59 !in line && b <= 0x7F && !Plain(b) && b != 43 && !C.AsciiSpace(b)
    ensures C.ChunkSize(line) == None
  {
    hide Encoded, IsWhite, C.ChunkSize, Spells, EncodedText;
    if C.ChunkSize(line).Some? {
      var n := C.ChunkSize(line).value;
      SizedIsSizeLine(line, n);
      var before, sign, ds, after, ext :| Written(line, n, before, sign, ds, after, ext);
      DigitsArePlain(ds, n);
      WhiteHolds(before);
      WhiteHolds(after);
    }
  }

  lemma {:induction false} WhiteHolds(cs: seq<nat>)
    requires AllScalars(cs) && AllWhite(cs)
    ensures forall b | b in EncodedText(cs) :: C.AsciiSpace(b) || b > 0x7F
  {
    hide Encoded, IsWhite, C.AsciiSpace;
    if cs != [] {
      assert cs[0] in cs;
      WhiteOctets(cs[0]);
      WideOctetsAreHigh(Encoded(cs[0]));
      WhiteHolds(cs[1..]);
    }
  }

  lemma WideOctetsAreHigh(s: bytes)
    ensures C.WideSpace(s) ==> forall b | b in s :: b > 0x7F
  {}

  /** A size in any spelling and its data are a chunk. */
  lemma SpelledChunk(data: bytes, upper: nat -> bool)
    requires data != [] && |data| < 0x1_0000_0000_0000_0000
    ensures C.ChunkOk(C.Chunk(Spelled(|data|, upper, 0), data))
  {
    hide Spelled, Spells, Plain, C.ChunkSize, C.IsLine;
    var ds := Spelled(|data|, upper, 0);
    SpelledReads(|data|, upper);
    SpelledSpells(|data|, upper, 0);
    DigitsArePlain(ds, |data|);
    PlainIsLine(ds);
  }

  lemma PlainIsLine(ds: bytes)
    requires forall b | b in ds :: Plain(b)
    ensures C.IsLine(ds)
  {
    forall i ensures !C.CrlfAt(ds + [C.CR], i) {
      if 0 <= i < |ds| { assert (ds + [C.CR])[i] in ds; }
    }
  }

  /** Its ten octets announced by an upper-case digit, and the end of the body. */
  lemma UpperCaseBody()
    ensures C.Decode([65, 13, 10, 48, 49, 50, 51, 52, 53, 54, 55, 56, 57, 13, 10, 48, 13, 10, 13, 10])
         == Ok([48, 49, 50, 51, 52, 53, 54, 55, 56, 57])
  {
    hide C.ChunkOk, C.ChunkSize, C.Decode, Spelled, C.LastOk, C.Encode, C.Data;
    var data: bytes := [48, 49, 50, 51, 52, 53, 54, 55, 56, 57];
    TenIsA();
    SpelledChunk(data, _ => true);
    ZeroIsLast();
    var c := C.Chunk([65], data);
    OneChunk(c);
    var d: bytes := [65, 13, 10, 48, 49, 50, 51, 52, 53, 54, 55, 56, 57, 13, 10, 48, 13, 10, 13, 10];
    assert d == C.Encode([c]) + ([48] + C.CRLF + C.CRLF);
    assert C.IsBody(d, data);
    C.AcceptedIffEncoded(d, data);
  }

  lemma OneChunk(c: C.Chunk)
    requires C.ChunkOk(c)
    ensures C.ChunksOk([c]) && C.Encode([c]) == c.line + C.CRLF + c.data + C.CRLF && C.Data([c]) == c.data
  {
    assert [c][1..] == [];
  }

  lemma TenIsA()
    ensures Spelled(10, _ => true, 0) == [65] && Spelled(0, _ => true, 0) == [48]
  {}

  lemma ZeroIsLast()
    ensures C.LastOk([48])
  {
    hide C.ChunkSize;
    TenIsA();
    SpelledReads(0, _ => true);
  }
}
