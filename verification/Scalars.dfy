/**
 * Text as scalar values, and the octets of each by arithmetic (section 3 of
 * RFC 3629).  What the scan calls well-formed are exactly the concatenations of
 * these encodings, and what it calls an unfinished character is exactly a proper
 * beginning of one.
 */
module Scalars {
  import opened Bytes
  import opened Utf8

  predicate IsScalar(c: nat) {
    c < 0xD800 || 0xE000 <= c <= 0x10FFFF
  }

  /** One to four octets, six bits in each but the first. */
  function Encoded(c: nat): (s: bytes)
    requires IsScalar(c)
    ensures 1 <= |s| <= 4
  {
    if c < 0x80 then [ByteOf(c)]
    else if c < 0x800 then [ByteOf(0xC0 + c / 64), ByteOf(0x80 + c % 64)]
    else if c < 0x10000 then [ByteOf(0xE0 + c / 4096), ByteOf(0x80 + c / 64 % 64), ByteOf(0x80 + c % 64)]
    else [ByteOf(0xF0 + c / 262144), ByteOf(0x80 + c / 4096 % 64), ByteOf(0x80 + c / 64 % 64), ByteOf(0x80 + c % 64)]
  }

  predicate AllScalars(cs: seq<nat>) {
    forall c | c in cs :: IsScalar(c)
  }

  function EncodedText(cs: seq<nat>): bytes
    requires AllScalars(cs)
  {
    if cs == [] then [] else Encoded(cs[0]) + EncodedText(cs[1..])
  }

  // ----- Octets as numbers -----

  lemma Order(a: byte, b: byte)
    ensures a <= b <==> ByteValue(a) <= ByteValue(b)
    ensures a == b <==> ByteValue(a) == ByteValue(b)
  {}

  lemma LeadByValue(b: byte)
    ensures var v := ByteValue(b);
            Width(b) == if v < 0x80 then 1 else if v < 0xC2 then 0 else if v < 0xE0 then 2 else if v < 0xF0 then 3
                        else if v < 0xF5 then 4 else 0
  {}

  lemma SecondByValue(lead: byte, b: byte)
    ensures var l, v := ByteValue(lead), ByteValue(b);
            SecondFits(lead, b) <==>
              && (if l == 0xE0 then 0xA0 else if l == 0xF0 then 0x90 else 0x80) <= v
              && v <= if l == 0xED then 0x9F else if l == 0xF4 then 0x8F else 0xBF
  {}

  lemma ContinuationByValue(b: byte)
    ensures IsContinuation(b) <==> 0x80 <= ByteValue(b) < 0xC0
  {}

  /** What begins with a character, by the values of its octets. */
  lemma CharByValues(s: bytes)
    ensures StartsWithChar(s) <==>
              && s != []
              && var n := Width(s[0]);
              && 1 <= n <= |s|
              && (n >= 2 ==> SecondFits(s[0], s[1]))
              && (n >= 3 ==> IsContinuation(s[2]))
              && (n >= 4 ==> IsContinuation(s[3]))
  {
    if StartsWithChar(s) {
      var n := Width(s[0]);
      assert n >= 2 ==> Fits(s, 1);
      assert n >= 3 ==> Fits(s, 2);
      assert n >= 4 ==> Fits(s, 3);
    }
  }

  /** Octet `i` of an encoding has the value that the arithmetic says. */
  lemma EncodedValues(c: nat)
    requires IsScalar(c)
    ensures var s := Encoded(c);
            match |s|
            case 1 => c < 0x80 && ByteValue(s[0]) == c
            case 2 => 0x80 <= c < 0x800 && ByteValue(s[0]) == 0xC0 + c / 64 && ByteValue(s[1]) == 0x80 + c % 64
            case 3 =>
              && 0x800 <= c < 0x10000 && ByteValue(s[0]) == 0xE0 + c / 4096
              && ByteValue(s[1]) == 0x80 + c / 64 % 64 && ByteValue(s[2]) == 0x80 + c % 64
            case _ =>
              && 0x10000 <= c && ByteValue(s[0]) == 0xF0 + c / 262144 && ByteValue(s[1]) == 0x80 + c / 4096 % 64
              && ByteValue(s[2]) == 0x80 + c / 64 % 64 && ByteValue(s[3]) == 0x80 + c % 64
  {
    hide ByteOf, ByteValue;
    if c < 0x80 {
      ByteValueOf(c);
    } else {
      ByteValueOf(0x80 + c % 64);
      if c < 0x800 {
        ByteValueOf(0xC0 + c / 64);
      } else {
        ByteValueOf(0x80 + c / 64 % 64);
        if c < 0x10000 {
          ByteValueOf(0xE0 + c / 4096);
        } else {
          ByteValueOf(0xF0 + c / 262144);
          ByteValueOf(0x80 + c / 4096 % 64);
        }
      }
    }
  }

  /** An encoding, whatever follows it, begins with a character of just its octets. */
  lemma EncodedIsChar(c: nat, rest: bytes)
    requires IsScalar(c)
    ensures var s := Encoded(c) + rest;
            StartsWithChar(s) && Width(s[0]) == |Encoded(c)| && s[..Width(s[0])] == Encoded(c) && s[Width(s[0])..] == rest
  {
    hide ByteOf, ByteValue, Width, SecondFits, IsContinuation, Encoded, StartsWithChar;
    var e := Encoded(c);
    var s := e + rest;
    EncodedValues(c);
    LeadByValue(e[0]);
    CharByValues(s);
    if |e| >= 2 { SecondByValue(e[0], e[1]); }
    if |e| >= 3 { ContinuationByValue(e[2]); }
    if |e| >= 4 { ContinuationByValue(e[3]); }
    assert s[0] == e[0] && s[..|e|] == e && s[|e|..] == rest;
  }

  lemma SixBits(high: nat, low: nat)
    requires low < 64
    ensures (high * 64 + low) / 64 == high && (high * 64 + low) % 64 == low
  {}

  lemma TwelveBits(high: nat, x: nat, low: nat)
    requires x < 64 && low < 64
    ensures var c := high * 4096 + x * 64 + low; c / 4096 == high && c / 64 % 64 == x && c % 64 == low
  {
    SixBits(high * 64 + x, low);
    SixBits(high, x);
    assert (high * 4096 + x * 64 + low) / 4096 == (high * 64 + x) / 64;
  }

  lemma EighteenBits(high: nat, x: nat, y: nat, low: nat)
    requires x < 64 && y < 64 && low < 64
    ensures var c := high * 262144 + x * 4096 + y * 64 + low;
            c / 262144 == high && c / 4096 % 64 == x && c / 64 % 64 == y && c % 64 == low
  {
    TwelveBits(high * 64 + x, y, low);
    SixBits(high, x);
    assert (high * 262144 + x * 4096 + y * 64 + low) / 262144 == (high * 64 + x) / 64;
  }

  /** The scalar value whose encoding a text begins with. */
  lemma CharIsEncoded(s: bytes) returns (c: nat)
    requires StartsWithChar(s)
    ensures 1 <= Width(s[0]) <= |s| && IsScalar(c) && Encoded(c) == s[..Width(s[0])]
  {
    hide ByteOf, ByteValue, Width, SecondFits, IsContinuation, StartsWithChar, Encoded;
    CharByValues(s);
    LeadByValue(s[0]);
    var n := Width(s[0]);
    if n == 1 {
      c := ByteValue(s[0]);
      OneOctet(s[0]);
      assert s[..1] == [s[0]];
      return;
    }
    SecondByValue(s[0], s[1]);
    if n == 2 {
      c := TwoOctets(s[0], s[1]);
      assert s[..2] == [s[0], s[1]];
      return;
    }
    ContinuationByValue(s[2]);
    if n == 3 {
      c := ThreeOctets(s[0], s[1], s[2]);
      assert s[..3] == [s[0], s[1], s[2]];
      return;
    }
    ContinuationByValue(s[3]);
    c := FourOctets(s[0], s[1], s[2], s[3]);
    assert s[..4] == [s[0], s[1], s[2], s[3]];
  }

  lemma OneOctet(a: byte)
    ensures ByteValue(a) < 0x80 ==> Encoded(ByteValue(a)) == [a]
  {
    ByteOfValue(a);
  }

  lemma TwoOctets(a: byte, b: byte) returns (c: nat)
    requires 0xC2 <= ByteValue(a) < 0xE0 && 0x80 <= ByteValue(b) < 0xC0
    ensures IsScalar(c) && Encoded(c) == [a, b]
  {
    hide ByteOf, ByteValue;
    c := (ByteValue(a) - 0xC0) * 64 + (ByteValue(b) - 0x80);
    SixBits(ByteValue(a) - 0xC0, ByteValue(b) - 0x80);
    ByteOfValue(a);
    ByteOfValue(b);
  }

  lemma ThreeOctets(a: byte, b: byte, d: byte) returns (c: nat)
    requires 0xE0 <= ByteValue(a) < 0xF0 && 0x80 <= ByteValue(b) < 0xC0 && 0x80 <= ByteValue(d) < 0xC0
    requires ByteValue(a) == 0xE0 ==> ByteValue(b) >= 0xA0
    requires ByteValue(a) == 0xED ==> ByteValue(b) < 0xA0
    ensures IsScalar(c) && Encoded(c) == [a, b, d]
  {
    hide ByteOf, ByteValue;
    c := (ByteValue(a) - 0xE0) * 4096 + (ByteValue(b) - 0x80) * 64 + (ByteValue(d) - 0x80);
    TwelveBits(ByteValue(a) - 0xE0, ByteValue(b) - 0x80, ByteValue(d) - 0x80);
    ByteOfValue(a);
    ByteOfValue(b);
    ByteOfValue(d);
  }

  lemma FourOctets(a: byte, b: byte, d: byte, e: byte) returns (c: nat)
    requires 0xF0 <= ByteValue(a) < 0xF5 && 0x80 <= ByteValue(b) < 0xC0
    requires 0x80 <= ByteValue(d) < 0xC0 && 0x80 <= ByteValue(e) < 0xC0
    requires ByteValue(a) == 0xF0 ==> ByteValue(b) >= 0x90
    requires ByteValue(a) == 0xF4 ==> ByteValue(b) < 0x90
    ensures IsScalar(c) && Encoded(c) == [a, b, d, e]
  {
    hide ByteOf, ByteValue;
    c := (ByteValue(a) - 0xF0) * 262144 + (ByteValue(b) - 0x80) * 4096 + (ByteValue(d) - 0x80) * 64 + (ByteValue(e) - 0x80);
    EighteenBits(ByteValue(a) - 0xF0, ByteValue(b) - 0x80, ByteValue(d) - 0x80, ByteValue(e) - 0x80);
    ByteOfValue(a);
    ByteOfValue(b);
    ByteOfValue(d);
    ByteOfValue(e);
  }

  // ----- Well-formed text -----

  lemma {:induction false} EncodedTextIsValid(cs: seq<nat>)
    requires AllScalars(cs)
    ensures Valid(EncodedText(cs))
  {
    hide Encoded, StartsWithChar, Width;
    if cs != [] {
      EncodedIsChar(cs[0], EncodedText(cs[1..]));
      EncodedTextIsValid(cs[1..]);
    }
  }

  lemma {:induction false} ValidIsEncodedText(s: bytes) returns (cs: seq<nat>)
    requires Valid(s)
    ensures AllScalars(cs) && s == EncodedText(cs)
    decreases |s|
  {
    hide Encoded, StartsWithChar, Width;
    if s == [] {
      cs := [];
    } else {
      var c := CharIsEncoded(s);
      var rest := ValidIsEncodedText(s[Width(s[0])..]);
      cs := [c] + rest;
      assert cs[1..] == rest;
    }
  }

  lemma {:induction false} EncodedSnoc(cs: seq<nat>, c: nat)
    requires AllScalars(cs) && IsScalar(c)
    ensures AllScalars(cs + [c]) && EncodedText(cs + [c]) == EncodedText(cs) + Encoded(c)
  {
    hide Encoded;
    if cs == [] {
      assert [c][1..] == [] && cs + [c] == [c];
    } else {
      assert (cs + [c])[1..] == cs[1..] + [c];
      assert forall d | d in cs[1..] :: d in cs;
      EncodedSnoc(cs[1..], c);
    }
  }

  /** Well-formed UTF-8 is the encoding of a sequence of scalar values, and nothing else is. */
  lemma ValidIffEncoded(s: bytes)
    ensures Valid(s) <==> exists cs | AllScalars(cs) :: s == EncodedText(cs)
  {
    hide Valid;
    if Valid(s) {
      var cs := ValidIsEncodedText(s);
    } else {
      forall cs | AllScalars(cs) ensures s != EncodedText(cs) {
        EncodedTextIsValid(cs);
      }
    }
  }

  // ----- Unfinished characters -----

  /** A proper beginning of some character. */
  ghost predicate Begins(p: bytes) {
    p != [] && exists c | IsScalar(c) :: |p| < |Encoded(c)| && p == Encoded(c)[..|p|]
  }

  lemma PartialByValues(s: bytes)
    requires s != []
    ensures var n := Width(s[0]);
            IsPartial(s) <==>
              && |s| < n
              && (|s| >= 2 ==> SecondFits(s[0], s[1]))
              && (|s| >= 3 ==> IsContinuation(s[2]))
  {
    if IsPartial(s) {
      assert |s| >= 2 ==> Fits(s, 1);
      assert |s| >= 3 ==> Fits(s, 2);
    }
  }

  /** Some octets that complete an unfinished character. */
  function Completion(s: bytes): bytes
    requires s != [] && |s| < Width(s[0])
  {
    var second: byte := if s[0] == 0xE0 then 0xA0 else if s[0] == 0xF0 then 0x90 else 0x80;
    if |s| == 1 then [second] + seq(Width(s[0]) - 2, _ => 0x80) else seq(Width(s[0]) - |s|, _ => 0x80)
  }

  lemma CompletedIsChar(s: bytes)
    requires IsPartial(s)
    ensures StartsWithChar(s + Completion(s)) && Width((s + Completion(s))[0]) == |s + Completion(s)|
  {
    var t := s + Completion(s);
    forall i | 1 <= i < |s| ensures Fits(t, i) {
      assert Fits(s, i);
    }
  }

  /** What the scan takes for an unfinished character is a proper beginning of one, and conversely. */
  lemma PartialIffBegins(s: bytes)
    ensures IsPartial(s) <==> Begins(s)
  {
    hide IsPartial, StartsWithChar, Width, Encoded, Completion;
    if IsPartial(s) {
      PartialIsShort(s);
      CompletedIsChar(s);
      var t := s + Completion(s);
      var c := CharIsEncoded(t);
      assert t[..|t|] == t && t[..|s|] == s;
    }
    if Begins(s) {
      var c :| IsScalar(c) && |s| < |Encoded(c)| && s == Encoded(c)[..|s|];
      EncodedIsChar(c, []);
      BeginningIsPartial(Encoded(c) + [], s);
    }
  }

  lemma PartialIsShort(s: bytes)
    requires IsPartial(s)
    ensures s != [] && |s| < Width(s[0]) && |Completion(s)| == Width(s[0]) - |s|
  {}

  lemma BeginningIsPartial(t: bytes, s: bytes)
    requires StartsWithChar(t) && s != [] && |s| < Width(t[0]) <= |t| && s <= t
    ensures IsPartial(s)
  {
    CharByValues(t);
    PartialByValues(s);
  }

  /** The invalid part the scan reports: the longest beginning of a character, or a single octet. */
  lemma BadIsLongestBeginning(s: bytes)
    requires s != [] && !StartsWithChar(s)
    ensures BadLen(s) == 1 || Begins(s[..BadLen(s)])
    ensures forall k | BadLen(s) < k <= |s| :: !Begins(s[..k])
  {
    hide Begins;
    PartialIffBegins(s[..BadLen(s)]);
    PartialByValues(s[..BadLen(s)]);
    CharByValues(s);
    forall k | BadLen(s) < k <= |s| ensures !Begins(s[..k]) {
      PartialIffBegins(s[..k]);
      PartialByValues(s[..k]);
    }
  }
}
