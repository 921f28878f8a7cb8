/**
 * The order of the keys in a saved state: comparing strings by their characters is
 * comparing their UTF-8 octets, as the program's sort does.
 */
module KeyOrder {
  import opened Bytes
  import opened Scalars
  import StateFile

  /** A string as its scalar values. */
  function Codes(s: string): (cs: seq<nat>)
    ensures AllScalars(cs)
  {
    if s == "" then [] else [s[0] as nat] + Codes(s[1..])
  }

  /** Octet by octet, a beginning before what it begins. */
  predicate Before(a: bytes, b: bytes) {
    b != [] && (a == [] || ByteValue(a[0]) < ByteValue(b[0]) || (a[0] == b[0] && Before(a[1..], b[1..])))
  }

  lemma {:induction false} BeforeIsStrict(a: bytes, b: bytes)
    ensures !(Before(a, b) && Before(b, a))
  {
    if a != [] && b != [] {
      BeforeIsStrict(a[1..], b[1..]);
    }
  }

  lemma {:induction false} SameBeginning(p: bytes, a: bytes, b: bytes)
    ensures Before(p + a, p + b) <==> Before(a, b)
  {
    if p == [] {
      assert p + a == a && p + b == b;
    } else {
      assert (p + a)[1..] == p[1..] + a && (p + b)[1..] == p[1..] + b;
      SameBeginning(p[1..], a, b);
    }
  }

  /** Two texts that agree up to an octet are in the order of that octet. */
  lemma DifferAt(a: bytes, b: bytes, i: nat)
    requires i < |a| && i < |b| && a[..i] == b[..i] && ByteValue(a[i]) < ByteValue(b[i])
    ensures Before(a, b)
  {
    assert a == a[..i] + a[i..] && b == a[..i] + b[i..];
    SameBeginning(a[..i], a[i..], b[i..]);
  }

  /** Larger numbers have larger high digits, or the same and a larger low digit. */
  lemma SixBitsInOrder(c: nat, d: nat)
    requires c < d
    ensures c / 64 <= d / 64 && (c / 64 == d / 64 ==> c % 64 < d % 64)
  {}

  lemma TwelveBitsInOrder(c: nat, d: nat)
    requires c < d
    ensures c / 4096 <= d / 4096
    ensures c / 4096 == d / 4096 ==> c / 64 % 64 < d / 64 % 64 || (c / 64 % 64 == d / 64 % 64 && c % 64 < d % 64)
  {
    SixBitsInOrder(c, d);
    HighDigits(c);
    HighDigits(d);
    if c / 64 < d / 64 {
      SixBitsInOrder(c / 64, d / 64);
    }
  }

  lemma EighteenBitsInOrder(c: nat, d: nat)
    requires c < d
    ensures c / 262144 <= d / 262144
    ensures c / 262144 == d / 262144 ==>
              || c / 4096 % 64 < d / 4096 % 64
              || (c / 4096 % 64 == d / 4096 % 64
                  && (c / 64 % 64 < d / 64 % 64 || (c / 64 % 64 == d / 64 % 64 && c % 64 < d % 64)))
  {
    TwelveBitsInOrder(c, d);
    HighDigits(c);
    HighDigits(d);
    if c / 4096 < d / 4096 {
      SixBitsInOrder(c / 4096, d / 4096);
    }
  }

  lemma HighDigits(c: nat)
    ensures c / 64 / 64 == c / 4096 && c / 4096 / 64 == c / 262144
  {}

  /** Encodings of different scalar values differ in an octet, in the order of the values. */
  lemma EncodingsInOrder(c: nat, d: nat) returns (i: nat)
    requires IsScalar(c) && IsScalar(d) && c < d
    ensures i < |Encoded(c)| && i < |Encoded(d)| && Encoded(c)[..i] == Encoded(d)[..i]
    ensures ByteValue(Encoded(c)[i]) < ByteValue(Encoded(d)[i])
  {
    hide Encoded, ByteValue;
    var s, t := Encoded(c), Encoded(d);
    EncodedValues(c);
    EncodedValues(d);
    if |s| == |t| {
      i := FirstDifference(c, d);
    } else {
      i := 0;
      LeadsInOrder(c, d);
    }
  }

  lemma LeadsInOrder(c: nat, d: nat)
    requires IsScalar(c) && IsScalar(d) && c < d && |Encoded(c)| != |Encoded(d)|
    ensures ByteValue(Encoded(c)[0]) < ByteValue(Encoded(d)[0])
  {
    hide Encoded, ByteValue;
    EncodedValues(c);
    EncodedValues(d);
  }

  lemma FirstDifference(c: nat, d: nat) returns (i: nat)
    requires IsScalar(c) && IsScalar(d) && c < d && |Encoded(c)| == |Encoded(d)|
    ensures i < |Encoded(c)| && Encoded(c)[..i] == Encoded(d)[..i]
    ensures ByteValue(Encoded(c)[i]) < ByteValue(Encoded(d)[i])
  {
    hide Encoded, ByteValue, IsScalar;
    var s, t := Encoded(c), Encoded(d);
    i := FirstValue(c, d);
    forall k | 0 <= k < i ensures s[k] == t[k] {
      Order(s[k], t[k]);
    }
  }

  lemma FirstValue(c: nat, d: nat) returns (i: nat)
    requires IsScalar(c) && IsScalar(d) && c < d && |Encoded(c)| == |Encoded(d)|
    ensures i < |Encoded(c)| && ByteValue(Encoded(c)[i]) < ByteValue(Encoded(d)[i])
    ensures forall k | 0 <= k < i :: ByteValue(Encoded(c)[k]) == ByteValue(Encoded(d)[k])
  {
    hide Encoded, ByteValue, IsScalar;
    EncodedValues(c);
    EncodedValues(d);
    var n := |Encoded(c)|;
    if n == 1 {
      i := 0;
    } else if n == 2 {
      SixBitsInOrder(c, d);
      i := if c / 64 < d / 64 then 0 else 1;
    } else if n == 3 {
      TwelveBitsInOrder(c, d);
      i := if c / 4096 < d / 4096 then 0 else if c / 64 % 64 < d / 64 % 64 then 1 else 2;
    } else {
      EighteenBitsInOrder(c, d);
      i := if c / 262144 < d / 262144 then 0 else if c / 4096 % 64 < d / 4096 % 64 then 1
           else if c / 64 % 64 < d / 64 % 64 then 2 else 3;
    }
  }

  /** The order of strings is the order of their octets. */
  lemma {:induction false} LessIsByOctets(a: string, b: string)
    ensures StateFile.Less(a, b) <==> Before(EncodedText(Codes(a)), EncodedText(Codes(b)))
    decreases |a|
  {
    hide Encoded, Before;
    if a == "" || b == "" {
      NothingIsFirst(a, b);
    } else {
      var c, d := a[0] as nat, b[0] as nat;
      var x, y := EncodedText(Codes(a[1..])), EncodedText(Codes(b[1..]));
      FirstCode(a);
      FirstCode(b);
      if c < d {
        LeastFirst(c, x, d, y);
      } else if d < c {
        LeastFirst(d, y, c, x);
        BeforeIsStrict(Encoded(c) + x, Encoded(d) + y);
      } else {
        SameBeginning(Encoded(c), x, y);
        LessIsByOctets(a[1..], b[1..]);
      }
    }
  }

  lemma LeastFirst(c: nat, x: bytes, d: nat, y: bytes)
    requires IsScalar(c) && IsScalar(d) && c < d
    ensures Before(Encoded(c) + x, Encoded(d) + y)
  {
    hide Encoded, Before, ByteValue;
    var i := EncodingsInOrder(c, d);
    var s, t := Encoded(c) + x, Encoded(d) + y;
    assert s[..i] == Encoded(c)[..i] && t[..i] == Encoded(d)[..i];
    DifferAt(s, t, i);
  }

  lemma FirstCode(s: string)
    requires s != ""
    ensures Codes(s) == [s[0] as nat] + Codes(s[1..]) && IsScalar(s[0] as nat)
    ensures EncodedText(Codes(s)) == Encoded(s[0] as nat) + EncodedText(Codes(s[1..]))
  {
    assert Codes(s)[1..] == Codes(s[1..]);
  }

  lemma NothingIsFirst(a: string, b: string)
    requires a == "" || b == ""
    ensures StateFile.Less(a, b) <==> Before(EncodedText(Codes(a)), EncodedText(Codes(b)))
  {
    if b != "" { FirstCode(b); }
  }
}
