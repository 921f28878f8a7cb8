/**
 * UTF-8 well-formedness (section 4 of RFC 3629) and the scan that
 * `str::from_utf8` and `slice::utf8_chunks` perform: the longest valid prefix
 * followed by the longest piece that could still have begun a character.
 */
module Utf8 {
  import opened Bytes

  predicate IsContinuation(b: byte) {
    0x80 <= b <= 0xBF
  }

  /** Number of octets announced by a leading octet; 0 when it cannot lead. */
  function Width(b: byte): (w: nat)
    ensures w <= 4
  {
    if b <= 0x7F then 1
    else if 0xC2 <= b <= 0xDF then 2
    else if 0xE0 <= b <= 0xEF then 3
    else if 0xF0 <= b <= 0xF4 then 4
    else 0
  }

  /** The second octet's range depends on the leading octet (no overlong forms, no surrogates). */
  predicate SecondFits(lead: byte, b: byte) {
    if lead == 0xE0 then 0xA0 <= b <= 0xBF
    else if lead == 0xED then 0x80 <= b <= 0x9F
    else if lead == 0xF0 then 0x90 <= b <= 0xBF
    else if lead == 0xF4 then 0x80 <= b <= 0x8F
    else IsContinuation(b)
  }

  /** Octet `i` of `s` is allowed at position `i` of the character that `s[0]` leads. */
  predicate Fits(s: bytes, i: nat)
    requires 0 < i < |s|
  {
    if i == 1 then SecondFits(s[0], s[1]) else IsContinuation(s[i])
  }

  predicate StartsWithChar(s: bytes) {
    && s != []
    && 0 < Width(s[0]) <= |s|
    && forall i | 1 <= i < Width(s[0]) :: Fits(s, i)
  }

  /** Well-formed UTF-8: a sequence of characters. */
  predicate Valid(s: bytes)
    decreases |s|
  {
    s == [] || (StartsWithChar(s) && Valid(s[Width(s[0])..]))
  }

  /** Length of the longest valid prefix (`Utf8Chunk::valid`). */
  function ValidUpTo(s: bytes): (n: nat)
    ensures n <= |s|
    decreases |s|
  {
    if StartsWithChar(s) then Width(s[0]) + ValidUpTo(s[Width(s[0])..]) else 0
  }

  /** Length of the invalid part that follows the valid prefix (`Utf8Chunk::invalid`). */
  function BadLen(s: bytes): (n: nat)
    requires s != [] && !StartsWithChar(s)
    ensures 1 <= n <= |s| && n <= 3
  {
    if Width(s[0]) < 2 || |s| < 2 || !SecondFits(s[0], s[1]) then 1
    else if |s| < 3 || !IsContinuation(s[2]) then 2
    else 3
  }

  /** A nonempty proper beginning of some character. */
  predicate IsPartial(s: bytes) {
    && s != []
    && |s| < Width(s[0])
    && forall i | 1 <= i < |s| :: Fits(s, i)
  }

  /** What is left after the longest valid prefix. */
  function Rest(s: bytes): (r: bytes) {
    s[ValidUpTo(s)..]
  }

  /** `s` can be extended to well-formed text. */
  predicate Viable(s: bytes) {
    Rest(s) == [] || IsPartial(Rest(s))
  }

  lemma {:induction false} RestHasNoChar(s: bytes)
    ensures !StartsWithChar(Rest(s))
    ensures Valid(s[..ValidUpTo(s)])
    decreases |s|
  {
    if StartsWithChar(s) {
      var w, n := Width(s[0]), ValidUpTo(s[Width(s[0])..]);
      RestHasNoChar(s[w..]);
      SliceBeyond(s, w, n);
      CharPrefix(s, s[..w + n]);
    }
  }

  lemma SliceBeyond<T>(s: seq<T>, w: nat, n: nat)
    requires w + n <= |s|
    ensures s[w..][n..] == s[w + n..] && s[..w + n][w..] == s[w..][..n]
  {}

  /** A leading character is seen in every prefix that contains it. */
  lemma CharPrefix(s: bytes, p: bytes)
    requires StartsWithChar(s) && p <= s && Width(s[0]) <= |p|
    ensures StartsWithChar(p) && p[0] == s[0]
  {
    assert forall i | 1 <= i < Width(s[0]) :: Fits(s, i) ==> Fits(p, i);
  }

  lemma CharExtends(s: bytes, t: bytes)
    requires StartsWithChar(s)
    ensures StartsWithChar(s + t) && (s + t)[0] == s[0]
    ensures (s + t)[Width(s[0])..] == s[Width(s[0])..] + t
  {
    assert forall i | 1 <= i < Width(s[0]) :: Fits(s, i) ==> Fits(s + t, i);
  }

  lemma {:induction false} ValidIffAllScanned(s: bytes)
    ensures Valid(s) <==> ValidUpTo(s) == |s|
    decreases |s|
  {
    if StartsWithChar(s) {
      ValidIffAllScanned(s[Width(s[0])..]);
    }
  }

  /** Scanning resumes after a valid prefix. */
  lemma {:induction false} ScanPastValid(v: bytes, t: bytes)
    requires Valid(v)
    ensures ValidUpTo(v + t) == |v| + ValidUpTo(t)
    ensures Valid(v + t) <==> Valid(t)
    decreases |v|
  {
    if v == [] {
      assert v + t == t;
    } else {
      CharExtends(v, t);
      ScanPastValid(v[Width(v[0])..], t);
    }
  }

  lemma ScanSplits(s: bytes)
    ensures Valid(s[..ValidUpTo(s)]) && s == s[..ValidUpTo(s)] + Rest(s)
    ensures ValidUpTo(Rest(s)) == 0
  {
    RestHasNoChar(s);
  }

  /** Appending to a text scans the same as appending to what its scan left over. */
  lemma ScanResumes(s: bytes, t: bytes)
    ensures ValidUpTo(s + t) == ValidUpTo(s) + ValidUpTo(Rest(s) + t)
    ensures Rest(s + t) == Rest(Rest(s) + t)
    ensures Valid(s + t) <==> Valid(Rest(s) + t)
    ensures Viable(s + t) <==> Viable(Rest(s) + t)
  {
    hide Valid, ValidUpTo, IsPartial;
    var v, r := s[..ValidUpTo(s)], Rest(s);
    ScanSplits(s);
    assert s + t == v + (r + t);
    ScanPastValid(v, r + t);
    var n := ValidUpTo(r + t);
    assert (v + (r + t))[|v| + n..] == (r + t)[n..];
  }

  /** A beginning of viable (in particular, of valid) text is viable. */
  lemma {:induction false} ViablePrefix(s: bytes, t: bytes)
    requires Viable(s + t)
    ensures Viable(s)
    decreases |s|
  {
    if s != [] {
      var whole := s + t;
      var w := Width(whole[0]);
      if StartsWithChar(whole) && w <= |s| {
        CharPrefix(whole, s);
        assert whole[w..] == s[w..] + t;
        SliceBeyond(whole, w, ValidUpTo(whole[w..]));
        ViablePrefix(s[w..], t);
        SliceBeyond(s, w, ValidUpTo(s[w..]));
      } else {
        CutInsideChar(s, t);
      }
    }
  }

  /** The stream stops inside its first character. */
  lemma CutInsideChar(s: bytes, t: bytes)
    requires s != [] && Viable(s + t) && !(StartsWithChar(s + t) && Width(s[0]) <= |s|)
    ensures Viable(s)
  {
    var whole := s + t;
    if StartsWithChar(s) {
      CharExtends(s, t);
      assert false;
    }
    assert StartsWithChar(whole) || Rest(whole) == whole;
    assert forall i | 1 <= i < |s| :: Fits(whole, i) ==> Fits(s, i);
    assert Rest(s) == s;
  }

  lemma ValidIsViable(s: bytes)
    requires Valid(s)
    ensures Viable(s) && Rest(s) == []
  {
    ValidIffAllScanned(s);
  }

  /** A partial character is its own maximal invalid part, and holds at most 3 octets. */
  lemma PartialIsBad(s: bytes)
    requires IsPartial(s)
    ensures !StartsWithChar(s) && |s| <= 3 && BadLen(s) == |s|
  {
    assert |s| >= 2 ==> Fits(s, 1);
    assert |s| >= 3 ==> Fits(s, 2);
  }
}
