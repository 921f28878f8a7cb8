/** Octets, the result types shared by every module, and big-endian numbers. */
module Bytes {
  type byte = bv8
  type bytes = seq<byte>

  datatype Option<+T> = None | Some(value: T)

  datatype Result<+T, +E> = Ok(value: T) | Err(error: E)

  /** One more than `usize::MAX` on a 64-bit machine. */
  const USIZE_LIMIT: nat := 0x1_0000_0000_0000_0000

  function Min(a: int, b: int): int { if a <= b then a else b }

  function Max(a: int, b: int): int { if a >= b then a else b }

  lemma Associate<T>(a: seq<T>, b: seq<T>, c: seq<T>)
    ensures (a + b) + c == a + (b + c)
  {}

  /** Concatenation of the parts in order. */
  function Concat<T>(parts: seq<seq<T>>): seq<T> {
    if parts == [] then [] else parts[0] + Concat(parts[1..])
  }

  lemma {:induction false} ConcatSnoc<T>(parts: seq<seq<T>>, last: seq<T>)
    ensures Concat(parts + [last]) == Concat(parts) + last
  {
    if parts == [] {
      assert parts + [last] == [last];
    } else {
      assert (parts + [last])[1..] == parts[1..] + [last];
      ConcatSnoc(parts[1..], last);
    }
  }

  lemma {:induction false} ConcatAppend<T>(xs: seq<seq<T>>, ys: seq<seq<T>>)
    ensures Concat(xs + ys) == Concat(xs) + Concat(ys)
  {
    if xs == [] {
      assert xs + ys == ys;
    } else {
      assert (xs + ys)[1..] == xs[1..] + ys;
      ConcatAppend(xs[1..], ys);
    }
  }

  function ByteValue(b: byte): (n: nat)
    ensures n < 256
  {
    b as int
  }

  function ByteOf(n: nat): byte
    requires n < 256
  {
    n as bv8
  }

  lemma ByteOfValue(b: byte)
    ensures ByteOf(ByteValue(b)) == b
  {}

  lemma ByteValueOf(n: nat)
    requires n < 256
    ensures ByteValue(ByteOf(n)) == n
  {
    OctetRoundTrip(n);
  }

  /** The octet reached by counting up to `n`. */
  ghost function Counted(n: nat): (b: byte)
    requires n < 256
    ensures b as int == n
  {
    if n == 0 then 0 else Counted(n - 1) + 1
  }

  lemma OctetRoundTrip(n: nat)
    requires n < 256
    ensures (n as bv8) as int == n
  {
    BackFromInt(Counted(n));
  }

  lemma BackFromInt(b: byte)
    ensures (b as int) as bv8 == b
  {}

  function Pow256(k: nat): (p: nat)
    ensures p > 0
  {
    if k == 0 then 1 else 256 * Pow256(k - 1)
  }

  /** `from_be_bytes`: most significant octet first. */
  function FromBigEndian(s: bytes): (n: nat)
    ensures n < Pow256(|s|)
  {
    if s == [] then 0
    else FromBigEndian(s[..|s| - 1]) * 256 + ByteValue(s[|s| - 1])
  }

  /** `to_be_bytes` of a number that fits in `width` octets. */
  function BigEndian(n: nat, width: nat): (s: bytes)
    requires n < Pow256(width)
    ensures |s| == width
  {
    if width == 0 then [] else BigEndian(n / 256, width - 1) + [ByteOf(n % 256)]
  }

  lemma {:induction false} FromBigEndianInverts(n: nat, width: nat)
    requires n < Pow256(width)
    ensures FromBigEndian(BigEndian(n, width)) == n
  {
    if width > 0 {
      var s := BigEndian(n, width);
      hide ByteOf, ByteValue;
      FromBigEndianInverts(n / 256, width - 1);
      assert s[..|s| - 1] == BigEndian(n / 256, width - 1);
      ByteValueOf(n % 256);
    }
  }

  lemma SplitByte(high: nat, low: nat)
    requires low < 256
    ensures (high * 256 + low) / 256 == high && (high * 256 + low) % 256 == low
  {}

  lemma BigEndianSnoc(high: nat, low: byte, width: nat)
    requires high < Pow256(width)
    ensures high * 256 + ByteValue(low) < Pow256(width + 1)
    ensures BigEndian(high * 256 + ByteValue(low), width + 1) == BigEndian(high, width) + [low]
  {
    hide ByteOf, ByteValue;
    SplitByte(high, ByteValue(low));
    ByteOfValue(low);
  }

  lemma {:induction false} BigEndianInverts(s: bytes)
    ensures BigEndian(FromBigEndian(s), |s|) == s
  {
    if s != [] {
      hide ByteOf, ByteValue, BigEndian;
      var front, last := s[..|s| - 1], s[|s| - 1];
      BigEndianInverts(front);
      BigEndianSnoc(FromBigEndian(front), last, |front|);
      assert s == front + [last];
    }
  }
}
