/**
 * Payload masking (section 5.3 of RFC 6455): the byte-at-a-time definition,
 * and the aligned 128-bit implementation that must agree with it.
 */
module Masking {
  import opened Bytes

  // ----- Combining a sequence with a repeating four-element key -----
  // Stated for any element type, so that sequence reasoning stays free of bit-vectors.

  function Cycle<T>(f: (T, T) -> T, s: seq<T>, key: seq<T>): (r: seq<T>)
    requires |key| == 4
    ensures |r| == |s|
  {
    seq(|s|, i requires 0 <= i < |s| => f(s[i], key[i % 4]))
  }

  function Turned<T>(key: seq<T>, k: nat): (r: seq<T>)
    requires |key| == 4
    ensures |r| == 4
  {
    key[k % 4..] + key[..k % 4]
  }

  /** A slice of the combined sequence uses the key turned by the slice's position. */
  lemma CycleSlice<T>(f: (T, T) -> T, s: seq<T>, key: seq<T>, at: nat, to: nat)
    requires |key| == 4 && at <= to <= |s|
    ensures Cycle(f, s, key)[at..to] == Cycle(f, s[at..to], Turned(key, at))
  {
    forall k | 0 <= k < to - at
      ensures key[(at + k) % 4] == Turned(key, at)[k % 4]
    {
      TurnedAt(key, at, k);
    }
  }

  lemma TurnedSame<T>(key: seq<T>, at: nat, align: nat)
    requires |key| == 4 && align <= at && (at - align) % 16 == 0
    ensures Turned(key, at) == Turned(key, align)
  {
    assert at % 4 == align % 4;
  }

  lemma TurnedAt<T>(key: seq<T>, at: nat, k: nat)
    requires |key| == 4
    ensures key[(at + k) % 4] == Turned(key, at)[k % 4]
  {
    assert (at + k) % 4 == (at % 4 + k % 4) % 4;
  }

  /** Extends the finished prefix of an in-place pass by the `n` elements just written. */
  lemma Advance<T>(was: seq<T>, want: seq<T>, before: seq<T>, after: seq<T>, i: nat, n: nat)
    requires |was| == |want| == |before| == |after| && i + n <= |was|
    requires before[..i] == want[..i] && before[i..] == was[i..]
    requires after[..i] == before[..i] && after[i + n..] == before[i + n..]
    requires after[i..i + n] == want[i..i + n]
    ensures after[..i + n] == want[..i + n] && after[i + n..] == was[i + n..]
  {
    assert after[..i + n] == after[..i] + after[i..i + n];
    assert want[..i + n] == want[..i] + want[i..i + n];
    assert before[i + n..] == before[i..][n..] == was[i..][n..];
  }

  lemma SliceOfTails<T>(a: seq<T>, b: seq<T>, i: nat, n: nat)
    requires i + n <= |a| && i + n <= |b| && a[i..] == b[i..]
    ensures a[i..i + n] == b[i..i + n]
  {
    assert a[i..i + n] == a[i..][..n];
    assert b[i..i + n] == b[i..][..n];
  }

  datatype Quad<T> = Quad(a: T, b: T, c: T, d: T) {
    function Items(): (s: seq<T>)
      ensures |s| == 4
    {
      [a, b, c, d]
    }
  }

  datatype Chunk<T> = Chunk(p: Quad<T>, q: Quad<T>, r: Quad<T>, s: Quad<T>) {
    function Items(): (s: seq<T>)
      ensures |s| == 16
    {
      p.Items() + q.Items() + r.Items() + s.Items()
    }
  }

  function QuadAt<T>(s: seq<T>, i: nat): Quad<T>
    requires i + 4 <= |s|
  {
    Quad(s[i], s[i + 1], s[i + 2], s[i + 3])
  }

  function ChunkAt<T>(s: seq<T>, i: nat): Chunk<T>
    requires i + 16 <= |s|
  {
    Chunk(QuadAt(s, i), QuadAt(s, i + 4), QuadAt(s, i + 8), QuadAt(s, i + 12))
  }

  function ZipQuad<T>(f: (T, T) -> T, q: Quad<T>, key: Quad<T>): Quad<T> {
    Quad(f(q.a, key.a), f(q.b, key.b), f(q.c, key.c), f(q.d, key.d))
  }

  function ZipChunk<T>(f: (T, T) -> T, x: Chunk<T>, key: Quad<T>): Chunk<T> {
    Chunk(ZipQuad(f, x.p, key), ZipQuad(f, x.q, key), ZipQuad(f, x.r, key), ZipQuad(f, x.s, key))
  }

  lemma ZipChunkIsCycle<T>(f: (T, T) -> T, s: seq<T>, at: nat, key: Quad<T>)
    requires at + 16 <= |s|
    ensures ZipChunk(f, ChunkAt(s, at), key).Items() == Cycle(f, s[at..at + 16], key.Items())
  {}

  // ----- Masking, octet by octet -----

  const XOR: (byte, byte) -> byte := (a, b) => a ^ b

  /** Octet `i` of the payload is XORed with octet `i` modulo 4 of the key. */
  function Masked(s: bytes, mask: bytes): (r: bytes)
    requires |mask| == 4
    ensures |r| == |s|
  {
    Cycle(XOR, s, mask)
  }

  lemma XorCancels(a: byte, b: byte)
    ensures XOR(XOR(a, b), b) == a
  {}

  lemma MaskedInvolution(s: bytes, mask: bytes)
    requires |mask| == 4
    ensures Masked(Masked(s, mask), mask) == s
  {
    forall i | 0 <= i < |s|
      ensures Masked(Masked(s, mask), mask)[i] == s[i]
    {
      XorCancels(s[i], mask[i % 4]);
    }
  }

  // ----- Machine words -----

  /** The 32-bit word whose octets are, from the least significant, `a`, `b`, `c`, `d`. */
  function Word(a: byte, b: byte, c: byte, d: byte): bv32 {
    (a as bv32) | ((b as bv32) << 8) | ((c as bv32) << 16) | ((d as bv32) << 24)
  }

  function Octets(w: bv32): Quad<byte> {
    Quad((w & 0xFF) as byte, ((w >> 8) & 0xFF) as byte, ((w >> 16) & 0xFF) as byte, ((w >> 24) & 0xFF) as byte)
  }

  function Xor32(v: bv32, w: bv32): bv32 { v ^ w }

  function Xor128(v: bv128, w: bv128): bv128 { v ^ w }

  function Wide(a: bv32, b: bv32, c: bv32, d: bv32): bv128 {
    (a as bv128) | ((b as bv128) << 32) | ((c as bv128) << 64) | ((d as bv128) << 96)
  }

  function Parts(w: bv128): Quad<bv32> {
    Quad((w & 0xFFFF_FFFF) as bv32, ((w >> 32) & 0xFFFF_FFFF) as bv32,
         ((w >> 64) & 0xFFFF_FFFF) as bv32, ((w >> 96) & 0xFFFF_FFFF) as bv32)
  }

  /** `u32::from_ne_bytes` and `u32::to_ne_bytes`, for either byte order. */
  function FromBytes32(q: Quad<byte>, little: bool): bv32 {
    if little then Word(q.a, q.b, q.c, q.d) else Word(q.d, q.c, q.b, q.a)
  }

  function ToBytes32(w: bv32, little: bool): Quad<byte> {
    var q := Octets(w);
    if little then q else Quad(q.d, q.c, q.b, q.a)
  }

  /** `u128::from_ne_bytes` and `u128::to_ne_bytes`. */
  function FromBytes128(x: Chunk<byte>, little: bool): bv128 {
    var k := Words(x, little);
    Wide(k.a, k.b, k.c, k.d)
  }

  /** The four words of a chunk, least significant first. */
  function Words(x: Chunk<byte>, little: bool): Quad<bv32> {
    var p, q := FromBytes32(x.p, little), FromBytes32(x.q, little);
    var r, s := FromBytes32(x.r, little), FromBytes32(x.s, little);
    if little then Quad(p, q, r, s) else Quad(s, r, q, p)
  }

  function ToBytes128(w: bv128, little: bool): Chunk<byte> {
    var v := Parts(w);
    var p, q := ToBytes32(v.a, little), ToBytes32(v.b, little);
    var r, s := ToBytes32(v.c, little), ToBytes32(v.d, little);
    if little then Chunk(p, q, r, s) else Chunk(s, r, q, p)
  }

  /** The key rotated by `k` octets: right on little-endian machines, left on big-endian ones. */
  function Rotated(w: bv32, k: nat, little: bool): bv32
    requires k < 4
  {
    if little then
      (if k == 0 then w.RotateRight(0) else if k == 1 then w.RotateRight(8)
       else if k == 2 then w.RotateRight(16) else w.RotateRight(24))
    else
      (if k == 0 then w.RotateLeft(0) else if k == 1 then w.RotateLeft(8)
       else if k == 2 then w.RotateLeft(16) else w.RotateLeft(24))
  }

  lemma OctetsOfWord(a: byte, b: byte, c: byte, d: byte)
    ensures Octets(Word(a, b, c, d)) == Quad(a, b, c, d)
  {}

  lemma PartsOfWide(a: bv32, b: bv32, c: bv32, d: bv32)
    ensures Parts(Wide(a, b, c, d)) == Quad(a, b, c, d)
  {}

  lemma OctetsXor(v: bv32, w: bv32)
    ensures Octets(Xor32(v, w)) == ZipQuad(XOR, Octets(v), Octets(w))
  {}

  lemma PartsXor(v: bv128, w: bv128)
    ensures var p, q := Parts(v), Parts(w);
            Parts(Xor128(v, w)) == Quad(Xor32(p.a, q.a), Xor32(p.b, q.b), Xor32(p.c, q.c), Xor32(p.d, q.d))
  {
    hide Parts;
    PartsXorBits(v, w);
  }

  lemma PartsXorBits(v: bv128, w: bv128)
    ensures Parts(v ^ w).a == Parts(v).a ^ Parts(w).a
    ensures Parts(v ^ w).b == Parts(v).b ^ Parts(w).b
    ensures Parts(v ^ w).c == Parts(v).c ^ Parts(w).c
    ensures Parts(v ^ w).d == Parts(v).d ^ Parts(w).d
  {}

  lemma RotateRightWord(a: byte, b: byte, c: byte, d: byte)
    ensures Word(a, b, c, d).RotateRight(8) == Word(b, c, d, a)
    ensures Word(a, b, c, d).RotateRight(16) == Word(c, d, a, b)
  {}

  lemma RotateLeftWord(a: byte, b: byte, c: byte, d: byte)
    ensures Word(a, b, c, d).RotateLeft(8) == Word(d, a, b, c)
    ensures Word(a, b, c, d).RotateLeft(16) == Word(c, d, a, b)
  {}

  lemma RotateWordEnds(a: byte, b: byte, c: byte, d: byte)
    ensures Word(a, b, c, d).RotateRight(24) == Word(d, a, b, c)
    ensures Word(a, b, c, d).RotateLeft(24) == Word(b, c, d, a)
    ensures Word(a, b, c, d).RotateRight(0) == Word(a, b, c, d) == Word(a, b, c, d).RotateLeft(0)
  {}

  lemma TurnedItems<T>(a: T, b: T, c: T, d: T)
    ensures Turned([a, b, c, d], 0) == [a, b, c, d]
    ensures Turned([a, b, c, d], 1) == [b, c, d, a]
    ensures Turned([a, b, c, d], 2) == [c, d, a, b]
    ensures Turned([a, b, c, d], 3) == [d, a, b, c]
  {}

  /** In memory order, rotating the key by `k` octets turns it by `k` positions. */
  lemma RotatedKey(q: Quad<byte>, k: nat, little: bool)
    requires k < 4
    ensures ToBytes32(Rotated(FromBytes32(q, little), k, little), little).Items() == Turned(q.Items(), k)
  {
    if little {
      RotatedKeyLittle(q.a, q.b, q.c, q.d, k);
    } else {
      RotatedKeyBig(q.a, q.b, q.c, q.d, k);
    }
  }

  lemma RotatedKeyLittle(a: byte, b: byte, c: byte, d: byte, k: nat)
    requires k < 4
    ensures Octets(Rotated(Word(a, b, c, d), k, true)).Items() == Turned([a, b, c, d], k)
  {
    hide Word, Octets;
    TurnedItems(a, b, c, d);
    RotateRightWord(a, b, c, d);
    RotateWordEnds(a, b, c, d);
    OctetsOfWord(a, b, c, d);
    OctetsOfWord(b, c, d, a);
    OctetsOfWord(c, d, a, b);
    OctetsOfWord(d, a, b, c);
  }

  lemma RotatedKeyBig(a: byte, b: byte, c: byte, d: byte, k: nat)
    requires k < 4
    ensures ToBytes32(Rotated(Word(d, c, b, a), k, false), false).Items() == Turned([a, b, c, d], k)
  {
    hide Word, Octets;
    TurnedItems(a, b, c, d);
    RotateLeftWord(d, c, b, a);
    RotateWordEnds(d, c, b, a);
    OctetsOfWord(d, c, b, a);
    OctetsOfWord(a, d, c, b);
    OctetsOfWord(b, a, d, c);
    OctetsOfWord(c, b, a, d);
  }

  /** One 4-octet lane of the wide XOR. */
  lemma LaneXor(q: Quad<byte>, r: bv32, little: bool)
    ensures ToBytes32(Xor32(FromBytes32(q, little), r), little) == ZipQuad(XOR, q, ToBytes32(r, little))
  {
    hide Word, Octets, Xor32;
    OctetsXor(FromBytes32(q, little), r);
    OctetsOfWord(q.a, q.b, q.c, q.d);
    OctetsOfWord(q.d, q.c, q.b, q.a);
  }

  /** A 16-octet chunk XORed as one number is XORed octet by octet. */
  lemma ChunkXor(x: Chunk<byte>, r: bv32, little: bool)
    ensures ToBytes128(Xor128(FromBytes128(x, little), Wide(r, r, r, r)), little) == ZipChunk(XOR, x, ToBytes32(r, little))
  {
    hide Wide, Parts, FromBytes32, ToBytes32, ZipQuad, Xor32, Xor128;
    var k := Words(x, little);
    PartsOfWide(r, r, r, r);
    PartsOfWide(k.a, k.b, k.c, k.d);
    PartsXor(FromBytes128(x, little), Wide(r, r, r, r));
    LaneXor(x.p, r, little);
    LaneXor(x.q, r, little);
    LaneXor(x.r, r, little);
    LaneXor(x.s, r, little);
  }

  /**
   * `apply_mask`: an unaligned head, a body in 16-octet steps with the rotated
   * key, and a tail.  `offset` is the distance from the start of the slice to
   * the next 16-octet boundary; `little` is the machine's byte order.
   */
  method ApplyMask(buf: array<byte>, mask: bytes, offset: nat, little: bool)
    requires |mask| == 4
    modifies buf
    ensures buf[..] == Masked(old(buf[..]), mask)
  {
    hide Masked, ToBytes32;
    ghost var was := buf[..];
    var align := Min(offset, buf.Length);
    MaskHead(buf, mask, align);
    var rotated, turned := RotateKey(mask, align, little);
    var body := MaskChunks(buf, was, mask, align, rotated, little);
    MaskTail(buf, was, mask, align, body, turned);
  }

  /** The octets before the boundary, one at a time. */
  method MaskHead(buf: array<byte>, mask: bytes, align: nat)
    requires |mask| == 4 && align <= buf.Length
    modifies buf
    ensures buf[..align] == Masked(old(buf[..]), mask)[..align] && buf[align..] == old(buf[align..])
  {
    ghost var was, want := buf[..], Masked(buf[..], mask);
    var i := 0;
    while i < align
      invariant 0 <= i <= align
      invariant buf[..i] == want[..i] && buf[i..] == was[i..]
    {
      ghost var before := buf[..];
      assert buf[i] == buf[i..][0] == was[i];
      buf[i] := XOR(buf[i], mask[i % 4]);
      Advance(was, want, before, buf[..], i, 1);
      i := i + 1;
    }
  }

  /** The octets behind the last whole chunk, one at a time, with the key turned as for the first chunk. */
  method MaskTail(buf: array<byte>, ghost was: bytes, mask: bytes, align: nat, body: nat, turned: bytes)
    requires |mask| == 4 && align <= body <= buf.Length == |was| && (body - align) % 16 == 0
    requires turned == Turned(mask, align)
    requires buf[..body] == Masked(was, mask)[..body] && buf[body..] == was[body..]
    modifies buf
    ensures buf[..] == Masked(was, mask)
  {
    ghost var want := Masked(was, mask);
    var i, t := body, 0;
    while i < buf.Length
      invariant body <= i <= buf.Length && t == i - body
      invariant buf[..i] == want[..i] && buf[i..] == was[i..]
    {
      ghost var before := buf[..];
      assert before[i] == before[i..][0] == was[i];
      TurnedSame(mask, body, align);
      TurnedAt(mask, body, t);
      buf[i] := XOR(buf[i], turned[t % 4]);
      Advance(was, want, before, buf[..], i, 1);
      i, t := i + 1, t + 1;
    }
    assert buf[..] == buf[..i];
  }

  /** The wide loop: 16 octets at a time from `align`, as long as 16 remain. */
  method MaskChunks(buf: array<byte>, ghost was: bytes, mask: bytes, align: nat, rotated: bv32, little: bool) returns (i: nat)
    requires |mask| == 4 && align <= buf.Length == |was|
    requires ToBytes32(rotated, little).Items() == Turned(mask, align)
    requires buf[..align] == Masked(was, mask)[..align] && buf[align..] == was[align..]
    modifies buf
    ensures align <= i <= buf.Length < i + 16 && (i - align) % 16 == 0
    ensures buf[..i] == Masked(was, mask)[..i] && buf[i..] == was[i..]
  {
    hide Octets, ToBytes32, Masked;
    i := align;
    while buf.Length - i >= 16
      invariant align <= i <= buf.Length && (i - align) % 16 == 0
      invariant buf[..i] == Masked(was, mask)[..i] && buf[i..] == was[i..]
    {
      TurnedSame(mask, i, align);
      MaskChunk(buf, was, mask, i, rotated, little);
      i := i + 16;
    }
  }

  /** One chunk of it, with the key turned as for its first octet. */
  method MaskChunk(buf: array<byte>, ghost was: bytes, mask: bytes, i: nat, rotated: bv32, little: bool)
    requires |mask| == 4 && i + 16 <= buf.Length == |was|
    requires ToBytes32(rotated, little).Items() == Turned(mask, i)
    requires buf[..i] == Masked(was, mask)[..i] && buf[i..] == was[i..]
    modifies buf
    ensures buf[..i + 16] == Masked(was, mask)[..i + 16] && buf[i + 16..] == was[i + 16..]
  {
    hide Octets, ToBytes32;
    ghost var before := buf[..];
    SliceOfTails(before, was, i, 16);
    CycleSlice(XOR, was, mask, i, i + 16);
    XorChunk(buf, i, rotated, little);
    Advance(was, Masked(was, mask), before, buf[..], i, 16);
  }

  /** The rotated key as a word, and its octets in memory order. */
  method RotateKey(mask: bytes, align: nat, little: bool) returns (rotated: bv32, turned: bytes)
    requires |mask| == 4
    ensures turned == ToBytes32(rotated, little).Items() == Turned(mask, align)
  {
    hide Word, Octets, Rotated, FromBytes32, ToBytes32;
    rotated := Rotated(FromBytes32(QuadAt(mask, 0), little), align % 4, little);
    turned := ToBytes32(rotated, little).Items();
    RotatedKey(QuadAt(mask, 0), align % 4, little);
    assert QuadAt(mask, 0).Items() == mask;
  }

  /** One step of the wide loop. */
  method XorChunk(buf: array<byte>, at: nat, rotated: bv32, little: bool)
    requires at + 16 <= buf.Length
    modifies buf
    ensures buf[..at] == old(buf[..at]) && buf[at + 16..] == old(buf[at + 16..])
    ensures buf[at..at + 16] == Cycle(XOR, old(buf[at..at + 16]), ToBytes32(rotated, little).Items())
  {
    hide Word, Octets, ToBytes32, FromBytes32, ToBytes128, FromBytes128, Wide, Parts, Xor128;
    ghost var was := buf[..];
    var x := ChunkAt(buf[..], at);
    var wide := Wide(rotated, rotated, rotated, rotated);
    var out := ToBytes128(Xor128(FromBytes128(x, little), wide), little).Items();
    ChunkXor(x, rotated, little);
    ZipChunkIsCycle(XOR, was, at, ToBytes32(rotated, little));
    forall k | 0 <= k < 16 {
      buf[at + k] := out[k];
    }
    assert buf[at..at + 16] == out;
  }
}
