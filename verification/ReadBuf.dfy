/**
 * The sliding read buffer: `consumed | pending | spare`.  Its pending octets
 * followed by the stream's unread octets behave as one queue that only
 * `Consume` shortens.
 */
module ReadBuffer {
  import opened Bytes
  import opened Transport

  const MIN_READ_SLICE: nat := 4096
  const MIN_READ_HEADROOM: nat := 512

  datatype FillResult = Filled | AtEof | WouldBlock | IoFailed

  // ----- How much is fetched -----

  /**
   * All that decides how many octets a read fetches: the buffer's cursors and
   * length, and the octets and events the stream has left.
   */
  datatype Intake = Intake(start: nat, end: nat, len: nat, left: nat, plan: seq<ReadEvent>)

  /** One read, retried on interruption. */
  function AfterRead(r: Intake): (a: (Intake, FillResult))
    requires r.end <= r.len
    ensures a.0.start == r.start && a.0.len == r.len && r.end <= a.0.end <= a.0.len
    ensures a.1 == Filled ==> |a.0.plan| < |r.plan|
    decreases |r.plan|
  {
    if r.plan == [] then (r, WouldBlock)
    else
      var next := r.(plan := r.plan[1..]);
      match r.plan[0]
      case ReadInterrupted => AfterRead(next)
      case ReadBlocked => (next, WouldBlock)
      case ReadFailed => (next, IoFailed)
      case Ready(n) =>
        var k := Min(Min(Max(n, 1), r.len - r.end), r.left);
        if k == 0 then (next, AtEof) else (next.(end := r.end + k, left := r.left - k), Filled)
  }

  /** Reads until `target`. */
  function AfterReads(r: Intake, target: nat): (a: (Intake, FillResult))
    requires r.end <= r.len
    ensures a.0.start == r.start && r.end <= a.0.end <= a.0.len
    decreases |r.plan|
  {
    if r.end >= target then (r, Filled)
    else
      var (next, f) := AfterRead(r);
      if f != Filled then (next, f) else AfterReads(next, target)
  }

  /** The length after making room for `target` octets and a reasonably sized read. */
  function Grown(len: nat, end: nat, target: nat): nat {
    Max(len, Max(target + MIN_READ_HEADROOM, end + MIN_READ_SLICE))
  }

  /** A fill of at least `need` pending octets. */
  function AfterFill(r: Intake, need: nat): (a: (Intake, FillResult))
    requires r.end <= r.len
    ensures a.0.start == r.start && r.end <= a.0.end <= a.0.len
  {
    if r.end >= r.start + need then (r, Filled)
    else AfterReads(r.(len := Grown(r.len, r.end, r.start + need)), r.start + need)
  }

  /** Octets appended to those appended before. */
  lemma Extended(before: bytes, after: bytes, from: nat, mid: nat, end: nat, unread: bytes, left: bytes)
    requires from <= mid <= |before| && mid <= end <= |after| && after[..mid] == before[..mid]
    requires unread == after[mid..end] + left
    ensures after[..from] == before[..from]
    ensures before[from..mid] + unread == after[from..end] + left
  {
    assert after[from..end] == after[from..mid] + after[mid..end];
    assert after[..from] == after[..mid][..from] && before[..from] == before[..mid][..from];
    assert after[from..mid] == after[..mid][from..] && before[from..mid] == before[..mid][from..];
  }

  class ReadBuf {
    var buf: bytes
    var start: nat
    var end: nat

    ghost predicate Valid()
      reads this
    {
      start <= end <= |buf|
    }

    /** Unconsumed data. */
    function Pending(): bytes
      requires Valid()
      reads this
    {
      buf[start..end]
    }

    ghost function IntakeOf(stream: Stream): (r: Intake)
      requires Valid()
      reads this, stream
      ensures r.end <= r.len
    {
      Intake(start, end, |buf|, |stream.input|, stream.readPlan)
    }

    constructor ()
      ensures Valid() && Pending() == [] && start == end == |buf| == 0
    {
      buf, start, end := [], 0, 0;
    }

    /** Why a fill stopped early, as the last event served by the stream shows. */
    ghost predicate Explains(stream: Stream, servedBefore: nat, r: FillResult)
      reads stream
    {
      r != Filled ==>
        && servedBefore < |stream.served|
        && match stream.served[|stream.served| - 1].event
           case Ready(_) => r == AtEof && stream.input == []
           case ReadBlocked => r == WouldBlock
           case ReadFailed => r == IoFailed
           case ReadInterrupted => false
    }

    /** One read, retried on interruption. */
    method ReadOnce(stream: Stream) returns (r: FillResult)
      requires Valid() && end < |buf|
      modifies this`buf, this`end, stream`input, stream`readPlan, stream`served
      ensures Valid() && |buf| == old(|buf|) && end >= old(end)
      ensures buf[..old(end)] == old(buf[..end])
      ensures old(stream.input) == buf[old(end)..end] + stream.input
      ensures r == Filled <==> end > old(end)
      ensures Explains(stream, |old(stream.served)|, r) && |old(stream.served)| <= |stream.served|
      ensures AfterRead(old(IntakeOf(stream))) == (IntakeOf(stream), r)
    {
      while true
        invariant Valid() && end < |buf| && end == old(end) && buf == old(buf)
        invariant AfterRead(IntakeOf(stream)) == AfterRead(old(IntakeOf(stream)))
        invariant stream.input == old(stream.input) && |old(stream.served)| <= |stream.served|
        decreases |stream.readPlan|
      {
        var before := |stream.readPlan|;
        var got := stream.Read(|buf| - end);
        match got {
          case Got(data) =>
            if |data| == 0 {
              return AtEof;
            }
            buf := buf[..end] + data + buf[end + |data|..];
            end := end + |data|;
            assert buf[..old(end)] == old(buf[..end]);
            assert buf[old(end)..end] == data;
            return Filled;
          case GotInterrupted =>
            assert before > 0;
          case GotBlocked =>
            return WouldBlock;
          case GotError =>
            return IoFailed;
        }
      }
    }

    /** Makes room for `target` octets and a reasonably sized read. */
    method EnsureInitialized(target: nat)
      requires Valid()
      modifies this`buf
      ensures Valid() && old(buf) <= buf
      ensures |buf| == Grown(old(|buf|), end, target)
      ensures |buf| == Max(old(|buf|), Max(target + 512, end + 4096))
    {
      var needed := Max(target + MIN_READ_HEADROOM, end + MIN_READ_SLICE);
      if |buf| < needed {
        buf := buf + seq(needed - |buf|, _ => 0);
      }
    }

    /**
     * Reads until at least `need` octets are pending.  Whatever the outcome, no
     * octet is lost, repeated or reordered, and what was in the buffer stays.
     */
    method FillFrom(stream: Stream, need: nat) returns (r: FillResult)
      requires Valid()
      modifies this`buf, this`end, stream`input, stream`readPlan, stream`served
      ensures Valid() && end >= old(end) && |buf| >= old(|buf|)
      ensures buf[..old(end)] == old(buf[..end])
      ensures old(stream.input) == buf[old(end)..end] + stream.input
      ensures r == Filled <==> |Pending()| >= need
      ensures old(|Pending()|) >= need ==> end == old(end) && buf == old(buf)
      ensures Explains(stream, |old(stream.served)|, r) && |old(stream.served)| <= |stream.served|
      ensures AfterFill(old(IntakeOf(stream)), need) == (IntakeOf(stream), r)
    {
      hide AfterRead;
      var target := start + need;
      if end >= target {
        return Filled;
      }
      EnsureInitialized(target);
      while end < target
        invariant Valid() && target <= |buf| && end >= old(end) && |buf| >= old(|buf|)
        invariant buf[..old(end)] == old(buf[..end])
        invariant old(stream.input) == buf[old(end)..end] + stream.input
        invariant |old(stream.served)| <= |stream.served|
        invariant AfterReads(IntakeOf(stream), target) == AfterFill(old(IntakeOf(stream)), need)
        decreases target - end
      {
        ghost var before, mid, unread := buf, end, stream.input;
        r := ReadOnce(stream);
        Extended(before, buf, old(end), mid, end, unread, stream.input);
        if r != Filled {
          return;
        }
      }
      r := Filled;
    }

    /** What every fill keeps: pending octets and unread octets form one queue. */
    twostate lemma FillKeepsQueue(stream: Stream)
      requires old(Valid()) && Valid() && start == old(start) && end >= old(end)
      requires buf[..old(end)] == old(buf[..end])
      requires old(stream.input) == buf[old(end)..end] + stream.input
      ensures Pending() + stream.input == old(Pending() + stream.input)
      ensures old(Pending()) <= Pending()
    {
      assert buf[start..old(end)] == buf[..old(end)][start..] == old(Pending());
      assert Pending() == buf[start..old(end)] + buf[old(end)..end];
    }

    method Consume(n: nat)
      requires Valid() && n <= |Pending()|
      modifies this`start
      ensures Valid() && start == old(start) + n && Pending() == old(Pending())[n..]
    {
      start := Min(end, start + n);
    }

    /** Moves the pending octets to the front. */
    method Compact()
      requires Valid()
      modifies this
      ensures Valid() && start == 0 && end == old(end - start) && Pending() == old(Pending()) && |buf| == old(|buf|)
    {
      if start == 0 {
        return;
      } else if start == end {
        Clear();
      } else {
        buf := buf[start..end] + buf[end - start..];
        end := end - start;
        start := 0;
      }
    }

    method MaybeCompact(threshold: nat) returns (compacted: bool)
      requires Valid()
      modifies this
      ensures Valid() && Pending() == old(Pending()) && |buf| == old(|buf|)
      ensures compacted <==> old(start) > 0 && (old(start) == old(end) || old(start) > Max(threshold, old(end) / 2))
      ensures compacted ==> end == old(end - start)
      ensures if compacted then start == 0 else start == old(start) && buf == old(buf)
    {
      if start > 0 && (start == end || start > Max(threshold, end / 2)) {
        Compact();
        compacted := true;
      } else {
        compacted := false;
      }
    }

    /** `shrink`: the capacity exceeds the target and the one-in-eight draw came up. */
    method MaybeShrinkCapacity(shrink: bool)
      requires Valid()
      modifies this`buf
      ensures Valid() && Pending() == old(Pending())
      ensures |buf| == if start == 0 && shrink then end else old(|buf|)
    {
      if start == 0 && shrink {
        buf := buf[..end];
      }
    }

    method Clear()
      modifies this`start, this`end
      ensures Valid() && start == end == 0 && Pending() == []
    {
      start, end := 0, 0;
    }
  }
}
