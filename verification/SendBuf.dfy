/** The output queue with a drain cursor that survives partial writes. */
module SendBuffer {
  import opened Bytes
  import opened Transport

  datatype FlushResult = Flushed | WouldBlock | WriteClosed | WriteError

  /** All that decides how far a flush gets: octets pending, and the stream's events. */
  datatype Outflow = Outflow(pending: nat, plan: seq<WriteEvent>)

  function AfterFlush(o: Outflow): (a: (Outflow, FlushResult))
    ensures a.0.pending <= o.pending && (a.1 == Flushed <==> a.0.pending == 0)
    decreases |o.plan|
  {
    if o.pending == 0 then (o, Flushed)
    else if o.plan == [] then (o, WouldBlock)
    else
      var next := o.(plan := o.plan[1..]);
      match o.plan[0]
      case WriteInterrupted => AfterFlush(next)
      case WriteBlocked => (next, WouldBlock)
      case WriteFailed => (next, WriteError)
      case Accept(n) =>
        if n == 0 then (next, WriteClosed) else AfterFlush(next.(pending := o.pending - Min(n, o.pending)))
  }

  /** Neither done nor merely blocked. */
  predicate FailedForGood(r: FlushResult) {
    r == WriteClosed || r == WriteError
  }

  /** The sending side as it shows: octets pending, what the stream has served, and what it has in store. */
  datatype Writes = Writes(
    pending: nat,
    served: seq<WriteEvent>,
    accepted: nat,
    pushed: bool,                  // flushed since the last accepted octet
    hard: nat,
    left: nat)

  predicate Later(a: Writes, b: Writes) {
    a.served <= b.served && a.accepted <= b.accepted && a.hard <= b.hard && b.hard - a.hard <= a.left - b.left
  }

  /** All that was pending has gone out, to the end of the transport, unless the stream refused a write meanwhile. */
  ghost predicate Answers(a: Writes, b: Writes) {
    Later(a, b) && ((b.pending == 0 && b.pushed) || Refused(b.served, |a.served|))
  }

  /** The same, unless there was nothing to send. */
  ghost predicate KeepsUp(a: Writes, b: Writes) {
    a == b || Answers(a, b)
  }

  lemma KeepsUpThen(a: Writes, b: Writes, c: Writes)
    requires KeepsUp(a, b) && KeepsUp(b, c)
    ensures KeepsUp(a, c)
  {
    if a != b && b != c && Refused(c.served, |b.served|) {
      var k :| |b.served| <= k < |c.served| && Refusal(c.served[k]);
    }
  }

  class SendBuf {
    var buf: bytes
    var pos: nat

    ghost predicate Valid()
      reads this
    {
      pos <= |buf|
    }

    /** Octets not yet accepted by the stream. */
    function Pending(): bytes
      requires Valid()
      reads this
    {
      buf[pos..]
    }

    constructor ()
      ensures Valid() && Pending() == []
    {
      buf, pos := [], 0;
    }

    predicate HasPending()
      reads this
    {
      pos < |buf|
    }

    method Push(data: bytes)
      requires Valid()
      modifies this`buf
      ensures Valid() && buf == old(buf) + data && Pending() == old(Pending()) + data
    {
      buf := buf + data;
    }

    ghost function OutflowOf(stream: Stream): Outflow
      requires Valid()
      reads this, stream
    {
      Outflow(|buf| - pos, stream.writePlan)
    }

    ghost function WritesOf(stream: Stream): Writes
      requires Valid()
      reads this, stream
    {
      Writes(|buf| - pos, stream.servedWrites, |stream.output|, stream.Pushed(), stream.hardWrites, |stream.writePlan|)
    }

    /** Why a drain stopped early, as the last event served by the stream shows. */
    ghost predicate Explains(stream: Stream, servedBefore: nat, r: FlushResult)
      reads stream
    {
      r != Flushed ==>
        && servedBefore < |stream.servedWrites|
        && match stream.servedWrites[|stream.servedWrites| - 1]
           case Accept(n) => r == WriteClosed && n == 0
           case WriteBlocked => r == WouldBlock
           case WriteFailed => r == WriteError
           case WriteInterrupted => false
    }

    /** One write; nothing if the loop goes on. */
    method WriteOnce(stream: Stream) returns (r: Option<FlushResult>)
      requires Valid() && HasPending()
      modifies this`pos, stream`output, stream`writePlan, stream`servedWrites, stream`hardWrites
      ensures Valid() && old(pos) <= pos && stream.output == old(stream.output) + buf[old(pos)..pos]
      ensures old(stream.servedWrites) <= stream.servedWrites
      ensures r.None? ==>
                && AfterFlush(OutflowOf(stream)) == AfterFlush(old(OutflowOf(stream)))
                && stream.hardWrites == old(stream.hardWrites) && |stream.writePlan| < |old(stream.writePlan)|
      ensures r.Some? ==>
                && r.value != Flushed && AfterFlush(old(OutflowOf(stream))) == (OutflowOf(stream), r.value)
                && Explains(stream, |old(stream.servedWrites)|, r.value)
                && stream.hardWrites == old(stream.hardWrites) + if FailedForGood(r.value) then 1 else 0
      ensures |stream.writePlan| + (if r.Some? && FailedForGood(r.value) then 1 else 0) <= |old(stream.writePlan)|
    {
      var w := stream.Write(buf[pos..]);
      match w {
        case Wrote(k) =>
          pos := pos + k;
          assert buf[old(pos)..][..k] == buf[old(pos)..pos];
          r := if k == 0 then Some(WriteClosed) else None;
        case PutInterrupted => r := None;
        case PutBlocked => r := Some(WouldBlock);
        case PutError => r := Some(WriteError);
      }
    }

    /**
     * Drains to the stream, retrying on interruption.  Accepted and pending
     * octets together never change, whatever the stream does.
     */
    method Flush(stream: Stream) returns (r: FlushResult, ghost n: nat)
      requires Valid()
      modifies this`pos, stream`output, stream`writePlan, stream`servedWrites, stream`hardWrites
      ensures Valid() && n <= |old(Pending())|
      ensures stream.output == old(stream.output) + old(Pending())[..n]
      ensures Pending() == old(Pending())[n..]
      ensures r == Flushed <==> Pending() == []
      ensures Explains(stream, |old(stream.servedWrites)|, r) && old(stream.servedWrites) <= stream.servedWrites
      ensures AfterFlush(old(OutflowOf(stream))) == (OutflowOf(stream), r)
      ensures stream.hardWrites == old(stream.hardWrites) + if FailedForGood(r) then 1 else 0
      ensures r != Flushed ==> Refused(stream.servedWrites, |old(stream.servedWrites)|)
      ensures |stream.writePlan| + (if FailedForGood(r) then 1 else 0) <= |old(stream.writePlan)|
    {
      var outcome: Option<FlushResult> := None;
      while pos < |buf| && outcome.None?
        invariant old(pos) <= pos <= |buf| && buf == old(buf)
        invariant stream.output == old(stream.output) + buf[old(pos)..pos]
        invariant old(stream.servedWrites) <= stream.servedWrites
        invariant outcome.None? ==>
                    && AfterFlush(OutflowOf(stream)) == AfterFlush(old(OutflowOf(stream)))
                    && stream.hardWrites == old(stream.hardWrites)
        invariant |stream.writePlan| <= |old(stream.writePlan)|
        invariant outcome.Some? && FailedForGood(outcome.value) ==> |stream.writePlan| < |old(stream.writePlan)|
        invariant outcome.Some? ==>
                    && outcome.value != Flushed && AfterFlush(old(OutflowOf(stream))) == (OutflowOf(stream), outcome.value)
                    && Explains(stream, |old(stream.servedWrites)|, outcome.value)
                    && stream.hardWrites == old(stream.hardWrites) + if FailedForGood(outcome.value) then 1 else 0
        decreases outcome.None?, |stream.writePlan|
      {
        ghost var mid := pos;
        outcome := WriteOnce(stream);
        assert buf[old(pos)..pos] == buf[old(pos)..mid] + buf[mid..pos];
      }
      n := pos - old(pos);
      assert old(Pending())[..n] == buf[old(pos)..pos];
      r := if outcome.Some? then outcome.value else Flushed;
    }

    /**
     * Best-effort drain, then a flush of the transport; errors are ignored.  Either
     * all is drained and flushed, or the stream refused a write.
     */
    method TryFlush(stream: Stream) returns (ghost n: nat)
      requires Valid()
      modifies this`pos, stream`output, stream`writePlan, stream`servedWrites, stream`hardWrites, stream`flushes
      ensures Valid() && n <= |old(Pending())|
      ensures stream.output == old(stream.output) + old(Pending())[..n]
      ensures Pending() == old(Pending())[n..] && OutflowOf(stream) == AfterFlush(old(OutflowOf(stream))).0
      ensures Answers(old(WritesOf(stream)), WritesOf(stream))
    {
      var r;
      r, n := Flush(stream);
      var t := stream.FlushTransport();
    }

    /** Releases a drained buffer. */
    method MaybeShrink(shrink: bool)
      requires Valid()
      modifies this
      ensures Valid() && Pending() == old(Pending())
      ensures if shrink && old(Pending()) == [] then buf == [] && pos == 0 else buf == old(buf) && pos == old(pos)
    {
      if pos >= |buf| && shrink {
        buf, pos := [], 0;
      }
    }

    method Clear()
      modifies this
      ensures Valid() && Pending() == []
    {
      buf, pos := [], 0;
    }
  }
}
