/**
 * Reading the response header of the opening handshake: the stateful scan for
 * the blank line agrees with a one-shot search of the first 8192 octets, however
 * the octets arrive, and everything after the header stays for `read_message`.
 */
module Handshake {
  import opened Bytes
  import opened Transport
  import opened ReadBuffer

  const MAX_HEADER: nat := 8192
  const MAX_LINES: nat := 64
  const LF: byte := 10
  const CR: byte := 13

  datatype Verdict = HeaderEnd(end: nat) | TooLarge | Unfinished

  /** The part of the data that may hold the header. */
  function Limit(d: bytes): nat { Min(|d|, MAX_HEADER) }

  /** A blank line ends at `e`: two line feeds with nothing, or a carriage return, between them. */
  predicate BlankLineEnds(d: bytes, e: int) {
    && 2 <= e <= Limit(d)
    && d[e - 1] == LF
    && (d[e - 2] == LF || (e >= 3 && d[e - 2] == CR && d[e - 3] == LF))
  }

  /** Positions of the line feeds among the first `n` octets. */
  function LineEnds(d: bytes, n: nat): (ps: seq<nat>)
    requires n <= |d|
    ensures |ps| <= n && forall i | 0 <= i < |ps| :: ps[i] < n && d[ps[i]] == LF
    ensures forall i, j | 0 <= i < j < |ps| :: ps[i] < ps[j]
  {
    if n == 0 then []
    else LineEnds(d, n - 1) + if d[n - 1] == LF then [n - 1] else []
  }

  /** The one-shot search. */
  ghost predicate IsVerdict(d: bytes, v: Verdict) {
    match v
    case HeaderEnd(e) =>
      && BlankLineEnds(d, e) && |LineEnds(d, e)| <= MAX_LINES
      && forall e' | e' < e :: !BlankLineEnds(d, e')
    case TooLarge =>
      && (|d| >= MAX_HEADER || |LineEnds(d, Limit(d))| > MAX_LINES)
      && forall e | BlankLineEnds(d, e) :: |LineEnds(d, e)| > MAX_LINES
    case Unfinished =>
      && |d| < MAX_HEADER && |LineEnds(d, |d|)| <= MAX_LINES
      && forall e :: !BlankLineEnds(d, e)
  }

  lemma {:induction false} LineEndsGrow(d: bytes, m: nat, n: nat)
    requires m <= n <= |d|
    ensures LineEnds(d, m) <= LineEnds(d, n)
    decreases n
  {
    if m < n {
      LineEndsGrow(d, m, n - 1);
    }
  }

  lemma {:induction false} LineEndsStable(d: bytes, more: bytes, n: nat)
    requires n <= |d|
    ensures LineEnds(d + more, n) == LineEnds(d, n)
    decreases n
  {
    if n > 0 {
      LineEndsStable(d, more, n - 1);
    }
  }

  lemma BlankStable(d: bytes, more: bytes, e: int)
    requires e <= |d|
    ensures BlankLineEnds(d + more, e) <==> BlankLineEnds(d, e)
  {}

  /** The search has exactly one answer. */
  lemma VerdictIsUnique(d: bytes, v: Verdict, w: Verdict)
    requires IsVerdict(d, v) && IsVerdict(d, w)
    ensures v == w
  {
    if v.HeaderEnd? && w.Unfinished? { assert false; }
  }

  /** A settled answer is the answer for every longer stream: how the octets arrive does not matter. */
  lemma VerdictIsStable(d: bytes, more: bytes, v: Verdict)
    requires IsVerdict(d, v) && v != Unfinished
    ensures IsVerdict(d + more, v)
  {
    var w := d + more;
    match v {
      case HeaderEnd(e) =>
        LineEndsStable(d, more, e);
        forall e' | e' < e ensures !BlankLineEnds(w, e') {
          BlankStable(d, more, e');
        }
        BlankStable(d, more, e);
      case TooLarge =>
        LineEndsStable(d, more, Limit(d));
        LineEndsGrow(w, Limit(d), Limit(w));
        forall e | BlankLineEnds(w, e) ensures |LineEnds(w, e)| > MAX_LINES {
          if e <= |d| {
            BlankStable(d, more, e);
            LineEndsStable(d, more, e);
          } else {
            LineEndsGrow(w, Limit(d), e);
          }
        }
    }
  }

  /** The captured variables of the scanning callback. */
  class HeaderScan {
    var scan: nat
    var prevNl: Option<nat>
    const lineEnds: array<nat>
    var nLines: nat

    constructor ()
      ensures fresh(lineEnds) && Consistent([])
    {
      scan, prevNl, nLines := 0, None, 0;
      lineEnds := new nat[MAX_LINES];
    }

    /** What has been scanned of `d`, without a blank line so far. */
    ghost predicate Consistent(d: bytes)
      reads this, lineEnds
    {
      && lineEnds.Length == MAX_LINES && nLines <= MAX_LINES && scan <= Limit(d)
      && lineEnds[..nLines] == LineEnds(d, scan)
      && (match prevNl
          case None => nLines == 0
          case Some(p) => p < scan && d[p] == LF && nLines > 0 && lineEnds[nLines - 1] == p && scan == p + 1)
      && (scan == 0 || prevNl.Some?)
      && forall e | e <= scan :: !BlankLineEnds(d, e)
    }

    lemma ConsistentGrows(d: bytes, more: bytes)
      requires Consistent(d)
      ensures Consistent(d + more)
    {
      LineEndsStable(d, more, scan);
      forall e | e <= scan ensures !BlankLineEnds(d + more, e) {
        BlankStable(d, more, e);
      }
    }

    /** `position` of the next line feed. */
    method NextLineFeed(data: bytes, limit: nat) returns (found: Option<nat>)
      requires scan <= limit <= |data|
      ensures match found
              case None => forall k | scan <= k < limit :: data[k] != LF
              case Some(nl) => scan <= nl < limit && data[nl] == LF && forall k | scan <= k < nl :: data[k] != LF
    {
      var k := scan;
      while k < limit
        invariant scan <= k <= limit
        invariant forall j | scan <= j < k :: data[j] != LF
      {
        if data[k] == LF {
          return Some(k);
        }
        k := k + 1;
      }
      return None;
    }

    /** Records the line that ends at `nl`; settles the search if it is blank or one too many. */
    method RecordLine(data: bytes, nl: nat) returns (r: Verdict)
      requires Consistent(data) && scan <= nl < Limit(data) && data[nl] == LF
      requires forall k | scan <= k < nl :: data[k] != LF
      modifies this, lineEnds
      ensures if r == Unfinished then Consistent(data) && scan == nl + 1 else IsVerdict(data, r)
      ensures r.HeaderEnd? ==> nLines <= MAX_LINES == lineEnds.Length && lineEnds[..nLines] == LineEnds(data, r.end)
    {
      hide BlankLineEnds, LineEnds;
      OneMoreLine(data, scan, nl);
      BlankAfter(data, prevNl, scan, nl);
      if nLines >= MAX_LINES {
        TooManyLines(data, nl);
        return TooLarge;
      }
      lineEnds[nLines] := nl;
      assert lineEnds[..nLines + 1] == LineEnds(data, nl + 1);
      nLines := nLines + 1;
      if prevNl.Some? {
        var gap := nl - prevNl.value;
        if gap == 1 || (gap == 2 && data[nl - 1] == CR) {
          return HeaderEnd(nl + 1);
        }
      }
      prevNl := Some(nl);
      scan := nl + 1;
      return Unfinished;
    }

    /** The callback: scans what is new, and settles the search if it can. */
    method Check(data: bytes) returns (r: Verdict)
      requires Consistent(data)
      modifies this, lineEnds
      ensures IsVerdict(data, r)
      ensures r == Unfinished ==> Consistent(data)
      ensures r.HeaderEnd? ==> nLines <= MAX_LINES == lineEnds.Length && lineEnds[..nLines] == LineEnds(data, r.end)
    {
      var limit := Min(|data|, MAX_HEADER);
      while true
        invariant Consistent(data)
        decreases limit - scan
      {
        var found := NextLineFeed(data, limit);
        match found {
          case None =>
            NoMoreLines(data, scan, limit);
            if |data| >= MAX_HEADER {
              return TooLarge;
            }
            return Unfinished;
          case Some(nl) =>
            r := RecordLine(data, nl);
            if r != Unfinished {
              return;
            }
        }
      }
    }
  }

  lemma {:induction false} SkipToLine(d: bytes, begin: nat, end: nat)
    requires begin <= end <= |d| && forall k | begin <= k < end :: d[k] != LF
    ensures LineEnds(d, end) == LineEnds(d, begin)
    decreases end
  {
    if begin < end {
      SkipToLine(d, begin, end - 1);
    }
  }

  lemma NoMoreLines(d: bytes, from: nat, limit: nat)
    requires from <= limit == Limit(d) && forall k | from <= k < limit :: d[k] != LF
    requires forall e | e <= from :: !BlankLineEnds(d, e)
    ensures LineEnds(d, limit) == LineEnds(d, from) && forall e :: !BlankLineEnds(d, e)
  {
    SkipToLine(d, from, limit);
    forall e ensures !BlankLineEnds(d, e) {
      if from < e <= limit { assert d[e - 1] != LF; }
    }
  }

  lemma OneMoreLine(d: bytes, from: nat, nl: nat)
    requires from <= nl < Limit(d) && d[nl] == LF && forall k | from <= k < nl :: d[k] != LF
    requires forall e | e <= from :: !BlankLineEnds(d, e)
    ensures LineEnds(d, nl + 1) == LineEnds(d, from) + [nl]
    ensures forall e | e <= nl :: !BlankLineEnds(d, e)
  {
    SkipToLine(d, from, nl);
    forall e | e <= nl ensures !BlankLineEnds(d, e) {
      if from < e { assert d[e - 1] != LF; }
    }
  }

  /** The callback's test: the line that ends at `nl`, begun behind the last line feed, is blank. */
  lemma BlankAfter(d: bytes, prev: Option<nat>, begin: nat, nl: nat)
    requires begin <= nl < Limit(d) && d[nl] == LF && forall k | begin <= k < nl :: d[k] != LF
    requires if prev.Some? then begin == prev.value + 1 && d[prev.value] == LF else begin == 0
    ensures BlankLineEnds(d, nl + 1) <==>
              prev.Some? && (nl - prev.value == 1 || (nl - prev.value == 2 && d[nl - 1] == CR))
  {}

  lemma TooManyLines(d: bytes, nl: nat)
    requires nl < Limit(d) && |LineEnds(d, nl + 1)| > MAX_LINES
    requires forall e | e <= nl :: !BlankLineEnds(d, e)
    ensures IsVerdict(d, TooLarge)
  {
    LineEndsGrow(d, nl + 1, Limit(d));
    forall e | BlankLineEnds(d, e) ensures |LineEnds(d, e)| > MAX_LINES {
      LineEndsGrow(d, nl + 1, e);
    }
  }

  // ----- read_until -----

  datatype Outcome = Found(end: nat) | HeadersTooLarge | Eof | Blocked | Io | LimitReached

  /** The search is over on these octets. */
  ghost predicate Ends(d: bytes) {
    !IsVerdict(d, Unfinished)
  }

  /** Reads until the search is over; `w` are the octets pending and to come. */
  ghost function AfterSearch(r: Intake, w: bytes): (a: (Intake, FillResult))
    requires r.start <= r.end <= r.len
    ensures a.0.start == r.start && r.end <= a.0.end <= a.0.len == r.len
    ensures a.1 == Filled ==> Ends(w[..Min(a.0.end - r.start, |w|)])
    decreases |r.plan|
  {
    var (next, f) := AfterRead(r);
    if f != Filled || Ends(w[..Min(next.end - r.start, |w|)]) then (next, f) else AfterSearch(next, w)
  }

  /** All of `read_until`: pending octets are searched before the first read. */
  ghost function AfterUntil(r: Intake, w: bytes): (a: (Intake, FillResult))
    requires r.start <= r.end <= r.len
    ensures a.0.start == r.start && r.end <= a.0.end <= a.0.len
  {
    if r.end > r.start && Ends(w[..Min(r.end - r.start, |w|)]) then (r, Filled)
    else AfterSearch(r.(len := Grown(r.len, r.end, r.start + MAX_HEADER)), w)
  }

  /** How the search ends when it is fed like that. */
  predicate Fits(f: FillResult, r: Outcome) {
    match f
    case Filled => r.Found? || r == HeadersTooLarge
    case AtEof => r == Eof
    case WouldBlock => r == Blocked
    case IoFailed => r == Io
  }

  /** What an outcome says of the octets, the scan and the stream. */
  ghost predicate Tells(r: Outcome, read: ReadBuf, stream: Stream, scan: HeaderScan, servedBefore: nat)
    requires read.Valid()
    reads read, stream, scan, scan.lineEnds
  {
    match r
    case Found(e) =>
      && e <= |read.Pending()| && IsVerdict(read.Pending() + stream.input, HeaderEnd(e))
      && scan.nLines <= scan.lineEnds.Length
      && scan.lineEnds[..scan.nLines] == LineEnds(read.Pending(), e)
    case HeadersTooLarge => IsVerdict(read.Pending() + stream.input, TooLarge)
    case Eof => stream.input == [] && IsVerdict(read.Pending() + stream.input, Unfinished)
    case LimitReached => false
    case _ =>
      && read.Explains(stream, servedBefore, if r == Io then IoFailed else WouldBlock)
      && (read.Pending() == [] || IsVerdict(read.Pending(), Unfinished))
  }

  lemma TellsSince(r: Outcome, read: ReadBuf, stream: Stream, scan: HeaderScan, servedBefore: nat, earlier: nat)
    requires read.Valid() && Tells(r, read, stream, scan, servedBefore) && earlier <= servedBefore
    ensures Tells(r, read, stream, scan, earlier)
  {
    hide IsVerdict, LineEnds;
  }

  /**
   * `read_until` with the scanning callback and the header limit.  The limit arm
   * is never taken: the callback always gives up first.
   */
  method ReadUntil(read: ReadBuf, stream: Stream, scan: HeaderScan) returns (r: Outcome)
    requires read.Valid() && scan.Consistent([])
    modifies read`buf, read`end, scan, scan.lineEnds, stream`input, stream`readPlan, stream`served
    ensures read.Valid() && read.start == old(read.start)
    ensures read.Pending() + stream.input == old(read.Pending() + stream.input)
    ensures r != LimitReached && Tells(r, read, stream, scan, |old(stream.served)|)
    ensures var (a, f) := AfterUntil(old(read.IntakeOf(stream)), old(read.Pending() + stream.input));
            read.IntakeOf(stream) == a && Fits(f, r)
  {
    hide IsVerdict, HeaderScan.Consistent, LineEnds, AfterSearch, Tells;
    ghost var whole := read.Pending() + stream.input;
    scan.ConsistentGrows([], read.Pending());
    assert [] + read.Pending() == read.Pending();
    if read.end > read.start {
      r := CheckPending(read, stream.input, scan);
      assert whole[..read.end - read.start] == read.Pending();
      if r != Blocked {
        TellsAnswer(r, read, stream, scan, |old(stream.served)|);
        return;
      }
    }
    var target := read.start + MAX_HEADER;
    if read.end >= target {
      return LimitReached;
    }
    MakeRoom(read, target);
    r := SearchLoop(read, stream, scan, target);
  }

  /** The loop: reads until the callback has its answer. */
  method SearchLoop(read: ReadBuf, stream: Stream, scan: HeaderScan, target: nat) returns (r: Outcome)
    requires read.Valid() && target == read.start + MAX_HEADER && read.end < target <= |read.buf|
    requires scan.Consistent(read.Pending()) && (read.Pending() == [] || IsVerdict(read.Pending(), Unfinished))
    modifies read`buf, read`end, scan, scan.lineEnds, stream`input, stream`readPlan, stream`served
    ensures read.Valid()
    ensures read.Pending() + stream.input == old(read.Pending() + stream.input)
    ensures r != LimitReached && Tells(r, read, stream, scan, |old(stream.served)|)
    ensures var (a, f) := AfterSearch(old(read.IntakeOf(stream)), old(read.Pending() + stream.input));
            read.IntakeOf(stream) == a && Fits(f, r)
  {
    hide IsVerdict, HeaderScan.Consistent, AfterRead, LineEnds, Tells, Ends;
    ghost var whole, at := read.Pending() + stream.input, read.IntakeOf(stream);
    while true
      invariant read.Valid() && read.start == old(read.start) && read.end < target <= |read.buf|
      invariant read.Pending() + stream.input == whole
      invariant |old(stream.served)| <= |stream.served|
      invariant scan.Consistent(read.Pending()) && (read.Pending() == [] || IsVerdict(read.Pending(), Unfinished))
      invariant AfterSearch(at, whole) == AfterSearch(read.IntakeOf(stream), whole)
      decreases target - read.end
    {
      ghost var before := |stream.served|;
      var over := SearchOnce(read, stream, scan);
      if over.Some? {
        TellsSince(over.value, read, stream, scan, before, |old(stream.served)|);
        return over.value;
      }
      if read.end >= target {
        return LimitReached;
      }
    }
  }

  /** One read and the callback; nothing if the search goes on. */
  method SearchOnce(read: ReadBuf, stream: Stream, scan: HeaderScan) returns (r: Option<Outcome>)
    requires read.Valid() && read.end < |read.buf| && scan.Consistent(read.Pending())
    requires read.Pending() == [] || IsVerdict(read.Pending(), Unfinished)
    modifies read`buf, read`end, scan, scan.lineEnds, stream`input, stream`readPlan, stream`served
    ensures read.Valid() && read.end >= old(read.end) && |read.buf| == old(|read.buf|)
    ensures read.Pending() + stream.input == old(read.Pending() + stream.input)
    ensures |old(stream.served)| <= |stream.served|
    ensures read.Pending() == (read.Pending() + stream.input)[..read.end - read.start]
    ensures var (a, f) := AfterRead(old(read.IntakeOf(stream)));
            && read.IntakeOf(stream) == a && (r.None? <==> f == Filled && !Ends(read.Pending()))
            && (r.Some? ==> Fits(f, r.value))
    ensures match r
            case None =>
              && read.end > old(read.end) && scan.Consistent(read.Pending())
              && IsVerdict(read.Pending(), Unfinished) && |read.Pending()| < MAX_HEADER
            case Some(o) => Tells(o, read, stream, scan, |old(stream.served)|)
  {
    hide IsVerdict, HeaderScan.Consistent, AfterRead, LineEnds, Tells;
    var fill := ReadMore(read, stream, scan);
    assert (read.Pending() + stream.input)[..read.end - read.start] == read.Pending();
    if fill == Filled {
      var o := CheckPending(read, stream.input, scan);
      r := None;
      if o != Blocked {
        TellsAnswer(o, read, stream, scan, |old(stream.served)|);
        r := Some(o);
      }
    } else {
      TellsStop(fill, read, stream, scan, |old(stream.served)|);
      r := Some(Stop(fill));
    }
  }

  /** The errors of a read, as the search reports them. */
  function Stop(fill: FillResult): Outcome
    requires fill != Filled
  {
    match fill case AtEof => Eof case WouldBlock => Blocked case IoFailed => Io
  }

  lemma TellsStop(fill: FillResult, read: ReadBuf, stream: Stream, scan: HeaderScan, servedBefore: nat)
    requires read.Valid() && fill != Filled && read.Explains(stream, servedBefore, fill)
    requires read.Pending() == [] || IsVerdict(read.Pending(), Unfinished)
    ensures Tells(Stop(fill), read, stream, scan, servedBefore)
  {
    hide IsVerdict, LineEnds;
    EmptyIsUnfinished();
    assert read.Pending() + [] == read.Pending();
  }

  lemma TellsAnswer(r: Outcome, read: ReadBuf, stream: Stream, scan: HeaderScan, servedBefore: nat)
    requires read.Valid() && (r.Found? || r == HeadersTooLarge)
    requires r.Found? ==>
               && r.end <= |read.Pending()| && IsVerdict(read.Pending() + stream.input, HeaderEnd(r.end))
               && scan.nLines <= scan.lineEnds.Length
               && scan.lineEnds[..scan.nLines] == LineEnds(read.Pending(), r.end)
    requires r == HeadersTooLarge ==> IsVerdict(read.Pending() + stream.input, TooLarge)
    ensures Tells(r, read, stream, scan, servedBefore)
  {
    hide IsVerdict, LineEnds;
  }

  method MakeRoom(read: ReadBuf, target: nat)
    requires read.Valid()
    modifies read`buf
    ensures read.Valid() && read.Pending() == old(read.Pending()) && target <= |read.buf|
    ensures |read.buf| == Grown(old(|read.buf|), read.end, target)
  {
    read.EnsureInitialized(target);
  }

  /** One read, with the scan's position carried over to the longer data. */
  method ReadMore(read: ReadBuf, stream: Stream, scan: HeaderScan) returns (fill: FillResult)
    requires read.Valid() && read.end < |read.buf| && scan.Consistent(read.Pending())
    modifies read`buf, read`end, stream`input, stream`readPlan, stream`served
    ensures read.Valid() && read.end >= old(read.end) && |read.buf| == old(|read.buf|)
    ensures read.Pending() + stream.input == old(read.Pending() + stream.input)
    ensures scan.Consistent(read.Pending())
    ensures fill == Filled <==> read.end > old(read.end)
    ensures fill != Filled ==> read.Pending() == old(read.Pending())
    ensures read.Explains(stream, |old(stream.served)|, fill) && |old(stream.served)| <= |stream.served|
    ensures AfterRead(old(read.IntakeOf(stream))) == (read.IntakeOf(stream), fill)
  {
    hide HeaderScan.Consistent;
    fill := read.ReadOnce(stream);
    read.FillKeepsQueue(stream);
    ghost var before := old(read.Pending());
    scan.ConsistentGrows(before, read.Pending()[|before|..]);
    assert before + read.Pending()[|before|..] == read.Pending();
  }

  /** The callback on the pending data; `Blocked` here only means that nothing is settled yet. */
  method CheckPending(read: ReadBuf, ghost rest: bytes, scan: HeaderScan) returns (r: Outcome)
    requires read.Valid() && scan.Consistent(read.Pending())
    modifies scan, scan.lineEnds
    ensures r.Found? || r == HeadersTooLarge || r == Blocked
    ensures r.Found? ==>
              && r.end <= |read.Pending()| && IsVerdict(read.Pending() + rest, HeaderEnd(r.end))
              && scan.nLines <= scan.lineEnds.Length
              && scan.lineEnds[..scan.nLines] == LineEnds(read.Pending(), r.end)
    ensures r != Blocked <==> Ends(read.Pending())
    ensures r == HeadersTooLarge ==> IsVerdict(read.Pending() + rest, TooLarge)
    ensures r == Blocked ==>
              && scan.Consistent(read.Pending()) && IsVerdict(read.Pending(), Unfinished)
              && |read.Pending()| < MAX_HEADER
  {
    hide HeaderScan.Consistent;
    var v := scan.Check(read.Pending());
    Settles(read.Pending(), rest, v);
    match v {
      case HeaderEnd(e) => return Found(e);
      case TooLarge => return HeadersTooLarge;
      case Unfinished => return Blocked;
    }
  }

  lemma EmptyIsUnfinished()
    ensures IsVerdict([], Unfinished)
  {}

  lemma Settles(d: bytes, more: bytes, v: Verdict)
    requires IsVerdict(d, v)
    ensures v != Unfinished ==> IsVerdict(d + more, v)
    ensures v == Unfinished ==> |d| < MAX_HEADER
    ensures v.HeaderEnd? ==> v.end <= |d|
  {
    if v != Unfinished {
      VerdictIsStable(d, more, v);
    }
  }

  // ----- The response -----

  const STATUS: bytes := [72, 84, 84, 80, 47, 49, 46, 49, 32, 49, 48, 49]    // HTTP/1.1 101

  predicate StartsWith(d: bytes, prefix: bytes) {
    |prefix| <= |d| && d[..|prefix|] == prefix
  }

  /** The octet after the status text is always there: a header never ends in the middle of it. */
  lemma StatusOctetInBounds(d: bytes, e: nat)
    requires IsVerdict(d, HeaderEnd(e)) && StartsWith(d[..e], STATUS)
    ensures |STATUS| < e <= |d|
  {
    assert d[..e][..|STATUS|] == STATUS;
  }

  function StripCr(line: bytes): bytes {
    if line != [] && line[|line| - 1] == CR then line[..|line| - 1] else line
  }

  function Line(d: bytes, begin: nat, end: nat): bytes
    requires begin <= end <= |d|
  {
    StripCr(d[begin..end])
  }

  /** Positions in order, all inside the data. */
  predicate Ordered(ends: seq<nat>, n: nat) {
    && (forall i | 0 <= i < |ends| :: ends[i] < n)
    && (forall i, j | 0 <= i < j < |ends| :: ends[i] < ends[j])
  }

  /** The header's lines, each without its line end. */
  function Lines(d: bytes, ends: seq<nat>): seq<bytes>
    requires Ordered(ends, |d|)
  {
    if ends == [] then []
    else
      var front, last := ends[..|ends| - 1], |ends| - 1;
      Lines(d, front) + [Line(d, if last == 0 then 0 else ends[last - 1] + 1, ends[last])]
  }

  /** `line_ends[..n_lines]` as slices of the header. */
  method SplitLines(data: bytes, lineEnds: array<nat>, n: nat) returns (lines: seq<bytes>)
    requires n <= lineEnds.Length && Ordered(lineEnds[..n], |data|)
    ensures lines == Lines(data, lineEnds[..n])
  {
    hide Lines, Ordered;
    NoLines(data);
    lines := [];
    var lineStart := 0;
    var i := 0;
    while i < n
      invariant 0 <= i <= n
      invariant lineStart == if i == 0 then 0 else lineEnds[i - 1] + 1
      invariant Ordered(lineEnds[..i], |data|) && lines == Lines(data, lineEnds[..i])
    {
      var nl := lineEnds[i];
      OrderedPrefix(lineEnds[..n], i + 1, |data|);
      assert lineEnds[..n][..i + 1] == lineEnds[..i + 1] == lineEnds[..i] + [nl];
      LinesSnoc(data, lineEnds[..i], nl);
      lines := lines + [Line(data, lineStart, nl)];
      lineStart := nl + 1;
      i := i + 1;
    }
  }

  lemma NoLines(d: bytes)
    ensures Ordered([], |d|) && Lines(d, []) == []
  {}

  lemma OrderedPrefix(ends: seq<nat>, k: nat, n: nat)
    requires Ordered(ends, n) && k <= |ends|
    ensures Ordered(ends[..k], n)
  {}

  lemma OrderedAt(ends: seq<nat>, i: nat, n: nat)
    requires Ordered(ends, n) && i < |ends|
    ensures ends[i] < n && (i > 0 ==> ends[i - 1] < ends[i])
  {}

  /** One more line behind the lines before it. */
  lemma {:induction false} LinesSnoc(d: bytes, front: seq<nat>, nl: nat)
    requires Ordered(front + [nl], |d|)
    ensures Ordered(front, |d|)
    ensures var begin := if front == [] then 0 else front[|front| - 1] + 1;
            begin <= nl < |d| && Lines(d, front + [nl]) == Lines(d, front) + [Line(d, begin, nl)]
  {
    hide Line, Ordered;
    var ends := front + [nl];
    OrderedPrefix(ends, |front|, |d|);
    OrderedAt(ends, |front|, |d|);
    assert ends[..|front|] == front;
  }

  /** What the search fetches on a cleared buffer of length `len`. */
  ghost function Searched(len: nat, w: bytes, plan: seq<ReadEvent>): (a: (Intake, FillResult))
  {
    AfterUntil(Intake(0, 0, len, |w|, plan), w)
  }

  /** What is left for the read loop once the header is consumed and the rest moved to the front. */
  function Behind(r: Intake, e: nat): (a: Intake)
    requires r.end <= r.len
    ensures a.start <= a.end <= a.len
  {
    r.(start := 0, end := if r.end < e then 0 else r.end - e)
  }

  /** The response arrives, and its header and status are accepted. */
  ghost predicate Welcomes(len: nat, w: bytes, plan: seq<ReadEvent>) {
    Searched(len, w, plan).1 == Filled && exists e: nat :: IsVerdict(w, HeaderEnd(e)) && e <= |w| && StatusOk(w, e)
  }

  /** The response arrives with a whole header and another status line. */
  ghost predicate Snubs(len: nat, w: bytes, plan: seq<ReadEvent>) {
    Searched(len, w, plan).1 == Filled && exists e: nat :: IsVerdict(w, HeaderEnd(e)) && e <= |w| && !StatusOk(w, e)
  }

  lemma OneHeaderEnd(w: bytes, v: Verdict)
    requires IsVerdict(w, v)
    ensures forall e: nat | IsVerdict(w, HeaderEnd(e)) :: v == HeaderEnd(e)
  {
    hide IsVerdict;
    forall e: nat | IsVerdict(w, HeaderEnd(e)) ensures v == HeaderEnd(e) {
      VerdictIsUnique(w, v, HeaderEnd(e));
    }
  }

  datatype Response = Accepted(lines: seq<bytes>) | BadStatus | Refused(why: Outcome)

  /**
   * The reading half of `handshake`: the status line is checked, the header is
   * split into lines for the field checks, and exactly the header is consumed.
   */
  method ReadResponse(read: ReadBuf, stream: Stream) returns (r: Response, ghost e: nat)
    requires read.Valid()
    modifies read, stream`input, stream`readPlan, stream`served
    ensures read.Valid()
    ensures r.Accepted? || r == BadStatus ==> IsVerdict(old(stream.input), HeaderEnd(e)) && e <= |old(stream.input)|
    ensures r.Accepted? ==>
              && read.start == 0 && read.Pending() + stream.input == old(stream.input)[e..]
              && StatusOk(old(stream.input), e)
              && r.lines == Lines(old(stream.input), LineEnds(old(stream.input), e))
    ensures r == BadStatus <==> Snubs(old(|read.buf|), old(stream.input), old(stream.readPlan))
    ensures r == Refused(HeadersTooLarge) ==> IsVerdict(old(stream.input), TooLarge)
    ensures r == Refused(Eof) ==> IsVerdict(old(stream.input), Unfinished)
    ensures r.Refused? ==> r.why != LimitReached && !r.why.Found?
    ensures r.Refused? ==> Fits(Searched(old(|read.buf|), old(stream.input), old(stream.readPlan)).1, r.why)
    ensures r.Accepted? <==> Welcomes(old(|read.buf|), old(stream.input), old(stream.readPlan))
    ensures r.Accepted? ==>
              read.IntakeOf(stream) == Behind(Searched(old(|read.buf|), old(stream.input), old(stream.readPlan)).0, e)
  {
    hide IsVerdict, HeaderScan.Consistent, LineEnds, Lines, StatusOk, AfterUntil;
    ghost var whole := stream.input;
    e := 0;
    read.Clear();
    assert read.Pending() + stream.input == whole;
    var scan := new HeaderScan();
    var found := ReadUntil(read, stream, scan);
    if !found.Found? {
      if found == HeadersTooLarge {
        OneHeaderEnd(whole, TooLarge);
      }
      return Refused(found), e;
    }
    e := found.end;
    AgreesWithWhole(read.Pending(), stream.input, e);
    OneHeaderEnd(whole, HeaderEnd(e));
    if !StatusOk(read.Pending(), found.end) {
      return BadStatus, e;
    }
    var lines := TakeHeader(read, stream.input, scan, found.end);
    return Accepted(lines), e;
  }

  /** The header is split into lines and consumed. */
  method TakeHeader(read: ReadBuf, ghost rest: bytes, scan: HeaderScan, e: nat) returns (lines: seq<bytes>)
    requires read.Valid() && e <= |read.Pending()| && scan.nLines <= scan.lineEnds.Length
    requires scan.lineEnds[..scan.nLines] == LineEnds(read.Pending(), e)
    modifies read
    ensures read.Valid() && read.start == 0 && read.end == old(read.end - read.start) - e && |read.buf| == old(|read.buf|)
    ensures read.Pending() + rest == old(read.Pending() + rest)[e..]
    ensures lines == Lines(old(read.Pending() + rest), LineEnds(old(read.Pending()), e))
  {
    hide LineEnds, Lines;
    ghost var data := read.Pending();
    lines := SplitLines(read.Pending(), scan.lineEnds, scan.nLines);
    LinesStable(data, rest, LineEnds(data, e));
    read.Consume(e);
    read.Compact();
    assert data[e..] + rest == (data + rest)[e..];
  }

  /** `HTTP/1.1 101` followed by a space or a line end. */
  predicate StatusOk(d: bytes, e: nat)
    requires IsVerdict(d, HeaderEnd(e)) && e <= |d|
  {
    StartsWith(d[..e], STATUS)
    && (StatusOctetInBounds(d, e); d[|STATUS|] == 32 || d[|STATUS|] == CR || d[|STATUS|] == LF)
  }

  /** What the buffer shows of the header is what the whole stream shows. */
  lemma AgreesWithWhole(d: bytes, more: bytes, e: nat)
    requires e <= |d| && IsVerdict(d + more, HeaderEnd(e))
    ensures IsVerdict(d, HeaderEnd(e)) && LineEnds(d + more, e) == LineEnds(d, e)
    ensures StatusOk(d + more, e) == StatusOk(d, e)
  {
    LineEndsStable(d, more, e);
    forall e' | e' <= e ensures BlankLineEnds(d, e') == BlankLineEnds(d + more, e') {
      BlankStable(d, more, e');
    }
    assert (d + more)[..e] == d[..e];
    if StartsWith(d[..e], STATUS) {
      StatusOctetInBounds(d, e);
    }
  }

  lemma {:induction false} LinesStable(d: bytes, more: bytes, ends: seq<nat>)
    requires Ordered(ends, |d|)
    ensures Ordered(ends, |d + more|) && Lines(d + more, ends) == Lines(d, ends)
  {
    hide Line;
    if ends != [] {
      var front, last := ends[..|ends| - 1], |ends| - 1;
      LinesStable(d, more, front);
      LineStable(d, more, if last == 0 then 0 else ends[last - 1] + 1, ends[last]);
    }
  }

  lemma LineStable(d: bytes, more: bytes, begin: nat, end: nat)
    requires begin <= end <= |d|
    ensures Line(d + more, begin, end) == Line(d, begin, end)
  {
    assert (d + more)[begin..end] == d[begin..end];
  }
}
