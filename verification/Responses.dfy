/**
 * Server responses written out: which sequences of lines are a header, which
 * status lines are accepted, and that a response arrives when its octets do.
 */
module Responses {
  import opened Bytes
  import opened Transport
  import opened ReadBuffer
  import opened Handshake

  /** Every line and its line feed; a carriage return before it is the last octet of the line. */
  function LinesText(lines: seq<bytes>): bytes {
    if lines == [] then [] else LinesText(lines[..|lines| - 1]) + lines[|lines| - 1] + [10]
  }

  /** Lines without a line feed, of which only the first may be blank. */
  predicate Proper(lines: seq<bytes>) {
    && (forall i | 0 <= i < |lines| :: 10 !in lines[i])
    && (forall i | 0 < i < |lines| :: lines[i] != [] && lines[i] != [13])
  }

  predicate Blank(line: bytes) {
    line == [] || line == [13]
  }

  /** `HTTP/1.1 101`, then nothing, or a space or carriage return and anything. */
  predicate SwitchingProtocols(line: bytes) {
    && |line| >= 12 && line[..12] == [72, 84, 84, 80, 47, 49, 46, 49, 32, 49, 48, 49]
    && (|line| == 12 || line[12] == 32 || line[12] == 13)
  }

  lemma LinesTextSnoc(lines: seq<bytes>, line: bytes)
    ensures LinesText(lines + [line]) == LinesText(lines) + line + [10]
  {
    assert (lines + [line])[..|lines|] == lines;
  }

  lemma ProperPrefix(lines: seq<bytes>)
    requires Proper(lines) && lines != []
    ensures Proper(lines[..|lines| - 1])
  {}

  /** The lines are counted, and none of them ends a header. */
  lemma {:induction false} LinesAreCounted(lines: seq<bytes>, rest: bytes)
    requires Proper(lines)
    ensures var t := LinesText(lines);
            && |LineEnds(t + rest, |t|)| == |lines|
            && (t != [] ==> t[|t| - 1] == 10) && (lines != [] ==> t != [])
            && forall k | k <= |t| :: !BlankLineEnds(t + rest, k)
    decreases |lines|
  {
    hide Proper;
    if lines != [] {
      var front, last := lines[..|lines| - 1], lines[|lines| - 1];
      var t, u := LinesText(lines), LinesText(front);
      ProperPrefix(lines);
      LinesAreCounted(front, last + [10] + rest);
      LastIsProper(lines);
      Lies(u, last, rest);
      OneLine(t + rest, |u|, |u| + |last|);
    }
  }

  lemma LastIsProper(lines: seq<bytes>)
    requires Proper(lines) && lines != []
    ensures 10 !in lines[|lines| - 1] && (|lines| > 1 ==> !Blank(lines[|lines| - 1]))
  {}

  /** One more line, from `begin` to its line feed. */
  lemma OneMoreLine(d: bytes, begin: nat, nl: nat)
    requires begin <= nl < |d| && d[nl] == 10 && forall k | begin <= k < nl :: d[k] != 10
    ensures LineEnds(d, nl + 1) == LineEnds(d, begin) + [nl]
    ensures forall k | begin < k <= nl :: !BlankLineEnds(d, k)
  {
    hide BlankLineEnds;
    SkipToLine(d, begin, nl);
    forall k | begin < k <= nl ensures !BlankLineEnds(d, k) {
      NotBehindLine(d, k);
    }
  }

  /** If a line ends before `begin`, the line behind it is blank or another of the header. */
  lemma OneLine(d: bytes, begin: nat, nl: nat)
    requires begin <= nl < |d| && d[nl] == 10 && 10 !in d[begin..nl] && (begin > 0 ==> d[begin - 1] == 10)
    requires forall k | k <= begin :: !BlankLineEnds(d, k)
    ensures LineEnds(d, nl + 1) == LineEnds(d, begin) + [nl]
    ensures forall k | k <= nl :: !BlankLineEnds(d, k)
    ensures BlankLineEnds(d, nl + 1) <==> begin > 0 && Blank(d[begin..nl]) && nl < 8192
  {
    hide BlankLineEnds, LineEnds;
    forall k | begin <= k < nl ensures d[k] != 10 {
      assert d[k] == d[begin..nl][k - begin];
    }
    OneMoreLine(d, begin, nl);
    if nl < Limit(d) {
      BlankAfter(d, if begin > 0 then Some(begin - 1) else None, begin, nl);
      assert nl == begin + 1 ==> d[begin..nl] == [d[begin]];
    } else {
      BeyondLimit(d, nl + 1);
    }
  }

  /** The octets of a line behind `u` lie where they should. */
  lemma Lies(u: bytes, line: bytes, rest: bytes)
    ensures var d, nl := u + line + [10] + rest, |u| + |line|;
            d[nl] == 10 && d[|u|..nl] == line && (u != [] ==> d[|u| - 1] == u[|u| - 1]) && d == u + (line + [10] + rest)
  {}

  lemma NotBehindLine(d: bytes, k: int)
    ensures 1 <= k <= |d| && d[k - 1] != LF ==> !BlankLineEnds(d, k)
  {}

  lemma BeyondLimit(d: bytes, k: int)
    ensures k > Limit(d) ==> !BlankLineEnds(d, k)
  {}

  /**
   * Header lines and a blank line: the header ends behind the blank line if it does
   * so within 8192 octets and 64 lines, and is too large otherwise.
   */
  lemma HeaderOfLines(lines: seq<bytes>, blank: bytes, rest: bytes)
    requires lines != [] && Proper(lines) && Blank(blank)
    ensures var t := LinesText(lines + [blank]);
            IsVerdict(t + rest, if |t| <= 8192 && |lines| + 1 <= 64 then HeaderEnd(|t|) else TooLarge)
  {
    hide BlankLineEnds, LineEnds, LinesText, Proper;
    var u, t := LinesText(lines), LinesText(lines + [blank]);
    LinesTextSnoc(lines, blank);
    var d, e := t + rest, |t|;
    LinesAreCounted(lines, blank + [10] + rest);
    Lies(u, blank, rest);
    OneLine(d, |u|, |u| + |blank|);
    if e > 8192 {
      forall k ensures !BlankLineEnds(d, k) {
        if k >= e { BeyondLimit(d, k); }
      }
    } else if |lines| + 1 > 64 {
      ManyLines(d, e);
    }
  }

  lemma ManyLines(d: bytes, e: nat)
    requires e <= Limit(d) && |LineEnds(d, e)| > 64 && forall k | k < e :: !BlankLineEnds(d, k)
    ensures IsVerdict(d, TooLarge)
  {
    hide LineEnds;
    LineEndsGrow(d, e, Limit(d));
    forall k | BlankLineEnds(d, k) ensures |LineEnds(d, k)| > 64 {
      LineEndsGrow(d, e, k);
    }
  }

  /** Lines without a blank one, and the beginning of another: the search goes on until 8192 octets or 65 lines. */
  lemma HeaderUnfinished(lines: seq<bytes>, part: bytes)
    requires Proper(lines) && 10 !in part
    ensures var d := LinesText(lines) + part;
            IsVerdict(d, Unfinished) <==> |d| < 8192 && |lines| <= 64
  {
    hide BlankLineEnds, LineEnds, LinesText, Proper;
    var u := LinesText(lines);
    var d := u + part;
    LinesAreCounted(lines, part);
    assert forall k | |u| <= k < |d| :: d[k] == part[k - |u|] && part[k - |u|] in part;
    SkipToLine(d, |u|, |d|);
    forall k ensures !BlankLineEnds(d, k) {
      if |u| < k <= |d| { NotBehindLine(d, k); }
      if k > |d| { BeyondLimit(d, k); }
    }
  }

  /** The status line decides, by its octets. */
  lemma StatusByOctets(lines: seq<bytes>, blank: bytes, rest: bytes)
    requires lines != [] && Proper(lines) && Blank(blank)
    requires var t := LinesText(lines + [blank]); |t| <= 8192 && |lines| + 1 <= 64
    ensures var t := LinesText(lines + [blank]);
            && IsVerdict(t + rest, HeaderEnd(|t|))
            && (StatusOk(t + rest, |t|) <==> SwitchingProtocols(lines[0]))
  {
    hide IsVerdict, LinesText;
    HeaderOfLines(lines, blank, rest);
    var t := LinesText(lines + [blank]);
    var d := t + rest;
    FirstLine(lines + [blank]);
    var s := lines[0];
    assert (lines + [blank])[0] == s;
    assert d[..|s|] == t[..|s|] == s && d[|s|] == 10;
    assert d[..|t|] == t;
    if |s| >= 12 {
      assert t[..12] == s[..12];
      assert |s| > 12 ==> d[12] == s[12];
    } else {
      assert STATUS[|s|] != 10;
      assert |t| >= 12 ==> t[..12][|s|] == 10;
    }
  }

  lemma {:induction false} FirstLine(lines: seq<bytes>)
    requires lines != []
    ensures var t, s := LinesText(lines), lines[0]; |s| < |t| && t[..|s|] == s && t[|s|] == 10
    decreases |lines|
  {
    var front, last := lines[..|lines| - 1], lines[|lines| - 1];
    if front == [] {
      assert LinesText(lines) == [] + last + [10];
    } else {
      FirstLine(front);
      assert LinesText(lines)[..|lines[0]|] == LinesText(front)[..|lines[0]|];
    }
  }

  /** A line without the carriage return at its end. */
  function Bare(line: bytes): bytes {
    if |line| > 0 && line[|line| - 1] == 13 then line[..|line| - 1] else line
  }

  /** The header is cut into just these lines, each without its line end. */
  lemma {:induction false} LinesAreCut(lines: seq<bytes>, rest: bytes)
    requires Proper(lines)
    ensures var d, n := LinesText(lines) + rest, |LinesText(lines)|;
            && Ordered(LineEnds(d, n), |d|)
            && |Lines(d, LineEnds(d, n))| == |lines|
            && (forall i | 0 <= i < |lines| :: Lines(d, LineEnds(d, n))[i] == Bare(lines[i]))
            && (if lines == [] then n == 0 else LineEnds(d, n) != [] && LineEnds(d, n)[|LineEnds(d, n)| - 1] == n - 1)
    decreases |lines|
  {
    hide Proper, Bare, Lines, Line, LineEnds, Ordered, BlankLineEnds;
    if lines == [] {
      NoLines(rest);
      assert [] + rest == rest;
      NoLineEnds(rest);
    } else {
      var front, last := lines[..|lines| - 1], lines[|lines| - 1];
      var u := LinesText(front);
      ProperPrefix(lines);
      LinesAreCut(front, last + [10] + rest);
      LastIsProper(lines);
      Lies(u, last, rest);
      OneMoreCut(u + last + [10] + rest, |u|, last, lines, front == []);
    }
  }

  lemma OneMoreCut(d: bytes, begin: nat, line: bytes, lines: seq<bytes>, first: bool)
    requires begin + |line| < |d| && d[begin + |line|] == 10 && d[begin..begin + |line|] == line && 10 !in line
    requires Ordered(LineEnds(d, begin), |d|) && |Lines(d, LineEnds(d, begin))| == |lines| - 1 && lines[|lines| - 1] == line
    requires forall i | 0 <= i < |lines| - 1 :: Lines(d, LineEnds(d, begin))[i] == Bare(lines[i])
    requires first <==> |lines| == 1
    requires first ==> begin == 0
    requires !first ==> LineEnds(d, begin) != [] && LineEnds(d, begin)[|LineEnds(d, begin)| - 1] == begin - 1
    ensures var n := begin + |line| + 1;
            && Ordered(LineEnds(d, n), |d|)
            && |Lines(d, LineEnds(d, n))| == |lines|
            && (forall i | 0 <= i < |lines| :: Lines(d, LineEnds(d, n))[i] == Bare(lines[i]))
            && LineEnds(d, n) == LineEnds(d, begin) + [n - 1]
  {
    hide Bare, Lines, Line, LineEnds, BlankLineEnds;
    var nl := begin + |line|;
    forall k | begin <= k < nl ensures d[k] != 10 {
      assert d[k] == line[k - begin];
    }
    OneMoreLine(d, begin, nl);
    if first { NoLineEnds(d); }
    LinesSnoc(d, LineEnds(d, begin), nl);
    LineIsBare(d, begin, line);
  }

  lemma NoLineEnds(d: bytes)
    ensures LineEnds(d, 0) == []
  {}

  lemma LineIsBare(d: bytes, begin: nat, line: bytes)
    requires begin + |line| <= |d| && d[begin..begin + |line|] == line
    ensures Line(d, begin, begin + |line|) == Bare(line)
  {}

  // ----- Arrival -----

  /** How much the reads may bring, whatever interrupts them. */
  function Volume(plan: seq<ReadEvent>): nat {
    if plan == [] then 0 else (if plan[0].Ready? then Max(plan[0].n, 1) else 0) + Volume(plan[1..])
  }

  predicate Flows(plan: seq<ReadEvent>) {
    forall e | e in plan :: e.Ready? || e == ReadInterrupted
  }

  /** A read brings all that its event has, unless there is no more or no more room. */
  lemma {:induction false} ReadBrings(r: Intake, now: seq<ReadEvent>, later: seq<ReadEvent>) returns (left: seq<ReadEvent>)
    requires r.plan == now + later && Flows(now) && Volume(now) > 0 && r.end < r.len && r.left > 0
    ensures var (a, f) := AfterRead(r);
            && f == Filled && a.end > r.end && a.left == r.left - (a.end - r.end)
            && a.plan == left + later && |left| < |now| && Flows(left)
            && (a.end == a.len || a.left == 0 || a.end - r.end + Volume(left) == Volume(now))
    decreases |now|
  {
    assert r.plan[0] == now[0] && now[0] in now && r.plan[1..] == now[1..] + later;
    assert forall e | e in now[1..] :: e in now;
    left := now[1..];
    if now[0] == ReadInterrupted {
      left := ReadBrings(r.(plan := r.plan[1..]), now[1..], later);
    }
  }

  /** The search is over once the header is at hand, and not before. */
  lemma EndsWithHeader(w: bytes, e: nat, k: nat)
    requires IsVerdict(w, HeaderEnd(e)) && e <= k <= |w|
    ensures Ends(w[..k])
  {
    hide IsVerdict, LineEnds, StatusOk;
    assert w == w[..k] + w[k..];
    AgreesWithWhole(w[..k], w[k..], e);
    OneHeaderEnd(w[..k], HeaderEnd(e));
    if IsVerdict(w[..k], Unfinished) {
      VerdictIsUnique(w[..k], Unfinished, HeaderEnd(e));
    }
  }

  lemma {:induction false} SearchSucceeds(r: Intake, w: bytes, e: nat, now: seq<ReadEvent>, later: seq<ReadEvent>)
    requires IsVerdict(w, HeaderEnd(e)) && e <= 8192 && e <= |w|
    requires r.start == 0 && r.end < e && r.len >= 8192 && r.left == |w| - r.end
    requires r.plan == now + later && Flows(now) && Volume(now) >= e - r.end
    ensures AfterSearch(r, w).1 == Filled
    decreases |now|
  {
    hide IsVerdict, Ends, AfterRead;
    var left := ReadBrings(r, now, later);
    var (next, f) := AfterRead(r);
    if next.end >= e {
      EndsWithHeader(w, e, Min(next.end, |w|));
    } else if !Ends(w[..Min(next.end, |w|)]) {
      SearchSucceeds(next, w, e, left, later);
    }
  }

  /**
   * An ordinary response, whatever follows it, is accepted if the reads bring it, in
   * however many pieces and interruptions, and refused if its status line is another.
   * `now` are the reads that bring it; what comes later does not matter.
   */
  lemma ResponseIsAnswered(lines: seq<bytes>, blank: bytes, rest: bytes, len: nat, now: seq<ReadEvent>, later: seq<ReadEvent>)
    requires lines != [] && Proper(lines) && Blank(blank)
    requires var t := LinesText(lines + [blank]);
             |t| <= 8192 && |lines| + 1 <= 64 && Flows(now) && Volume(now) >= |t|
    ensures var t := LinesText(lines + [blank]);
            && Searched(len, t + rest, now + later).1 == Filled && IsVerdict(t + rest, HeaderEnd(|t|))
            && (Welcomes(len, t + rest, now + later) <==> SwitchingProtocols(lines[0]))
            && (Snubs(len, t + rest, now + later) <==> !SwitchingProtocols(lines[0]))
  {
    hide IsVerdict, LinesText, StatusOk, AfterSearch;
    var t := LinesText(lines + [blank]);
    var w := t + rest;
    StatusByOctets(lines, blank, rest);
    OneHeaderEnd(w, HeaderEnd(|t|));
    FirstLine(lines + [blank]);
    SearchSucceeds(Intake(0, 0, Grown(len, 0, MAX_HEADER), |w|, now + later), w, |t|, now, later);
  }
}
