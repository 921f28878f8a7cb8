/**
 * Text of a tab-separated state file: escaping, decimal numbers, lines and
 * fields, each with what undoes it.
 */
module Tsv {
  import opened Bytes

  // ----- Escaping -----

  /** `str::replace` of one character. */
  function Replace(s: string, c: char, with: string): string {
    if s == "" then "" else (if s[0] == c then with else [s[0]]) + Replace(s[1..], c, with)
  }

  /** `escape_tsv` */
  function Escape(s: string): string {
    Replace(Replace(Replace(Replace(s, '\\', "\\\\"), '\t', "\\t"), '\n', "\\n"), '\r', "\\r")
  }

  /** What `unescape_tsv` makes of the character after a backslash. */
  function Unescaped(c: char): string {
    match c
    case '\\' => "\\"
    case 't' => "\t"
    case 'n' => "\n"
    case 'r' => "\r"
    case _ => ['\\', c]
  }

  function Unescape(s: string): string {
    if s == "" then ""
    else if s[0] != '\\' then [s[0]] + Unescape(s[1..])
    else if |s| == 1 then "\\"
    else Unescaped(s[1]) + Unescape(s[2..])
  }

  /** The text from `i` on, one character or escape sequence shorter. */
  lemma UnescapeAt(s: string, i: nat)
    requires i < |s|
    ensures Unescape(s[i..]) ==
            if s[i] != '\\' then [s[i]] + Unescape(s[i + 1..])
            else if i + 1 == |s| then "\\"
            else Unescaped(s[i + 1]) + Unescape(s[i + 2..])
  {
    var rest := s[i..];
    assert rest[1..] == s[i + 1..];
    if |rest| > 1 {
      assert rest[2..] == s[i + 2..];
    }
  }

  /** `unescape_tsv`: one pass over the characters. */
  method UnescapeLoop(s: string) returns (out: string)
    ensures out == Unescape(s)
  {
    hide Unescape, Unescaped;
    out := "";
    var i := 0;
    ghost var left := Unescape(s);     // what is still to come
    assert s[0..] == s;
    while i < |s|
      invariant 0 <= i <= |s| && left == Unescape(s[i..]) && out + left == Unescape(s)
    {
      var c := s[i];
      UnescapeAt(s, i);
      i := i + 1;
      if c == '\\' {
        if i < |s| {
          out := PushUnescaped(out, s[i]);
          i := i + 1;
          left := Unescape(s[i..]);
        } else {
          out := out + "\\";
          left := Unescape(s[i..]);
          UnescapeNothing(s[i..]);
        }
      } else {
        out := out + [c];
        left := Unescape(s[i..]);
      }
    }
    UnescapeNothing(s[i..]);
  }

  lemma UnescapeNothing(s: string)
    ensures s == "" ==> Unescape(s) == ""
  {}

  method PushUnescaped(soFar: string, c: char) returns (out: string)
    ensures out == soFar + Unescaped(c)
  {
    match c {
      case '\\' => out := soFar + ['\\'];
      case 't' => out := soFar + ['\t'];
      case 'n' => out := soFar + ['\n'];
      case 'r' => out := soFar + ['\r'];
      case other =>
        out := soFar + ['\\'];
        out := out + [other];
    }
  }

  lemma {:induction false} ReplaceJoins(s: string, t: string, c: char, with: string)
    ensures Replace(s + t, c, with) == Replace(s, c, with) + Replace(t, c, with)
  {
    if s == "" {
      assert s + t == t;
    } else {
      assert (s + t)[1..] == s[1..] + t;
      ReplaceJoins(s[1..], t, c, with);
    }
  }

  lemma EscapeJoins(s: string, t: string)
    ensures Escape(s + t) == Escape(s) + Escape(t)
  {
    hide Replace;
    var s1, t1 := Replace(s, '\\', "\\\\"), Replace(t, '\\', "\\\\");
    var s2, t2 := Replace(s1, '\t', "\\t"), Replace(t1, '\t', "\\t");
    var s3, t3 := Replace(s2, '\n', "\\n"), Replace(t2, '\n', "\\n");
    ReplaceJoins(s, t, '\\', "\\\\");
    ReplaceJoins(s1, t1, '\t', "\\t");
    ReplaceJoins(s2, t2, '\n', "\\n");
    ReplaceJoins(s3, t3, '\r', "\\r");
  }

  lemma ReplaceOne(d: char, c: char, with: string)
    ensures Replace([d], c, with) == if d == c then with else [d]
  {
    assert [d][1..] == "";
  }

  lemma ReplaceTwo(d: char, e: char, c: char, with: string)
    requires d != c && e != c
    ensures Replace([d, e], c, with) == [d, e]
  {
    assert [d, e] == [d] + [e];
    ReplaceJoins([d], [e], c, with);
    ReplaceOne(d, c, with);
    ReplaceOne(e, c, with);
  }

  /** The chain of replacements leaves every escape sequence alone once it is made. */
  lemma EscapeOne(c: char)
    ensures Escape([c]) ==
            if c == '\\' then "\\\\" else if c == '\t' then "\\t" else if c == '\n' then "\\n"
            else if c == '\r' then "\\r" else [c]
  {
    hide Replace;
    ReplaceOne(c, '\\', "\\\\");
    ReplaceOne(c, '\t', "\\t");
    ReplaceOne(c, '\n', "\\n");
    ReplaceOne(c, '\r', "\\r");
    ReplaceTwo('\\', '\\', '\t', "\\t");
    ReplaceTwo('\\', '\\', '\n', "\\n");
    ReplaceTwo('\\', '\\', '\r', "\\r");
    ReplaceTwo('\\', 't', '\n', "\\n");
    ReplaceTwo('\\', 't', '\r', "\\r");
    ReplaceTwo('\\', 'n', '\r', "\\r");
  }

  /** Unescaping undoes escaping, and escaped text has no tab and no line break. */
  lemma {:induction false} EscapeRoundTrips(s: string)
    ensures Unescape(Escape(s)) == s
    ensures '\t' !in Escape(s) && '\n' !in Escape(s) && '\r' !in Escape(s)
  {
    hide Replace;
    if s == "" {
      EscapeNothing();
    } else {
      var e, rest := Escape([s[0]]), Escape(s[1..]);
      EscapeRoundTrips(s[1..]);
      EscapeOne(s[0]);
      assert s == [s[0]] + s[1..];
      EscapeJoins([s[0]], s[1..]);
      assert (e + rest)[|e|..] == rest;
    }
  }

  lemma EscapeNothing()
    ensures Escape("") == ""
  {}

  // ----- Numbers -----

  const U64_LIMIT: nat := 0x1_0000_0000_0000_0000

  type u64 = n: nat | n < U64_LIMIT

  function DigitChar(n: nat): char
    requires n < 10
  {
    "0123456789"[n]
  }

  predicate IsDigit(c: char) {
    '0' <= c <= '9'
  }

  /** How an integer is displayed. */
  function Decimal(n: nat): (s: string)
    ensures s != "" && forall c | c in s :: IsDigit(c)
  {
    if n < 10 then [DigitChar(n)] else Decimal(n / 10) + [DigitChar(n % 10)]
  }

  function DecimalValue(s: string): Option<nat> {
    if s == "" then Some(0)
    else
      match DecimalValue(s[..|s| - 1])
      case None => None
      case Some(high) =>
        var c := s[|s| - 1];
        if IsDigit(c) then Some(10 * high + (c as int - '0' as int)) else None
  }

  /** `str::parse::<u64>`: an optional plus sign, digits, no overflow. */
  function ParseU64(s: string): Option<u64> {
    var ds := if s != "" && s[0] == '+' then s[1..] else s;
    if ds == "" then None
    else
      match DecimalValue(ds)
      case None => None
      case Some(v) => if v < U64_LIMIT then Some(v) else None
  }

  lemma DigitReads(n: nat)
    requires n < 10
    ensures IsDigit(DigitChar(n)) && DigitChar(n) as int - '0' as int == n
  {}

  lemma {:induction false} DecimalReads(n: nat)
    ensures DecimalValue(Decimal(n)) == Some(n)
  {
    var s := Decimal(n);
    DigitReads(n % 10);
    if n < 10 {
      assert s[..|s| - 1] == "";
    } else {
      DecimalReads(n / 10);
      assert s[..|s| - 1] == Decimal(n / 10);
    }
  }

  lemma NumberRoundTrips(n: u64)
    ensures ParseU64(Decimal(n)) == Some(n)
  {
    DecimalReads(n);
    assert Decimal(n)[0] in Decimal(n);
  }

  // ----- Numbers by their table -----

  /** The digits write `n` to base 10. */
  predicate Writes(ds: string, n: nat) {
    if ds == "" then n == 0 else ds[|ds| - 1] == "0123456789"[n % 10] && Writes(ds[..|ds| - 1], n / 10)
  }

  lemma DigitByTable(c: char, d: nat)
    requires d < 10
    ensures (IsDigit(c) && c as int - '0' as int == d) <==> c == "0123456789"[d]
  {}

  lemma {:induction false} ValueIffWrites(ds: string, n: nat)
    ensures DecimalValue(ds) == Some(n) <==> Writes(ds, n)
    decreases |ds|
  {
    if ds != "" {
      var front, last := ds[..|ds| - 1], ds[|ds| - 1];
      DigitByTable(last, n % 10);
      ValueIffWrites(front, n / 10);
    }
  }

  lemma {:induction false} SignWritesNothing(ds: string, n: nat)
    requires Writes(ds, n)
    ensures '+' !in ds
  {
    if ds != "" {
      DigitByTable(ds[|ds| - 1], n % 10);
      SignWritesNothing(ds[..|ds| - 1], n / 10);
      assert ds == ds[..|ds| - 1] + [ds[|ds| - 1]];
    }
  }

  /** A text parses as `n` exactly if it writes it: perhaps a plus sign, digits, at most 64 bits. */
  lemma ParsesIffWritten(s: string, n: nat)
    ensures ParseU64(s) == Some(n) <==>
              n < 18446744073709551616 && exists ds | ds != "" && Writes(ds, n) :: s == ds || s == "+" + ds
  {
    hide Writes;
    var ds := if s != "" && s[0] == '+' then s[1..] else s;
    ValueIffWrites(ds, n);
    forall es | es != "" && Writes(es, n) && (s == es || s == "+" + es) ensures es == ds {
      SignWritesNothing(es, n);
      assert es[0] in es;
    }
    assert s == ds || s == "+" + ds;
  }

  /** A number is displayed by digits that write it, without a leading zero. */
  lemma {:induction false} DecimalWrites(n: nat)
    ensures Writes(Decimal(n), n) && (n > 0 ==> Decimal(n)[0] != '0')
  {
    var s := Decimal(n);
    if n < 10 {
      assert s[..0] == "";
    } else {
      DecimalWrites(n / 10);
      assert s[..|s| - 1] == Decimal(n / 10);
    }
  }

  // ----- Lines and fields -----

  function Find(s: string, c: char): (r: Option<nat>)
    ensures r.Some? ==> r.value < |s| && s[r.value] == c && c !in s[..r.value]
    ensures r.None? ==> c !in s
  {
    if s == "" then None
    else if s[0] == c then Some(0)
    else
      match Find(s[1..], c)
      case None => None
      case Some(k) => assert s[..k + 1] == [s[0]] + s[1..][..k]; Some(k + 1)
  }

  lemma FindAfter(a: string, c: char, rest: string)
    requires c !in a
    ensures Find(a + [c] + rest, c) == Some(|a|)
  {
    var s := a + [c] + rest;
    assert s[|a|] == c;
    assert forall k | |a| < k <= |s| :: s[..k][|a|] == c;
  }

  /** A line as `str::lines` yields it once its line feed is gone. */
  function StripCr(s: string): string {
    if s != "" && s[|s| - 1] == '\r' then s[..|s| - 1] else s
  }

  /** `str::lines`: a last line without a line feed is kept as it is. */
  function Lines(s: string): seq<string>
    decreases |s|
  {
    if s == "" then []
    else
      match Find(s, '\n')
      case None => [s]
      case Some(k) => [StripCr(s[..k])] + Lines(s[k + 1..])
  }

  /** A line without the carriage return at its end. */
  function Bare(line: string): string {
    if |line| > 0 && line[|line| - 1] == '\r' then line[..|line| - 1] else line
  }

  function BareAll(lines: seq<string>): seq<string> {
    if lines == [] then [] else [Bare(lines[0])] + BareAll(lines[1..])
  }

  /** Each line ended by a line feed. */
  function Unlines(lines: seq<string>): string {
    if lines == [] then "" else lines[0] + "\n" + Unlines(lines[1..])
  }

  lemma LinesStep(line: string, rest: string)
    requires '\n' !in line
    ensures Lines(line + "\n" + rest) == [Bare(line)] + Lines(rest)
  {
    var s := line + "\n" + rest;
    FindAfter(line, '\n', rest);
    assert s[..|line|] == line && s[|line| + 1..] == rest;
  }

  /** Behind the last line feed there is another line, unless there is nothing. */
  lemma LastLine(last: string)
    requires '\n' !in last
    ensures Lines(last) == if last == "" then [] else [last]
  {}

  /**
   * Lines ended by line feeds, perhaps with a carriage return before, and what is
   * behind the last line feed: a line of its own if it is not empty, kept as it is.
   */
  lemma {:induction false} LinesOfText(lines: seq<string>, last: string)
    requires (forall l | l in lines :: '\n' !in l) && '\n' !in last
    ensures Lines(Unlines(lines) + last) == BareAll(lines) + if last == "" then [] else [last]
  {
    hide Lines, Bare;
    if lines == [] {
      assert Unlines(lines) + last == last;
      LastLine(last);
    } else {
      var l, rest := lines[0], Unlines(lines[1..]);
      assert l in lines;
      LinesOfText(lines[1..], last);
      LinesStep(l, rest + last);
      assert Unlines(lines) + last == l + "\n" + (rest + last);
    }
  }

  /** `splitn(n, '\t')` */
  function SplitTabs(s: string, n: nat): seq<string>
    requires n > 0
    decreases n
  {
    match Find(s, '\t')
    case None => [s]
    case Some(k) => if n == 1 then [s] else [s[..k]] + SplitTabs(s[k + 1..], n - 1)
  }

  /** Fields joined by tabs. */
  function Join(fields: seq<string>): string
    requires fields != []
  {
    if |fields| == 1 then fields[0] else fields[0] + "\t" + Join(fields[1..])
  }

  lemma SplitStep(field: string, rest: string, n: nat)
    requires '\t' !in field && n > 1
    ensures SplitTabs(field + "\t" + rest, n) == [field] + SplitTabs(rest, n - 1)
  {
    var s := field + "\t" + rest;
    FindAfter(field, '\t', rest);
    assert s[..|field|] == field && s[|field| + 1..] == rest;
  }

  lemma NoTab(field: string, n: nat)
    requires '\t' !in field && n > 0
    ensures SplitTabs(field, n) == [field]
  {}

  lemma {:induction false} SplitUndoesJoin(fields: seq<string>, n: nat)
    requires fields != [] && |fields| <= n && forall f | f in fields :: '\t' !in f
    ensures SplitTabs(Join(fields), n) == fields
    decreases |fields|
  {
    hide Find, SplitTabs;
    assert fields[0] in fields;
    if |fields| == 1 {
      NoTab(fields[0], n);
    } else {
      SplitStep(fields[0], Join(fields[1..]), n);
      SplitUndoesJoin(fields[1..], n - 1);
      assert fields == [fields[0]] + fields[1..];
    }
  }

  lemma LastField(rest: string)
    ensures SplitTabs(rest, 1) == [rest]
  {}

  /** Tabs beyond the last of `n` fields stay in it. */
  lemma {:induction false} SplitKeepsRest(fields: seq<string>, rest: string, n: nat)
    requires |fields| + 1 == n && forall f | f in fields :: '\t' !in f
    ensures SplitTabs(Join(fields + [rest]), n) == fields + [rest]
    decreases |fields|
  {
    hide Find, SplitTabs;
    if fields == [] {
      LastField(rest);
    } else {
      assert fields[0] in fields && (fields + [rest])[1..] == fields[1..] + [rest];
      SplitStep(fields[0], Join(fields[1..] + [rest]), n);
      SplitKeepsRest(fields[1..], rest, n - 1);
    }
  }

  function StripPrefix(s: string, prefix: string): Option<string> {
    if |prefix| <= |s| && s[..|prefix|] == prefix then Some(s[|prefix|..]) else None
  }

  /** `strip_prefix(..).and_then(parse)` */
  function NumberField(s: string, prefix: string): Option<u64> {
    match StripPrefix(s, prefix)
    case None => None
    case Some(digits) => ParseU64(digits)
  }

  /** A field has a number exactly if it is the prefix and a text that parses as it. */
  lemma NumberFieldIff(s: string, prefix: string, n: u64)
    ensures NumberField(s, prefix) == Some(n) <==> exists digits :: s == prefix + digits && ParseU64(digits) == Some(n)
  {
    forall digits | s == prefix + digits ensures s[..|prefix|] == prefix && s[|prefix|..] == digits {}
    if |prefix| <= |s| && s[..|prefix|] == prefix {
      assert s == prefix + s[|prefix|..];
    }
  }

  lemma NumberFieldReads(prefix: string, n: u64)
    ensures NumberField(prefix + Decimal(n), prefix) == Some(n)
  {
    var s := prefix + Decimal(n);
    assert s[..|prefix|] == prefix && s[|prefix|..] == Decimal(n);
    NumberRoundTrips(n);
  }
}
