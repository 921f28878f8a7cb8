/**
 * Loading and saving the bot's state as text: what is saved is loaded back
 * whole, and equal states are saved as the same text.
 */
module StateFile {
  import opened Bytes
  import opened Tsv

  datatype ManagedMsg = ManagedMsg(messageId: u64, channelId: u64, contentHash: u64)

  datatype State = State(managed: map<string, ManagedMsg>, channels: map<string, u64>, roles: map<string, u64>)

  const EMPTY := State(map[], map[], map[])
  const VERSION := "# version: 1"

  // ----- Reading -----

  function LoadMessage(s: State, name: string, msgId: string, chId: string, hash: string): State {
    match (NumberField(msgId, "msg_id:"), NumberField(chId, "ch_id:"), NumberField(hash, "hash:"))
    case (Some(m), Some(c), Some(h)) => s.(managed := s.managed[Unescape(name) := ManagedMsg(m, c, h)])
    case _ => s
  }

  /** A line that is not an entry is skipped; a later entry for the same name replaces an earlier one. */
  function LoadLine(s: State, line: string): State {
    var parts := SplitTabs(line, 5);
    if |parts| == 5 && parts[0] == "MESSAGE" then LoadMessage(s, parts[1], parts[2], parts[3], parts[4])
    else if |parts| == 3 && parts[0] == "CHANNEL" then
      match NumberField(parts[2], "ch_id:")
      case Some(id) => s.(channels := s.channels[Unescape(parts[1]) := id])
      case None => s
    else if |parts| == 3 && parts[0] == "ROLE" then
      match NumberField(parts[2], "role_id:")
      case Some(id) => s.(roles := s.roles[Unescape(parts[1]) := id])
      case None => s
    else s
  }

  function LoadLines(s: State, lines: seq<string>): State
    decreases |lines|
  {
    if lines == [] then s else LoadLines(LoadLine(s, lines[0]), lines[1..])
  }

  function LoadText(text: string): State {
    LoadLines(EMPTY, Lines(text))
  }

  /** `load`; `file` is the content of the file if it could be read. */
  method Load(file: Option<string>) returns (s: State)
    ensures s == if file.None? then EMPTY else LoadText(file.value)
  {
    hide NumberField, Unescape, SplitTabs, Lines;
    var managed: map<string, ManagedMsg>, channels: map<string, u64>, roles: map<string, u64> := map[], map[], map[];
    if file.Some? {
      var lines := Lines(file.value);
      var i := 0;
      while i < |lines|
        invariant 0 <= i <= |lines|
        invariant LoadLines(State(managed, channels, roles), lines[i..]) == LoadLines(EMPTY, lines)
      {
        assert lines[i..][0] == lines[i] && lines[i..][1..] == lines[i + 1..];
        var parts := SplitTabs(lines[i], 5);
        if |parts| == 5 && parts[0] == "MESSAGE" {
          var msgId, chId := NumberField(parts[2], "msg_id:"), NumberField(parts[3], "ch_id:");
          var hash := NumberField(parts[4], "hash:");
          if msgId.Some? && chId.Some? && hash.Some? {
            var name := UnescapeLoop(parts[1]);
            managed := managed[name := ManagedMsg(msgId.value, chId.value, hash.value)];
          }
        } else if |parts| == 3 && parts[0] == "CHANNEL" {
          var id := NumberField(parts[2], "ch_id:");
          if id.Some? {
            var name := UnescapeLoop(parts[1]);
            channels := channels[name := id.value];
          }
        } else if |parts| == 3 && parts[0] == "ROLE" {
          var id := NumberField(parts[2], "role_id:");
          if id.Some? {
            var name := UnescapeLoop(parts[1]);
            roles := roles[name := id.value];
          }
        }
        i := i + 1;
      }
    }
    s := State(managed, channels, roles);
  }

  // ----- Sorted keys -----

  /** The order of strings by their characters, which is that of their UTF-8 octets. */
  predicate Less(a: string, b: string) {
    b != "" && (a == "" || a[0] < b[0] || (a[0] == b[0] && Less(a[1..], b[1..])))
  }

  lemma {:induction false} LessIsStrict(a: string, b: string)
    ensures !(Less(a, b) && Less(b, a)) && (Less(a, b) || Less(b, a) || a == b)
    ensures a == b ==> !Less(a, b)
  {
    if a != "" && b != "" && a[0] == b[0] {
      LessIsStrict(a[1..], b[1..]);
      assert a == [a[0]] + a[1..] && b == [b[0]] + b[1..];
    }
  }

  lemma {:induction false} LessIsTransitive(a: string, b: string, c: string)
    requires Less(a, b) && Less(b, c)
    ensures Less(a, c)
  {
    if a != "" && a[0] == b[0] == c[0] {
      LessIsTransitive(a[1..], b[1..], c[1..]);
    }
  }

  predicate Sorted(ks: seq<string>) {
    forall i, j | 0 <= i < j < |ks| :: Less(ks[i], ks[j])
  }

  /** All the keys, in order. */
  ghost predicate Listing(ks: seq<string>, keys: set<string>) {
    Sorted(ks) && forall k :: k in ks <==> k in keys
  }

  function Insert(ks: seq<string>, k: string): seq<string> {
    if ks == [] || Less(k, ks[0]) then [k] + ks else [ks[0]] + Insert(ks[1..], k)
  }

  lemma {:induction false} InsertKeepsSorted(ks: seq<string>, k: string)
    requires Sorted(ks) && k !in ks
    ensures Sorted(Insert(ks, k)) && forall x :: x in Insert(ks, k) <==> x in ks || x == k
  {
    var r := Insert(ks, k);
    if ks == [] {
      assert r == [k];
    } else if Less(k, ks[0]) {
      forall j | 0 < j < |r| ensures Less(r[0], r[j]) {
        if j > 1 { LessIsTransitive(k, ks[0], ks[j - 1]); }
      }
    } else {
      InsertKeepsSorted(ks[1..], k);
      LessIsStrict(k, ks[0]);
      var rest := Insert(ks[1..], k);
      forall j | 0 < j < |r| ensures Less(r[0], r[j]) {
        assert r[j] == rest[j - 1] && rest[j - 1] in rest;
      }
    }
  }

  /** There is only one listing of the same keys. */
  lemma {:induction false} ListingIsUnique(a: seq<string>, b: seq<string>, keys: set<string>)
    requires Listing(a, keys) && Listing(b, keys)
    ensures a == b
  {
    if a == [] {
      if b != [] { FirstIsKey(b, keys); }
    } else {
      assert a[0] in a && a[0] in b && b != [] && b[0] in b && b[0] in a;
      LessIsStrict(a[0], b[0]);
      RestIsListing(a, keys);
      RestIsListing(b, keys);
      ListingIsUnique(a[1..], b[1..], keys - {a[0]});
    }
  }

  lemma FirstIsKey(a: seq<string>, keys: set<string>)
    requires Listing(a, keys) && a != []
    ensures a[0] in keys
  {
    assert a[0] in a;
  }

  lemma RestIsListing(a: seq<string>, keys: set<string>)
    requires Listing(a, keys) && a != []
    ensures Listing(a[1..], keys - {a[0]})
  {
    forall k ensures k in a[1..] <==> k in keys - {a[0]} {
      LessIsStrict(a[0], k);
      if k in a[1..] {
        var i :| 0 <= i < |a[1..]| && a[1..][i] == k;
        assert Less(a[0], a[i + 1]);
      }
    }
  }

  /** The keys in whatever order the map gives them, collected and sorted. */
  method SortedKeys(keys: set<string>) returns (ks: seq<string>)
    ensures Listing(ks, keys)
  {
    ks := [];
    var left := keys;
    while left != {}
      invariant left <= keys && Listing(ks, keys - left)
      decreases left
    {
      var k :| k in left;
      InsertKeepsSorted(ks, k);
      ks := Insert(ks, k);
      left := left - {k};
    }
    assert keys - left == keys;
  }

  // ----- Writing -----

  function MessageLine(name: string, m: ManagedMsg): string {
    "MESSAGE\t" + Escape(name) + "\tmsg_id:" + Decimal(m.messageId) + "\tch_id:" + Decimal(m.channelId)
    + "\thash:" + Decimal(m.contentHash)
  }

  function ChannelLine(name: string, id: u64): string {
    "CHANNEL\t" + Escape(name) + "\tch_id:" + Decimal(id)
  }

  function RoleLine(name: string, id: u64): string {
    "ROLE\t" + Escape(name) + "\trole_id:" + Decimal(id)
  }

  function MessageLines(ks: seq<string>, m: map<string, ManagedMsg>): seq<string>
    requires forall k | k in ks :: k in m
  {
    seq(|ks|, i requires 0 <= i < |ks| => MessageLine(ks[i], m[ks[i]]))
  }

  function ChannelLines(ks: seq<string>, m: map<string, u64>): seq<string>
    requires forall k | k in ks :: k in m
  {
    seq(|ks|, i requires 0 <= i < |ks| => ChannelLine(ks[i], m[ks[i]]))
  }

  function RoleLines(ks: seq<string>, m: map<string, u64>): seq<string>
    requires forall k | k in ks :: k in m
  {
    seq(|ks|, i requires 0 <= i < |ks| => RoleLine(ks[i], m[ks[i]]))
  }

  lemma {:induction false} UnlinesSnoc(lines: seq<string>, line: string)
    ensures Unlines(lines + [line]) == Unlines(lines) + line + "\n"
  {
    if lines == [] {
      assert [line][1..] == [] && lines + [line] == [line];
    } else {
      assert (lines + [line])[1..] == lines[1..] + [line];
      UnlinesSnoc(lines[1..], line);
    }
  }

  predicate CleanLine(line: string) {
    '\n' !in line && (line != "" ==> line[|line| - 1] != '\r')
  }

  lemma LinesUndoUnlines(lines: seq<string>)
    requires forall line | line in lines :: CleanLine(line)
    ensures Lines(Unlines(lines)) == lines
  {
    hide Lines, Unlines;
    LinesOfText(lines, "");
    assert Unlines(lines) + "" == Unlines(lines);
    CleanIsBare(lines);
  }

  lemma {:induction false} CleanIsBare(lines: seq<string>)
    requires forall line | line in lines :: CleanLine(line)
    ensures BareAll(lines) == lines
  {
    if lines != [] {
      assert lines[0] in lines;
      CleanIsBare(lines[1..]);
    }
  }

  // ----- One line -----

  predicate CleanField(f: string) {
    '\t' !in f && '\n' !in f
  }

  lemma NameIsClean(s: string)
    ensures CleanField(Escape(s)) && Unescape(Escape(s)) == s
  {
    EscapeRoundTrips(s);
  }

  lemma NumberIsClean(prefix: string, n: u64)
    requires CleanField(prefix)
    ensures var f := prefix + Decimal(n);
            CleanField(f) && f != "" && f[|f| - 1] != '\r' && NumberField(f, prefix) == Some(n)
  {
    var d := Decimal(n);
    assert d[|d| - 1] in d;
    NumberFieldReads(prefix, n);
  }

  /** Clean fields make one line, which splits into them again. */
  lemma {:induction false} FieldsMakeLine(fields: seq<string>)
    requires fields != [] && forall f | f in fields :: CleanField(f)
    requires var last := fields[|fields| - 1]; last != "" && last[|last| - 1] != '\r'
    ensures var line := Join(fields); CleanLine(line) && line != "" && line[|line| - 1] != '\r'
    ensures |fields| <= 5 ==> SplitTabs(Join(fields), 5) == fields
  {
    hide Find, SplitTabs;
    assert fields[0] in fields;
    if |fields| > 1 {
      FieldsMakeLine(fields[1..]);
    }
    if |fields| <= 5 {
      SplitUndoesJoin(fields, 5);
    }
  }

  lemma JoinFront(a: string, fields: seq<string>)
    requires fields != []
    ensures Join([a] + fields) == a + "\t" + Join(fields)
  {
    assert ([a] + fields)[1..] == fields;
  }

  lemma JoinThree(a: string, b: string, c: string)
    ensures Join([a, b, c]) == a + "\t" + b + "\t" + c
  {
    JoinFront(b, [c]);
    JoinFront(a, [b, c]);
    assert [b] + [c] == [b, c] && [a] + [b, c] == [a, b, c];
  }

  lemma JoinFive(a: string, b: string, c: string, d: string, e: string)
    ensures Join([a, b, c, d, e]) == a + "\t" + b + "\t" + c + "\t" + d + "\t" + e
  {
    hide Join;
    JoinThree(c, d, e);
    JoinFront(b, [c, d, e]);
    JoinFront(a, [b, c, d, e]);
    assert [b] + [c, d, e] == [b, c, d, e] && [a] + [b, c, d, e] == [a, b, c, d, e];
    Associate(a + "\t", b + "\t", c + "\t" + d + "\t" + e);
    assert a + "\t" + b + "\t" + (c + "\t" + d + "\t" + e) == a + "\t" + b + "\t" + c + "\t" + d + "\t" + e;
  }

  lemma MessageReads(s: State, name: string, m: ManagedMsg)
    ensures CleanLine(MessageLine(name, m))
    ensures LoadLine(s, MessageLine(name, m)) == s.(managed := s.managed[name := m])
  {
    hide Escape, Unescape, Decimal, Join, NumberField, SplitTabs;
    var e := Escape(name);
    var f1, f2, f3 := "msg_id:" + Decimal(m.messageId), "ch_id:" + Decimal(m.channelId), "hash:" + Decimal(m.contentHash);
    NameIsClean(name);
    NumberIsClean("msg_id:", m.messageId);
    NumberIsClean("ch_id:", m.channelId);
    NumberIsClean("hash:", m.contentHash);
    FieldsMakeLine(["MESSAGE", e, f1, f2, f3]);
    JoinFive("MESSAGE", e, f1, f2, f3);
    MessageLineIsJoined(e, Decimal(m.messageId), Decimal(m.channelId), Decimal(m.contentHash));
  }

  lemma MessageLineIsJoined(e: string, x: string, y: string, z: string)
    ensures "MESSAGE\t" + e + "\tmsg_id:" + x + "\tch_id:" + y + "\thash:" + z
         == "MESSAGE" + "\t" + e + "\t" + ("msg_id:" + x) + "\t" + ("ch_id:" + y) + "\t" + ("hash:" + z)
  {}

  lemma ChannelReads(s: State, name: string, id: u64)
    ensures CleanLine(ChannelLine(name, id))
    ensures LoadLine(s, ChannelLine(name, id)) == s.(channels := s.channels[name := id])
  {
    hide Escape, Unescape, Decimal, Join, NumberField, SplitTabs;
    var e, f := Escape(name), "ch_id:" + Decimal(id);
    NameIsClean(name);
    NumberIsClean("ch_id:", id);
    FieldsMakeLine(["CHANNEL", e, f]);
    JoinThree("CHANNEL", e, f);
    assert ChannelLine(name, id) == "CHANNEL" + "\t" + e + "\t" + f;
  }

  lemma RoleReads(s: State, name: string, id: u64)
    ensures CleanLine(RoleLine(name, id))
    ensures LoadLine(s, RoleLine(name, id)) == s.(roles := s.roles[name := id])
  {
    hide Escape, Unescape, Decimal, Join, NumberField, SplitTabs;
    var e, f := Escape(name), "role_id:" + Decimal(id);
    NameIsClean(name);
    NumberIsClean("role_id:", id);
    FieldsMakeLine(["ROLE", e, f]);
    JoinThree("ROLE", e, f);
    assert RoleLine(name, id) == "ROLE" + "\t" + e + "\t" + f;
  }

  lemma VersionReads(s: State)
    ensures CleanLine(VERSION) && LoadLine(s, VERSION) == s
  {
    hide SplitTabs;
    FieldsMakeLine([VERSION]);
  }

  // ----- The whole text -----

  /** Some entries of `m` added to `acc`. */
  function With<V>(acc: map<string, V>, m: map<string, V>, ks: seq<string>): map<string, V>
    requires forall k | k in ks :: k in m
    decreases |ks|
  {
    if ks == [] then acc else With(acc[ks[0] := m[ks[0]]], m, ks[1..])
  }

  lemma {:induction false} WithGives<V>(acc: map<string, V>, m: map<string, V>, ks: seq<string>)
    requires forall k | k in ks :: k in m
    ensures var r := With(acc, m, ks);
            && (forall k :: k in r <==> k in acc || k in ks)
            && (forall k | k in ks :: r[k] == m[k])
            && (forall k | k in acc && k !in ks :: r[k] == acc[k])
    decreases |ks|
  {
    if ks != [] {
      WithGives(acc[ks[0] := m[ks[0]]], m, ks[1..]);
    }
  }

  lemma WithAll<V>(m: map<string, V>, ks: seq<string>)
    requires Listing(ks, m.Keys)
    ensures With(map[], m, ks) == m
  {
    WithGives(map[], m, ks);
  }

  lemma {:induction false} LoadAppend(s: State, xs: seq<string>, ys: seq<string>)
    ensures LoadLines(s, xs + ys) == LoadLines(LoadLines(s, xs), ys)
    decreases |xs|
  {
    hide LoadLine;
    if xs == [] {
      assert xs + ys == ys;
    } else {
      assert (xs + ys)[1..] == xs[1..] + ys;
      LoadAppend(LoadLine(s, xs[0]), xs[1..], ys);
    }
  }

  lemma {:induction false} MessagesRead(s: State, ks: seq<string>, m: map<string, ManagedMsg>)
    requires forall k | k in ks :: k in m
    ensures forall line | line in MessageLines(ks, m) :: CleanLine(line)
    ensures LoadLines(s, MessageLines(ks, m)) == s.(managed := With(s.managed, m, ks))
    decreases |ks|
  {
    hide LoadLine, MessageLine, CleanLine;
    if ks != [] {
      MessageReads(s, ks[0], m[ks[0]]);
      MessagesRead(LoadLine(s, MessageLine(ks[0], m[ks[0]])), ks[1..], m);
      assert MessageLines(ks, m)[1..] == MessageLines(ks[1..], m);
      assert MessageLines(ks, m) == [MessageLine(ks[0], m[ks[0]])] + MessageLines(ks[1..], m);
    }
  }

  lemma {:induction false} ChannelsRead(s: State, ks: seq<string>, m: map<string, u64>)
    requires forall k | k in ks :: k in m
    ensures forall line | line in ChannelLines(ks, m) :: CleanLine(line)
    ensures LoadLines(s, ChannelLines(ks, m)) == s.(channels := With(s.channels, m, ks))
    decreases |ks|
  {
    hide LoadLine, ChannelLine, CleanLine;
    if ks != [] {
      ChannelReads(s, ks[0], m[ks[0]]);
      ChannelsRead(LoadLine(s, ChannelLine(ks[0], m[ks[0]])), ks[1..], m);
      assert ChannelLines(ks, m)[1..] == ChannelLines(ks[1..], m);
      assert ChannelLines(ks, m) == [ChannelLine(ks[0], m[ks[0]])] + ChannelLines(ks[1..], m);
    }
  }

  lemma {:induction false} RolesRead(s: State, ks: seq<string>, m: map<string, u64>)
    requires forall k | k in ks :: k in m
    ensures forall line | line in RoleLines(ks, m) :: CleanLine(line)
    ensures LoadLines(s, RoleLines(ks, m)) == s.(roles := With(s.roles, m, ks))
    decreases |ks|
  {
    hide LoadLine, RoleLine, CleanLine;
    if ks != [] {
      RoleReads(s, ks[0], m[ks[0]]);
      RolesRead(LoadLine(s, RoleLine(ks[0], m[ks[0]])), ks[1..], m);
      assert RoleLines(ks, m)[1..] == RoleLines(ks[1..], m);
      assert RoleLines(ks, m) == [RoleLine(ks[0], m[ks[0]])] + RoleLines(ks[1..], m);
    }
  }

  /** The keys of the three maps, each in order. */
  ghost predicate Listings(s: State, ms: seq<string>, cs: seq<string>, rs: seq<string>) {
    Listing(ms, s.managed.Keys) && Listing(cs, s.channels.Keys) && Listing(rs, s.roles.Keys)
  }

  ghost function AllLines(s: State, ms: seq<string>, cs: seq<string>, rs: seq<string>): seq<string>
    requires Listings(s, ms, cs, rs)
  {
    [VERSION] + MessageLines(ms, s.managed) + ChannelLines(cs, s.channels) + RoleLines(rs, s.roles)
  }

  /** What a saved state's text says. */
  ghost predicate IsSaved(s: State, text: string) {
    exists ms, cs, rs :: Listings(s, ms, cs, rs) && text == Unlines(AllLines(s, ms, cs, rs))
  }

  /** Every state is loaded back from its text, whatever names it holds. */
  lemma SavedLoadsBack(s: State, text: string)
    requires IsSaved(s, text)
    ensures LoadText(text) == s
  {
    hide LoadLine, Unlines, Lines, CleanLine, MessageLines, ChannelLines, RoleLines, Listing, LoadLines, With;
    var ms, cs, rs :| Listings(s, ms, cs, rs) && text == Unlines(AllLines(s, ms, cs, rs));
    AllListed(ms, s.managed.Keys);
    AllListed(cs, s.channels.Keys);
    AllListed(rs, s.roles.Keys);
    var a, b, c := MessageLines(ms, s.managed), ChannelLines(cs, s.channels), RoleLines(rs, s.roles);
    var s1 := EMPTY.(managed := With(map[], s.managed, ms));
    var s2 := s1.(channels := With(map[], s.channels, cs));
    VersionReads(EMPTY);
    OneLine(EMPTY, VERSION);
    MessagesRead(EMPTY, ms, s.managed);
    ChannelsRead(s1, cs, s.channels);
    RolesRead(s2, rs, s.roles);
    LoadAppend(EMPTY, [VERSION] + a + b, c);
    LoadAppend(EMPTY, [VERSION] + a, b);
    LoadAppend(EMPTY, [VERSION], a);
    WithAll(s.managed, ms);
    WithAll(s.channels, cs);
    WithAll(s.roles, rs);
    LinesUndoUnlines(AllLines(s, ms, cs, rs));
  }

  lemma OneLine(s: State, line: string)
    ensures LoadLines(s, [line]) == LoadLine(s, line)
  {
    assert [line][1..] == [];
  }

  /** Equal states have the same text: the order in which the maps give their keys does not show. */
  lemma SavedTextIsUnique(s: State, text: string, other: string)
    requires IsSaved(s, text) && IsSaved(s, other)
    ensures text == other
  {
    hide Unlines, MessageLines, ChannelLines, RoleLines, Listing;
    var ms, cs, rs :| Listings(s, ms, cs, rs) && text == Unlines(AllLines(s, ms, cs, rs));
    var ms', cs', rs' :| Listings(s, ms', cs', rs') && other == Unlines(AllLines(s, ms', cs', rs'));
    ListingIsUnique(ms, ms', s.managed.Keys);
    ListingIsUnique(cs, cs', s.channels.Keys);
    ListingIsUnique(rs, rs', s.roles.Keys);
  }

  /** `save` up to the point where the text is written to the file. */
  method Save(s: State) returns (content: string)
    ensures IsSaved(s, content) && LoadText(content) == s
    ensures |content| >= 13 && content[..13] == "# version: 1\n"
  {
    hide Unlines, LoadText, Listing, MessageLine, ChannelLine, RoleLine;
    content := VERSION + "\n";
    ghost var lines := [VERSION];
    NoUnlines();
    UnlinesSnoc([], VERSION);
    assert [] + [VERSION] == [VERSION];
    var managed := SortedKeys(s.managed.Keys);
    AllListed(managed, s.managed.Keys);
    var i := 0;
    while i < |managed|
      invariant 0 <= i <= |managed| && content == Unlines(lines)
      invariant lines == [VERSION] + MessageLines(managed, s.managed)[..i]
    {
      var line := MessageLine(managed[i], s.managed[managed[i]]);
      UnlinesSnoc(lines, line);
      lines := lines + [line];
      content := content + line + "\n";
      i := i + 1;
    }
    var channels := SortedKeys(s.channels.Keys);
    AllListed(channels, s.channels.Keys);
    ghost var before := lines;
    i := 0;
    while i < |channels|
      invariant 0 <= i <= |channels| && content == Unlines(lines)
      invariant lines == before + ChannelLines(channels, s.channels)[..i]
    {
      var line := ChannelLine(channels[i], s.channels[channels[i]]);
      UnlinesSnoc(lines, line);
      lines := lines + [line];
      content := content + line + "\n";
      i := i + 1;
    }
    var roles := SortedKeys(s.roles.Keys);
    AllListed(roles, s.roles.Keys);
    before := lines;
    i := 0;
    while i < |roles|
      invariant 0 <= i <= |roles| && content == Unlines(lines)
      invariant lines == before + RoleLines(roles, s.roles)[..i]
    {
      var line := RoleLine(roles[i], s.roles[roles[i]]);
      UnlinesSnoc(lines, line);
      lines := lines + [line];
      content := content + line + "\n";
      i := i + 1;
    }
    assert Listings(s, managed, channels, roles) && lines == AllLines(s, managed, channels, roles);
    SavedLoadsBack(s, content);
    SavedBegins(s, content);
  }

  lemma SavedBegins(s: State, text: string)
    requires IsSaved(s, text)
    ensures |text| >= 13 && text[..13] == "# version: 1\n"
  {
    hide Unlines, MessageLines, ChannelLines, RoleLines, Listing;
    var ms, cs, rs :| Listings(s, ms, cs, rs) && text == Unlines(AllLines(s, ms, cs, rs));
    AllListed(ms, s.managed.Keys);
    AllListed(cs, s.channels.Keys);
    AllListed(rs, s.roles.Keys);
    var rest := MessageLines(ms, s.managed) + ChannelLines(cs, s.channels) + RoleLines(rs, s.roles);
    assert AllLines(s, ms, cs, rs) == [VERSION] + rest;
    FirstComesFirst(VERSION, rest);
  }

  lemma FirstComesFirst(line: string, rest: seq<string>)
    ensures Unlines([line] + rest) == line + "\n" + Unlines(rest)
  {
    assert ([line] + rest)[1..] == rest;
  }

  lemma NoUnlines()
    ensures Unlines([]) == ""
  {}

  lemma AllListed(ks: seq<string>, keys: set<string>)
    requires Listing(ks, keys)
    ensures forall k :: k in ks ==> k in keys
  {}
}
