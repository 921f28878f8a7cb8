/**
 * Incremental UTF-8 for fragmented TEXT messages: the effect of
 * `push_text_payload`, and how folding it over the fragments of a message
 * compares with validating the whole message at once (section 8.1 of RFC 6455).
 */
module TextAssembly {
  import opened Bytes
  import opened Utf8

  /** Text accepted so far, and the unfinished octets carried to the next fragment. */
  datatype TextState = TextState(text: bytes, tail: bytes)

  const EMPTY := TextState([], [])

  /** A carried tail is what a scan left over: never a whole character, never longer than 3. */
  predicate TailOk(tail: bytes) {
    tail == [] || (!StartsWithChar(tail) && BadLen(tail) == |tail|)
  }

  predicate Sound(st: TextState) {
    Valid(st.text) && TailOk(st.tail)
  }

  /** The carried tail together with the at most 3 octets borrowed from the new fragment. */
  function Joined(tail: bytes, data: bytes): bytes {
    tail + data[..Min(|data|, 3)]
  }

  lemma HeadCompletesTail(tail: bytes, data: bytes)
    requires tail != [] && TailOk(tail) && ValidUpTo(Joined(tail, data)) > 0
    ensures |tail| < ValidUpTo(Joined(tail, data))
  {
    var head := Joined(tail, data);
    if Width(head[0]) <= |tail| {
      CharPrefix(head, tail);
    }
  }

  /** `push_text_payload`; `None` stands for the `InvalidUtf8` error. */
  function PushText(st: TextState, data: bytes, isFinal: bool): (r: Option<TextState>)
    requires TailOk(st.tail)
    ensures r.Some? ==> TailOk(r.value.tail) && (isFinal ==> r.value.tail == [])
    ensures r.Some? ==> |r.value.text| + |r.value.tail| <= |st.text| + |st.tail| + |data|
  {
    if st.tail == [] then
      PushFresh(st.text, data, isFinal)
    else
      var head := Joined(st.tail, data);
      var valid := ValidUpTo(head);
      if valid == 0 then
        RestHasNoChar(head);
        if isFinal || |head| >= 4 then None
        else
          BadPrefix(head);
          Some(TextState(st.text, head[..BadLen(head)]))
      else
        HeadCompletesTail(st.tail, data);
        PushFresh(st.text + head[..valid], data[valid - |st.tail|..], isFinal)
  }

  /** The single pass over data that starts at a character boundary. */
  function PushFresh(text: bytes, data: bytes, isFinal: bool): (r: Option<TextState>)
    ensures r.Some? ==> TailOk(r.value.tail) && (isFinal ==> r.value.tail == [])
    ensures r.Some? ==> r.value.text + r.value.tail == text + data
  {
    var valid := ValidUpTo(data);
    if valid == |data| then
      Some(TextState(text + data, []))
    else
      RestHasNoChar(data);
      var bad := BadLen(Rest(data));
      if isFinal || valid + bad < |data| then None
      else Some(TextState(text + data[..valid], Rest(data)))
  }

  lemma BadPrefix(s: bytes)
    requires s != [] && !StartsWithChar(s)
    ensures TailOk(s[..BadLen(s)])
  {
    var p := s[..BadLen(s)];
    assert s == p + s[BadLen(s)..];
    if StartsWithChar(p) { CharExtends(p, s[BadLen(s)..]); }
  }

  /** A piece that no character begins is invalid, as is its maximal invalid part: `from_utf8` has an error to report. */
  lemma RefusedPieceIsInvalid(s: bytes)
    requires s != [] && !StartsWithChar(s)
    ensures !Valid(s) && !Valid(s[..BadLen(s)])
  {
    BadPrefix(s);
  }

  /**
   * The guard of the storing branch with octets left over: the octets of `data`
   * past the stored invalid part are not kept anywhere.
   */
  predicate Drops(st: TextState, data: bytes, isFinal: bool)
    requires TailOk(st.tail)
  {
    && st.tail != []
    && !isFinal
    && var head := Joined(st.tail, data);
    && ValidUpTo(head) == 0
    && |head| < 4
    && (RestHasNoChar(head); BadLen(head) < |head|)
  }

  /** Reassembly of a whole message from its fragments; the last one is final. */
  function Assemble(st: TextState, parts: seq<bytes>): (r: Option<bytes>)
    requires TailOk(st.tail) && parts != []
    decreases |parts|
  {
    match PushText(st, parts[0], |parts| == 1)
    case None => None
    case Some(next) => if |parts| == 1 then Some(next.text) else Assemble(next, parts[1..])
  }

  /** Some accepted step of the reassembly took the branch that loses octets. */
  predicate DropsSomewhere(st: TextState, parts: seq<bytes>)
    requires TailOk(st.tail) && parts != []
    decreases |parts|
  {
    || Drops(st, parts[0], |parts| == 1)
    || (|parts| > 1 && match PushText(st, parts[0], false)
                       case None => false
                       case Some(next) => DropsSomewhere(next, parts[1..]))
  }

  /** One push: the text stays well-formed, and octets are lost exactly under the guard. */
  lemma PushKeeps(st: TextState, data: bytes, isFinal: bool)
    requires Sound(st) && PushText(st, data, isFinal).Some?
    ensures var next := PushText(st, data, isFinal).value;
            && Sound(next)
            && (if Drops(st, data, isFinal) then |next.text + next.tail| < |st.text + st.tail + data|
                else next.text + next.tail == st.text + st.tail + data)
  {
    if st.tail == [] {
      FreshKeeps(st.text, data, isFinal);
    } else if ValidUpTo(Joined(st.tail, data)) > 0 {
      CompletedKeeps(st, data, isFinal);
    }
  }

  lemma CompletedKeeps(st: TextState, data: bytes, isFinal: bool)
    requires Sound(st) && st.tail != [] && ValidUpTo(Joined(st.tail, data)) > 0
    requires PushText(st, data, isFinal).Some?
    ensures var next := PushText(st, data, isFinal).value;
            Valid(next.text) && next.text + next.tail == st.text + st.tail + data
  {
    hide Valid, ValidUpTo, PushFresh, Joined, TailOk, BadLen;
    var head := Joined(st.tail, data);
    var valid := ValidUpTo(head);
    HeadCompletesTail(st.tail, data);
    HeadThenRest(st.tail, data, valid);
    RestHasNoChar(head);
    var front, rest := head[..valid], data[valid - |st.tail|..];
    ScanPastValid(st.text, front);
    FreshKeeps(st.text + front, rest, isFinal);
    Associate(st.text, front, rest);
    Associate(st.text, st.tail, data);
  }

  lemma HeadThenRest(tail: bytes, data: bytes, valid: nat)
    requires |tail| <= valid <= |Joined(tail, data)|
    ensures valid - |tail| <= |data|
    ensures Joined(tail, data)[..valid] + data[valid - |tail|..] == tail + data
  {}

  lemma FreshKeeps(text: bytes, data: bytes, isFinal: bool)
    requires Valid(text) && PushFresh(text, data, isFinal).Some?
    ensures Valid(PushFresh(text, data, isFinal).value.text)
  {
    RestHasNoChar(data);
    ScanPastValid(text, data[..ValidUpTo(data)]);
    assert data[..|data|] == data;
  }

  // ----- Whole messages -----

  /** The state that holds exactly the scan of the text so far. */
  function Scanned(s: bytes): TextState {
    TextState(s[..ValidUpTo(s)], Rest(s))
  }

  lemma ScannedOk(s: bytes)
    requires Viable(s)
    ensures Sound(Scanned(s))
  {
    RestHasNoChar(s);
    if Rest(s) != [] { PartialIsBad(Rest(s)); }
  }

  lemma FreshViable(text: bytes, data: bytes, isFinal: bool)
    requires Valid(text) && Viable(data) && (isFinal ==> Valid(data))
    ensures PushFresh(text, data, isFinal) == Some(Scanned(text + data))
  {
    hide Valid, ValidUpTo, IsPartial, BadLen, StartsWithChar;
    ScanPastValid(text, data);
    ScanSplits(data);
    ValidIffAllScanned(data);
    assert (text + data)[..|text| + ValidUpTo(data)] == text + data[..ValidUpTo(data)];
    assert Rest(text + data) == Rest(data);
    if Rest(data) != [] { PartialIsBad(Rest(data)); }
  }

  /** While the text so far can still become valid, a push just scans it further. */
  lemma PushViable(s: bytes, data: bytes, isFinal: bool)
    requires Viable(s + data) && (isFinal ==> Valid(s + data))
    ensures Viable(s) && TailOk(Rest(s))
    ensures PushText(Scanned(s), data, isFinal) == Some(Scanned(s + data))
    ensures !Drops(Scanned(s), data, isFinal)
  {
    hide Valid, ValidUpTo, PushText, Drops, Viable, TailOk;
    ViablePrefix(s, data);
    ScannedOk(s);
    ScanSplits(s);
    ScanResumes(s, data);
    var v, tail := s[..ValidUpTo(s)], Rest(s);
    assert s + data == v + (tail + data);
    PushOnto(v, tail, data, isFinal);
  }

  lemma PushOnto(v: bytes, tail: bytes, data: bytes, isFinal: bool)
    requires Valid(v) && TailOk(tail) && Viable(tail + data) && (isFinal ==> Valid(tail + data))
    ensures PushText(TextState(v, tail), data, isFinal) == Some(Scanned(v + (tail + data)))
    ensures !Drops(TextState(v, tail), data, isFinal)
  {
    hide Valid, ValidUpTo, PushText, Drops, Viable, BadLen, StartsWithChar, Joined;
    if tail == [] {
      assert tail + data == data;
      PushAtBoundary(v, data, isFinal);
    } else if ValidUpTo(Joined(tail, data)) == 0 {
      PushStalls(v, tail, data, isFinal);
    } else {
      PushCompletes(v, tail, data, isFinal);
    }
  }

  lemma PushAtBoundary(v: bytes, data: bytes, isFinal: bool)
    requires Valid(v) && Viable(data) && (isFinal ==> Valid(data))
    ensures PushText(TextState(v, []), data, isFinal) == Some(Scanned(v + data))
    ensures !Drops(TextState(v, []), data, isFinal)
  {
    FreshViable(v, data, isFinal);
  }

  /** Nothing completes yet: the whole of the short fragment is kept. */
  lemma PushStalls(v: bytes, tail: bytes, data: bytes, isFinal: bool)
    requires Valid(v) && tail != [] && TailOk(tail)
    requires Viable(tail + data) && (isFinal ==> Valid(tail + data))
    requires ValidUpTo(Joined(tail, data)) == 0
    ensures !isFinal && !Drops(TextState(v, tail), data, isFinal)
    ensures PushText(TextState(v, tail), data, isFinal) == Some(Scanned(v + (tail + data)))
  {
    var head := Joined(tail, data);
    var k := Min(|data|, 3);
    assert tail + data == head + data[k..];
    ViablePrefix(head, data[k..]);
    PartialIsBad(head);
    assert head == tail + data;
    ValidIffAllScanned(head);
    ScanPastValid(v, head);
    assert head[..BadLen(head)] == head;
    assert (v + head)[..|v|] == v && (v + head)[|v|..] == head;
  }

  /** The tail completes: the scan goes on over the remaining octets. */
  lemma PushCompletes(v: bytes, tail: bytes, data: bytes, isFinal: bool)
    requires Valid(v) && tail != [] && TailOk(tail)
    requires Viable(tail + data) && (isFinal ==> Valid(tail + data))
    requires ValidUpTo(Joined(tail, data)) > 0
    ensures PushText(TextState(v, tail), data, isFinal) == Some(Scanned(v + (tail + data)))
    ensures !Drops(TextState(v, tail), data, isFinal)
  {
    hide Valid, ValidUpTo, Scanned, PushFresh, Joined, BadLen, Viable;
    var head := Joined(tail, data);
    var valid := ValidUpTo(head);
    HeadCompletesTail(tail, data);
    HeadThenRest(tail, data, valid);
    var front, rest := head[..valid], data[valid - |tail|..];
    RestHasNoChar(head);
    ScanPastValid(front, rest);
    RestOfJoined(front, rest);
    ScanPastValid(v, front);
    FreshViable(v + front, rest, isFinal);
    Associate(v, front, rest);
  }

  lemma RestOfJoined(front: bytes, rest: bytes)
    requires Valid(front)
    ensures Viable(front + rest) <==> Viable(rest)
  {
    hide Valid, ValidUpTo, IsPartial;
    ScanPastValid(front, rest);
    assert Rest(front + rest) == Rest(rest);
  }

  lemma {:induction false} ValidAssembles(s: bytes, parts: seq<bytes>)
    requires parts != [] && Valid(s + Concat(parts))
    ensures TailOk(Rest(s))
    ensures Assemble(Scanned(s), parts) == Some(s + Concat(parts))
    ensures !DropsSomewhere(Scanned(s), parts)
    decreases |parts|
  {
    var next := s + parts[0];
    assert s + Concat(parts) == next + Concat(parts[1..]);
    ValidIsViable(next + Concat(parts[1..]));
    ViablePrefix(next, Concat(parts[1..]));
    if |parts| == 1 {
      assert next == s + Concat(parts);
      PushViable(s, parts[0], true);
      ValidIffAllScanned(next);
    } else {
      PushViable(s, parts[0], false);
      ValidAssembles(next, parts[1..]);
    }
  }

  lemma {:induction false} AssembledKeeps(st: TextState, parts: seq<bytes>)
    requires Sound(st) && parts != [] && Assemble(st, parts).Some?
    ensures Valid(Assemble(st, parts).value)
    ensures !DropsSomewhere(st, parts) ==> Assemble(st, parts).value == st.text + st.tail + Concat(parts)
    ensures DropsSomewhere(st, parts) ==> |Assemble(st, parts).value| < |st.text + st.tail + Concat(parts)|
    ensures |Assemble(st, parts).value| <= |st.text + st.tail + Concat(parts)|
    decreases |parts|
  {
    hide Valid, ValidUpTo, PushText, Drops, TailOk;
    PushKeeps(st, parts[0], |parts| == 1);
    var next := PushText(st, parts[0], |parts| == 1).value;
    Associate(st.text + st.tail, parts[0], Concat(parts[1..]));
    if |parts| > 1 {
      AssembledKeeps(next, parts[1..]);
    } else {
      assert next.text + next.tail == next.text;
      assert Concat(parts) == parts[0];
    }
  }

  /** Every text that reassembly delivers is well-formed, whatever the fragmentation. */
  lemma AssembledIsValid(parts: seq<bytes>)
    requires parts != [] && Assemble(EMPTY, parts).Some?
    ensures Valid(Assemble(EMPTY, parts).value)
  {
    AssembledKeeps(EMPTY, parts);
  }

  /** A message is well-formed exactly when its fragments are accepted without losing octets. */
  lemma ValidIffAcceptedWhole(parts: seq<bytes>)
    requires parts != []
    ensures Valid(Concat(parts)) <==> Assemble(EMPTY, parts).Some? && !DropsSomewhere(EMPTY, parts)
    ensures Valid(Concat(parts)) ==> Assemble(EMPTY, parts) == Some(Concat(parts))
  {
    if Valid(Concat(parts)) {
      assert [] + Concat(parts) == Concat(parts);
      ValidAssembles([], parts);
    } else if Assemble(EMPTY, parts).Some? && !DropsSomewhere(EMPTY, parts) {
      assert EMPTY.text + EMPTY.tail + Concat(parts) == Concat(parts);
      AssembledKeeps(EMPTY, parts);
    }
  }

  /** The exact condition under which an accepted message is the message that was sent. */
  lemma AcceptedIsFaithfulIff(parts: seq<bytes>)
    requires parts != [] && Assemble(EMPTY, parts).Some?
    ensures Assemble(EMPTY, parts).value == Concat(parts) <==> !DropsSomewhere(EMPTY, parts)
    ensures Valid(Concat(parts)) <==> !DropsSomewhere(EMPTY, parts)
  {
    AssembledKeeps(EMPTY, parts);
    ValidIffAcceptedWhole(parts);
    assert EMPTY.text + EMPTY.tail + Concat(parts) == Concat(parts);
  }

  /** Middle fragments of length 0 or at least 3 never take the losing branch. */
  predicate RoomyMiddles(parts: seq<bytes>) {
    forall i | 0 < i < |parts| - 1 :: parts[i] == [] || |parts[i]| >= 3
  }

  lemma RoomyFragmentsAreFaithful(parts: seq<bytes>)
    requires parts != [] && RoomyMiddles(parts) && Assemble(EMPTY, parts).Some?
    ensures Valid(Concat(parts)) && Assemble(EMPTY, parts).value == Concat(parts)
  {
    if |parts| > 1 {
      var next := PushText(EMPTY, parts[0], false).value;
      forall i | 0 <= i < |parts[1..]| - 1
        ensures parts[1..][i] == [] || |parts[1..][i]| >= 3
      {
        assert parts[1..][i] == parts[i + 1];
      }
      RoomyNeverDrops(next, parts[1..]);
    }
    AcceptedIsFaithfulIff(parts);
  }

  lemma {:induction false} RoomyNeverDrops(st: TextState, parts: seq<bytes>)
    requires TailOk(st.tail) && parts != [] && Assemble(st, parts).Some?
    requires forall i | 0 <= i < |parts| - 1 :: parts[i] == [] || |parts[i]| >= 3
    ensures !DropsSomewhere(st, parts)
    decreases |parts|
  {
    if |parts| > 1 {
      if st.tail != [] && parts[0] == [] {
        assert Joined(st.tail, parts[0]) == st.tail;
      }
      RoomyNeverDrops(PushText(st, parts[0], false).value, parts[1..]);
    }
  }

  /** `push_text_payload` with the missing check: a fragment that would lose octets is an error. */
  function PushRepaired(st: TextState, data: bytes, isFinal: bool): (r: Option<TextState>)
    requires TailOk(st.tail)
    ensures r.Some? ==> TailOk(r.value.tail)
  {
    if Drops(st, data, isFinal) then None else PushText(st, data, isFinal)
  }

  function AssembleRepaired(st: TextState, parts: seq<bytes>): Option<bytes>
    requires TailOk(st.tail) && parts != []
    decreases |parts|
  {
    match PushRepaired(st, parts[0], |parts| == 1)
    case None => None
    case Some(next) => if |parts| == 1 then Some(next.text) else AssembleRepaired(next, parts[1..])
  }

  /** The repaired fold rejects exactly where the program's fold loses octets, and otherwise agrees with it. */
  lemma {:induction false} RepairOnlyRejects(st: TextState, parts: seq<bytes>)
    requires TailOk(st.tail) && parts != []
    ensures AssembleRepaired(st, parts) == if DropsSomewhere(st, parts) then None else Assemble(st, parts)
    decreases |parts|
  {
    hide PushText, Drops;
    if |parts| > 1 && PushRepaired(st, parts[0], false).Some? {
      RepairOnlyRejects(PushText(st, parts[0], false).value, parts[1..]);
    }
  }

  /** With the check, acceptance is validity, for every fragmentation, and what is accepted is what was sent. */
  lemma RepairedIffValid(parts: seq<bytes>)
    requires parts != []
    ensures AssembleRepaired(EMPTY, parts) == if Valid(Concat(parts)) then Some(Concat(parts)) else None
  {
    RepairOnlyRejects(EMPTY, parts);
    ValidIffAcceptedWhole(parts);
  }

  /** C3 41 A4 is not UTF-8, yet in three fragments it is delivered as C3 A4. */
  lemma DroppedOctetWitness()
    ensures !Valid([0xC3, 0x41, 0xA4])
    ensures Assemble(EMPTY, [[0xC3], [0x41], [0xA4]]) == Some([0xC3, 0xA4])
  {
    assert !Fits([0xC3, 0x41, 0xA4], 1);
    WitnessFirst();
    WitnessMiddle();
    WitnessLast();
    var carried := TextState([], [0xC3]);
    assert Assemble(carried, [[0xA4]]) == Some([0xC3, 0xA4]);
    assert [[0x41], [0xA4]][1..] == [[0xA4]];
    assert Assemble(carried, [[0x41], [0xA4]]) == Some([0xC3, 0xA4]);
    assert [[0xC3], [0x41], [0xA4]][1..] == [[0x41], [0xA4]];
  }

  lemma WitnessFirst()
    ensures PushText(EMPTY, [0xC3], false) == Some(TextState([], [0xC3]))
  {
    assert !StartsWithChar([0xC3]) && Rest([0xC3]) == [0xC3];
  }

  lemma WitnessMiddle()
    ensures TailOk([0xC3]) && PushText(TextState([], [0xC3]), [0x41], false) == Some(TextState([], [0xC3]))
  {
    var head := Joined([0xC3], [0x41]);
    assert head == [0xC3, 0x41] && !Fits(head, 1);
  }

  lemma WitnessLast()
    ensures TailOk([0xC3]) && PushText(TextState([], [0xC3]), [0xA4], true) == Some(TextState([0xC3, 0xA4], []))
  {
    var head := Joined([0xC3], [0xA4]);
    assert head == [0xC3, 0xA4] && StartsWithChar(head) && head[2..] == [];
    assert ValidUpTo(head) == 2 && head[..2] == head;
    FreshEmpty([] + head[..2]);
    assert [] + head[..2] == [0xC3, 0xA4];
    var rest: bytes := [0xA4];
    assert rest[1..] == [];
  }

  lemma FreshEmpty(text: bytes)
    ensures PushFresh(text, [], true) == Some(TextState(text, []))
  {
    assert text + [] == text;
  }
}
