/**
 The bodies the receive-pack parser accepts (crates/jeryu-gitd/src/pack.rs): up
 to the first flush or the end they are the lines of a prelude and nothing else.
 The lines are those of module ReceivePackPrint, which follows the section
 "Reference Update Request and Packfile Transfer" of gitprotocol-pack.
 */
module ReceivePackGrammar {
  import opened Common
  import opened Utf8
  import PktLine
  import opened ReceivePack
  import opened ReceivePackPrint

  // ----- lines -----

  /** The payload is the text, with one newline that may only be missing if the text does not end in one. */
  predicate IsLine(payload: bytes, text: bytes) {
    && ValidUtf8(payload)
    && (payload == text + [10] || (payload == text && (text == [] || text[|text| - 1] != 10)))
  }

  /** A whole object id. */
  predicate IsHexId(oid: bytes) {
    |oid| == 40 && forall b | b in oid :: b in Ascii("0123456789abcdef")
  }

  /** A ref name properly below `refs/`, in one piece. */
  predicate IsRefName(name: bytes) {
    Ascii("refs/") <= name && |name| > 5 && 32 !in name && 0 !in name
  }

  predicate IsShallowLine(payload: bytes, oid: bytes) {
    IsHexId(oid) && IsLine(payload, Ascii("shallow ") + oid)
  }

  /** Two ids and a ref name; where `first`, capabilities may follow a NUL. */
  ghost predicate IsCommandLine(payload: bytes, c: Command, first: bool) {
    && IsHexId(c.oldOid) && IsHexId(c.newOid) && IsRefName(c.refName)
    && exists text :: IsLine(payload, text)
         && (text == c.oldOid + [32] + c.newOid + [32] + c.refName
             || (first && c.oldOid + [32] + c.newOid + [32] + c.refName + [0] <= text))
  }

  // ----- preludes -----

  /** The payloads up to the first flush or the end, if the bytes fall into data packets until there. */
  function Section(input: bytes): Option<seq<bytes>>
    decreases |input|
  {
    if input == [] then Some([])
    else
      match PktLine.FirstPacket(input)
      case Ok((Flush, _)) => Some([])
      case Ok((Data(payload), width)) =>
        (match Section(input[width..])
         case None => None
         case Some(rest) => Some([payload] + rest))
      case _ => None
  }

  /** Distinct shallow declarations, then commands, the first of which may carry capabilities. */
  ghost predicate IsPrelude(payloads: seq<bytes>, oids: seq<bytes>, commands: seq<Command>) {
    && |payloads| == |oids| + |commands|
    && (forall i | 0 <= i < |oids| :: IsShallowLine(payloads[i], oids[i]))
    && (forall i, j | 0 <= i < j < |oids| :: oids[i] != oids[j])
    && (forall i | 0 <= i < |commands| :: IsCommandLine(payloads[|oids| + i], commands[i], i == 0))
  }

  // ----- one record -----

  lemma HexIdsAreSha1s(oid: bytes)
    ensures IsHexId(oid) <==> IsLowercaseSha1(oid)
  {
    assert forall b: byte :: b in Ascii("0123456789abcdef") <==> 48 <= b <= 57 || 97 <= b <= 102 by {
      HexDigits();
    }
    assert forall i | 0 <= i < |oid| :: oid[i] in oid;
    hide Ascii;
  }

  lemma HexDigits()
    ensures forall b: byte :: b in Ascii("0123456789abcdef") <==> 48 <= b <= 57 || 97 <= b <= 102
  {
    var s := Ascii("0123456789abcdef");
    assert |s| == 16;
    forall b: byte | 48 <= b <= 57 ensures b in s {
      assert s[b as int - 48] == b;
    }
    forall b: byte | 97 <= b <= 102 ensures b in s {
      assert s[b as int - 87] == b;
    }
  }

  lemma LinesStrip(payload: bytes, text: bytes)
    ensures IsLine(payload, text) <==> ValidUtf8(payload) && StripNewline(payload) == text
  {
    hide ValidUtf8;
    if payload != [] {
      assert payload == payload[..|payload| - 1] + [payload[|payload| - 1]];
    }
  }

  lemma SplitOfOne(s: bytes, c: byte)
    requires c !in s
    ensures Split(s, c) == [s]
  {
    hide BeforeFirst;
    var head := BeforeFirst(s, c);
    assert |head| == |s| && head == s;
  }

  /** The part before the first separator, and the parts of the rest. */
  lemma SplitOfMore(s: bytes, c: byte) returns (head: bytes, rest: bytes)
    requires c in s
    ensures c !in head && s == head + [c] + rest && Split(s, c) == [head] + Split(rest, c)
  {
    hide BeforeFirst;
    head := BeforeFirst(s, c);
    assert |head| < |s|;
    rest := s[|head| + 1..];
    assert s == s[..|head|] + [s[|head|]] + rest;
  }

  lemma SplitBack(s: bytes, c: byte, x: bytes, y: bytes, z: bytes)
    requires Split(s, c) == [x, y, z]
    ensures s == x + [c] + y + [c] + z && c !in x && c !in y && c !in z
  {
    hide Split;
    if c !in s {
      SplitOfOne(s, c);
    } else {
      var head, s1 := SplitOfMore(s, c);
      TailOfParts(head, Split(s1, c), [x, y, z]);
      SplitBackTwo(s1, c, y, z);
      assert s == x + [c] + (y + [c] + z);
    }
  }

  lemma TailOfParts(head: bytes, rest: seq<bytes>, parts: seq<bytes>)
    requires parts == [head] + rest
    ensures parts[0] == head && rest == parts[1..]
  {
  }

  lemma SplitBackTwo(s: bytes, c: byte, y: bytes, z: bytes)
    requires Split(s, c) == [y, z]
    ensures s == y + [c] + z && c !in y && c !in z
  {
    hide Split;
    if c !in s {
      SplitOfOne(s, c);
    } else {
      var head, rest := SplitOfMore(s, c);
      TailOfParts(head, Split(rest, c), [y, z]);
      if c in rest {
        var h2, r2 := SplitOfMore(rest, c);
        SplitsSomething(r2, c);
      } else {
        SplitOfOne(rest, c);
      }
    }
  }

  lemma SplitsSomething(s: bytes, c: byte)
    ensures |Split(s, c)| >= 1
  {
    hide BeforeFirst;
  }

  /** Three parts are what the separator, twice, is put between. */
  lemma SplitInThree(s: bytes, c: byte, x: bytes, y: bytes, z: bytes)
    ensures Split(s, c) == [x, y, z] <==> s == x + [c] + y + [c] + z && c !in x && c !in y && c !in z
  {
    hide Split;
    if Split(s, c) == [x, y, z] {
      SplitBack(s, c, x, y, z);
    } else if s == x + [c] + y + [c] + z && c !in x && c !in y && c !in z {
      assert s == x + [c] + (y + [c] + z);
      SplitAtSeparator(x, c, y + [c] + z);
      SplitAtSeparator(y, c, z);
      SplitAtSeparator(z, c, []);
    }
  }

  /** A text of three words: two ids and a ref name. */
  predicate IsCommandText(text: bytes, c: Command) {
    && IsHexId(c.oldOid) && IsHexId(c.newOid) && Ascii("refs/") <= c.refName && |c.refName| > 5 && 32 !in c.refName
    && text == c.oldOid + [32] + c.newOid + [32] + c.refName
  }

  lemma CommandTextsParse(text: bytes, c: Command)
    ensures ParseCommand(text) == Ok(Update(c)) <==> IsCommandText(text, c)
  {
    var parts := Split(text, SPACE);
    HexIdsAreSha1s(c.oldOid);
    HexIdsAreSha1s(c.newOid);
    SplitInThree(text, SPACE, c.oldOid, c.newOid, c.refName);
    NoSpaces(c.oldOid);
    NoSpaces(c.newOid);
    assert |REFS| == 5;
    hide Split, IsHexId, IsLowercaseSha1, Ascii;
    if ParseCommand(text) == Ok(Update(c)) {
      assert parts == [c.oldOid, c.newOid, c.refName];
    }
  }

  lemma NoSpaces(oid: bytes)
    ensures IsHexId(oid) ==> 32 !in oid && 0 !in oid && oid != []
  {
    HexIdsAreSha1s(oid);
  }

  lemma BeforeFirstExactly(s: bytes, c: byte, head: bytes)
    ensures BeforeFirst(s, c) == head <==> c !in head && (s == head || head + [c] <= s)
  {
    var found := BeforeFirst(s, c);
    if |found| < |s| {
      assert s[..|found| + 1] == found + [c];
    }
    if c !in head && head + [c] <= s {
      assert s == head + [c] + s[|head| + 1..];
      BeforeFirstOf(head, c, s[|head| + 1..]);
    }
    if c !in head && s == head {
      BeforeFirstOf(head, c, []);
    }
  }

  // ----- what one record is -----

  lemma ShallowRecordsExactly(payload: bytes, first: bool, shallow: set<bytes>, oid: bytes)
    ensures ParseRecord(payload, first, shallow) == Ok(Shallow(oid)) <==>
      first && oid !in shallow && IsShallowLine(payload, oid)
  {
    var line := StripNewline(payload);
    HexIdsAreSha1s(oid);
    LinesStrip(payload, SHALLOW + oid);
    assert SHALLOW <= line ==> line == SHALLOW + line[|SHALLOW|..];
    assert (SHALLOW + oid)[|SHALLOW|..] == oid;
    NeverShallow(line);
    NeverShallow(BeforeFirst(line, NUL));
    hide ParseCommand, IsLowercaseSha1, IsHexId, ValidUtf8, Ascii, StripNewline, IsLine, BeforeFirst;
  }

  lemma NeverShallow(text: bytes)
    ensures ParseCommand(text).Ok? ==> ParseCommand(text).value.Update?
  {
    hide Split, IsLowercaseSha1;
  }

  /** The words of a command, put together. */
  lemma NulInText(text: bytes, c: Command)
    requires IsCommandText(text, c)
    ensures 0 in text <==> 0 in c.refName
    ensures !(SHALLOW <= text) && text != []
    ensures forall more: bytes :: !(SHALLOW <= text + more)
  {
    NoSpaces(c.oldOid);
    NoSpaces(c.newOid);
    assert SHALLOW[0] == 115;
    assert c.oldOid[0] in c.oldOid && text[0] == c.oldOid[0];
    HexIdsAreSha1s(c.oldOid);
    hide IsHexId, Ascii;
    assert text[0] != 115;
  }

  /** The line, stripped of its newline, holds the command, alone or before a NUL. */
  ghost predicate IsStrippedCommand(line: bytes, c: Command, first: bool) {
    var text := c.oldOid + [32] + c.newOid + [32] + c.refName;
    && IsCommandText(text, c) && 0 !in c.refName
    && (line == text || (first && text + [0] <= line))
  }

  lemma StrippedCommandsExactly(line: bytes, first: bool, shallow: set<bytes>, c: Command)
    ensures ParseLine(line, first, shallow) == Ok(Update(c)) <==> IsStrippedCommand(line, c, first)
  {
    var head := BeforeFirst(line, NUL);
    if SHALLOW <= line {
      CommandsDoNotStartShallow(line, c, first);
      hide ParseCommand, IsStrippedCommand, Ascii;
    } else if first {
      FirstCommandsExactly(line, c);
      assert ParseLine(line, first, shallow) == ParseCommand(head);
      hide *;
    } else {
      CommandTextsParse(line, c);
      hide ParseCommand, Ascii, IsHexId;
      if IsCommandText(line, c) {
        NulInText(line, c);
      }
    }
  }

  lemma CommandsDoNotStartShallow(line: bytes, c: Command, first: bool)
    ensures IsStrippedCommand(line, c, first) ==> !(SHALLOW <= line)
  {
    var text := c.oldOid + [32] + c.newOid + [32] + c.refName;
    if IsStrippedCommand(line, c, first) {
      NulInText(text, c);
      hide Ascii, IsHexId;
      assert line == text + line[|text|..];
    }
  }

  lemma FirstCommandsExactly(line: bytes, c: Command)
    ensures ParseCommand(BeforeFirst(line, NUL)) == Ok(Update(c)) <==> IsStrippedCommand(line, c, true)
  {
    var text := c.oldOid + [32] + c.newOid + [32] + c.refName;
    CommandTextsParse(BeforeFirst(line, NUL), c);
    BeforeFirstExactly(line, NUL, text);
    hide ParseCommand, Ascii, IsHexId, BeforeFirst;
    if IsCommandText(text, c) {
      NulInText(text, c);
    }
  }

  lemma CommandRecordsExactly(payload: bytes, first: bool, shallow: set<bytes>, c: Command)
    ensures ParseRecord(payload, first, shallow) == Ok(Update(c)) <==> IsCommandLine(payload, c, first)
  {
    var line := StripNewline(payload);
    var text := c.oldOid + [32] + c.newOid + [32] + c.refName;
    LinesStrip(payload, line);
    StrippedCommandsExactly(line, first, shallow, c);
    forall other ensures IsLine(payload, other) ==> other == line {
      LinesStrip(payload, other);
    }
    assert IsStrippedCommand(line, c, first) <==>
      IsHexId(c.oldOid) && IsHexId(c.newOid) && IsRefName(c.refName)
      && (line == text || (first && text + [0] <= line));
    hide IsLine, ParseLine, IsHexId, IsRefName, StripNewline, IsStrippedCommand;
  }

  // ----- a whole body -----

  /** The payloads, one by one: declarations as long as no command was seen, and commands. */
  ghost predicate Fits(payloads: seq<bytes>, first: bool, shallow: set<bytes>, commands: seq<Command>)
    decreases |payloads|
  {
    if payloads == [] then commands == []
    else
      || (first && exists oid :: oid !in shallow && IsShallowLine(payloads[0], oid)
                     && Fits(payloads[1..], true, shallow + {oid}, commands))
      || (commands != [] && IsCommandLine(payloads[0], commands[0], first)
          && Fits(payloads[1..], false, shallow, commands[1..]))
  }

  /** One payload more, by what its record is. */
  lemma FitsByRecord(payload: bytes, rest: seq<bytes>, first: bool, shallow: set<bytes>, commands: seq<Command>)
    ensures var record := ParseRecord(payload, first, shallow);
      Fits([payload] + rest, first, shallow, commands) <==>
        && record.Ok?
        && if record.value.Shallow? then Fits(rest, first, shallow + {record.value.oid}, commands)
           else commands != [] && commands[0] == record.value.command && Fits(rest, false, shallow, commands[1..])
  {
    var payloads := [payload] + rest;
    var record := ParseRecord(payload, first, shallow);
    assert payloads[0] == payload && payloads[1..] == rest;
    forall oid ensures record == Ok(Shallow(oid)) <==> first && oid !in shallow && IsShallowLine(payload, oid) {
      ShallowRecordsExactly(payload, first, shallow, oid);
    }
    forall c ensures record == Ok(Update(c)) <==> IsCommandLine(payload, c, first) {
      CommandRecordsExactly(payload, first, shallow, c);
    }
    hide IsShallowLine, IsCommandLine, ParseRecord;
  }

  lemma {:induction false} AcceptsExactlyWhatFits(input: bytes, first: bool, shallow: set<bytes>,
                                                  commands: seq<Command>)
    ensures Commands(input, first, shallow) == Ok(commands) <==>
      Section(input).Some? && Fits(Section(input).value, first, shallow, commands)
    decreases |input|
  {
    hide ParseRecord, PktLine.FirstPacket, IsShallowLine, IsCommandLine;
    if input != [] && PktLine.FirstPacket(input).Ok? && PktLine.FirstPacket(input).value.0.Data? {
      var (packet, width) := PktLine.FirstPacket(input).value;
      var payload, rest := packet.payload, Section(input[width..]);
      var record := ParseRecord(payload, first, shallow);
      if rest.Some? {
        FitsByRecord(payload, rest.value, first, shallow, commands);
      }
      hide Fits;
      if record.Ok? {
        match record.value {
          case Shallow(oid) => AcceptsExactlyWhatFits(input[width..], first, shallow + {oid}, commands);
          case Update(c) =>
            NoSectionNoCommands(input[width..], false, shallow);
            if commands != [] {
              AcceptsExactlyWhatFits(input[width..], false, shallow, commands[1..]);
              assert commands == [commands[0]] + commands[1..];
            }
        }
      }
    }
  }

  lemma {:induction false} NoSectionNoCommands(input: bytes, first: bool, shallow: set<bytes>)
    ensures Section(input).None? ==> Commands(input, first, shallow).Err?
    decreases |input|
  {
    hide ParseRecord, PktLine.FirstPacket;
    if input != [] && PktLine.FirstPacket(input).Ok? && PktLine.FirstPacket(input).value.0.Data? {
      var (packet, width) := PktLine.FirstPacket(input).value;
      var record := ParseRecord(packet.payload, first, shallow);
      if record.Ok? {
        var (first', shallow') := After(first, shallow, record.value);
        NoSectionNoCommands(input[width..], first', shallow');
      }
    }
  }

  // ----- from records to the prelude -----

  lemma {:induction false} CommandsOnly(payloads: seq<bytes>, shallow: set<bytes>, commands: seq<Command>)
    ensures Fits(payloads, false, shallow, commands) <==>
      |payloads| == |commands| && forall i | 0 <= i < |commands| :: IsCommandLine(payloads[i], commands[i], false)
    decreases |payloads|
  {
    hide IsShallowLine, IsCommandLine;
    if payloads != [] && commands != [] {
      CommandsOnly(payloads[1..], shallow, commands[1..]);
      assert forall i | 0 < i < |payloads| :: payloads[i] == payloads[1..][i - 1];
      assert forall i | 0 < i < |commands| :: commands[i] == commands[1..][i - 1];
    }
  }

  ghost predicate NoneIn(oids: seq<bytes>, shallow: set<bytes>) {
    forall i | 0 <= i < |oids| :: oids[i] !in shallow
  }

  lemma PreludeWithoutDeclarations(payloads: seq<bytes>, shallow: set<bytes>, commands: seq<Command>)
    requires payloads != [] && commands != []
    ensures IsPrelude(payloads, [], commands) <==>
      IsCommandLine(payloads[0], commands[0], true) && Fits(payloads[1..], false, shallow, commands[1..])
  {
    CommandsOnly(payloads[1..], shallow, commands[1..]);
    hide IsShallowLine, IsCommandLine, Fits;
    assert forall i | 0 < i < |payloads| :: payloads[i] == payloads[1..][i - 1];
    assert forall i | 0 < i < |commands| :: commands[i] == commands[1..][i - 1];
  }

  lemma PreludeAfterDeclaration(payloads: seq<bytes>, oid: bytes, oids: seq<bytes>, commands: seq<Command>)
    requires payloads != []
    ensures IsPrelude(payloads, [oid] + oids, commands) <==>
      IsShallowLine(payloads[0], oid) && NoneIn(oids, {oid}) && IsPrelude(payloads[1..], oids, commands)
  {
    hide IsShallowLine, IsCommandLine;
    if IsPrelude(payloads, [oid] + oids, commands) {
      DeclarationOff(payloads, oid, oids, commands);
    } else if IsShallowLine(payloads[0], oid) && NoneIn(oids, {oid}) && IsPrelude(payloads[1..], oids, commands) {
      DeclarationOn(payloads, oid, oids, commands);
    }
    hide IsPrelude, NoneIn;
  }

  lemma DeclarationOff(payloads: seq<bytes>, oid: bytes, oids: seq<bytes>, commands: seq<Command>)
    requires payloads != [] && IsPrelude(payloads, [oid] + oids, commands)
    ensures IsShallowLine(payloads[0], oid) && NoneIn(oids, {oid}) && IsPrelude(payloads[1..], oids, commands)
  {
    hide IsShallowLine, IsCommandLine;
    var all, rest := [oid] + oids, payloads[1..];
    assert all[0] == oid;
    forall i | 0 <= i < |oids| ensures IsShallowLine(rest[i], oids[i]) && oids[i] != oid {
      assert all[i + 1] == oids[i] && rest[i] == payloads[i + 1];
    }
    forall i, j | 0 <= i < j < |oids| ensures oids[i] != oids[j] {
      assert all[i + 1] == oids[i] && all[j + 1] == oids[j];
    }
    forall i | 0 <= i < |commands| ensures IsCommandLine(rest[|oids| + i], commands[i], i == 0) {
      assert rest[|oids| + i] == payloads[|all| + i];
    }
  }

  lemma DeclarationOn(payloads: seq<bytes>, oid: bytes, oids: seq<bytes>, commands: seq<Command>)
    requires payloads != [] && IsShallowLine(payloads[0], oid) && NoneIn(oids, {oid})
    requires IsPrelude(payloads[1..], oids, commands)
    ensures IsPrelude(payloads, [oid] + oids, commands)
  {
    hide IsShallowLine, IsCommandLine;
    var all, rest := [oid] + oids, payloads[1..];
    forall i | 0 <= i < |all| ensures IsShallowLine(payloads[i], all[i]) {
      assert i > 0 ==> all[i] == oids[i - 1] && payloads[i] == rest[i - 1];
    }
    forall i, j | 0 <= i < j < |all| ensures all[i] != all[j] {
      assert all[j] == oids[j - 1];
      assert i > 0 ==> all[i] == oids[i - 1];
    }
    forall i | 0 <= i < |commands| ensures IsCommandLine(payloads[|all| + i], commands[i], i == 0) {
      assert payloads[|all| + i] == rest[|oids| + i];
    }
  }

  lemma {:induction false} FittingIsAPrelude(payloads: seq<bytes>, shallow: set<bytes>, commands: seq<Command>)
    returns (oids: seq<bytes>)
    requires Fits(payloads, true, shallow, commands)
    ensures IsPrelude(payloads, oids, commands) && NoneIn(oids, shallow)
    decreases |payloads|
  {
    oids := [];
    if payloads != [] {
      if oid :| oid !in shallow && IsShallowLine(payloads[0], oid)
                && Fits(payloads[1..], true, shallow + {oid}, commands) {
        hide Fits, IsShallowLine, IsCommandLine, IsPrelude;
        var rest := FittingIsAPrelude(payloads[1..], shallow + {oid}, commands);
        PreludeAfterDeclaration(payloads, oid, rest, commands);
        oids := [oid] + rest;
      } else {
        PreludeWithoutDeclarations(payloads, shallow, commands);
      }
    }
  }

  lemma {:induction false} PreludesFit(payloads: seq<bytes>, shallow: set<bytes>, oids: seq<bytes>,
                                       commands: seq<Command>)
    requires IsPrelude(payloads, oids, commands) && NoneIn(oids, shallow)
    ensures Fits(payloads, true, shallow, commands)
    decreases |payloads|
  {
    hide IsShallowLine, IsCommandLine;
    if payloads != [] {
      if oids != [] {
        assert oids == [oids[0]] + oids[1..];
        PreludeAfterDeclaration(payloads, oids[0], oids[1..], commands);
        hide IsPrelude;
        PreludesFit(payloads[1..], shallow + {oids[0]}, oids[1..], commands);
      } else {
        PreludeWithoutDeclarations(payloads, shallow, commands);
      }
    }
  }

  // ----- the theorems -----

  /**
   A body is accepted with these commands if and only if, up to its first flush
   or its end, it is a prelude: distinct well-formed shallow declarations, then
   the commands, each with two ids and one ref name below `refs/`, one optional
   newline a record, and capabilities behind a NUL on the first command only.
   */
  lemma AcceptedBodiesArePreludes(body: bytes, commands: seq<Command>)
    ensures Commands(body, true, {}) == Ok(commands) <==>
      Section(body).Some? && exists oids :: IsPrelude(Section(body).value, oids, commands)
  {
    AcceptsExactlyWhatFits(body, true, {}, commands);
    hide Section, Commands, IsPrelude, Fits;
    if Section(body).Some? {
      if Fits(Section(body).value, true, {}, commands) {
        var oids := FittingIsAPrelude(Section(body).value, {}, commands);
      }
      if oids :| IsPrelude(Section(body).value, oids, commands) {
        PreludesFit(Section(body).value, {}, oids, commands);
      }
    }
  }

  /** The policy lets through exactly the preludes no command of which names the main branch, and denies the others. */
  lemma PolicyAcceptsExactlyWhen(body: bytes)
    ensures PolicyAccepts(body) <==>
      && Section(body).Some?
      && exists oids, commands :: IsPrelude(Section(body).value, oids, commands)
           && forall c: Command | c in commands :: c.refName != Ascii("refs/heads/main")
    ensures PolicyDenies(body) <==>
      && Section(body).Some?
      && exists oids, commands :: IsPrelude(Section(body).value, oids, commands)
           && exists c: Command :: c in commands && c.refName == Ascii("refs/heads/main")
  {
    var r := Commands(body, true, {});
    hide IsPrelude, Ascii, Section;
    if r.Ok? {
      AcceptedBodiesArePreludes(body, r.value);
    }
    forall oids, commands | Section(body).Some? && IsPrelude(Section(body).value, oids, commands)
      ensures r == Ok(commands)
    {
      AcceptedBodiesArePreludes(body, commands);
    }
    hide Commands;
  }

  // ----- the scanner and its limits -----

  /** Whole packets lead from `from` to a flush that ends at `to`. */
  ghost predicate IsFlushEnd(input: bytes, from: nat, to: nat)
    requires from <= |input|
  {
    from + 4 <= to <= |input| && Reaches(input, from, to - 4)
    && PktLine.HeaderLength(input[to - 4..to]) == Some(0)
  }

  lemma FlushEndByFirstPacket(input: bytes, from: nat, to: nat)
    requires from <= |input|
    ensures IsFlushEnd(input, from, to) <==>
      || (to == from + 4 <= |input| && PktLine.HeaderLength(input[from..from + 4]) == Some(0))
      || (NextOffset(input, from).Some? && IsFlushEnd(input, NextOffset(input, from).value, to))
  {
    if NextOffset(input, from).Some? && to >= 4 && Reaches(input, NextOffset(input, from).value, to - 4) {
      ReachesOnward(input, NextOffset(input, from).value, to - 4);
    }
    hide PktLine.HeaderLength;
  }

  lemma {:induction false} ReachesOnward(input: bytes, from: nat, to: nat)
    requires from <= |input| && Reaches(input, from, to)
    ensures from <= to
    decreases |input| - from
  {
    if from != to {
      ReachesOnward(input, NextOffset(input, from).value, to);
    }
  }

  lemma {:induction false} ScanCompletesExactlyAtAFlush(input: bytes, from: nat, to: nat)
    requires from <= |input|
    ensures Scan(input, from) == Complete(to) <==> IsFlushEnd(input, from, to)
    decreases |input| - from
  {
    FlushEndByFirstPacket(input, from, to);
    hide PktLine.HeaderLength, IsFlushEnd;
    if NextOffset(input, from).Some? {
      ScanCompletesExactlyAtAFlush(input, NextOffset(input, from).value, to);
    }
  }

  /**
   A command section arrives if and only if whole packets lead to a flush that
   ends within a mebibyte, within the announced length and within what arrives.
   */
  lemma PreludeArrivesExactlyWhen(prefix: bytes, stream: bytes, contentLength: nat)
    ensures PreludeArrives(prefix, stream, contentLength) <==>
      && |prefix| <= contentLength
      && exists n: nat :: n <= 1024 * 1024 && n <= contentLength && IsFlushEnd(prefix + stream, 0, n)
  {
    var body := prefix + stream;
    forall n: nat ensures Scan(body, 0) == Complete(n) <==> IsFlushEnd(body, 0, n) {
      ScanCompletesExactlyAtAFlush(body, 0, n);
    }
    forall n: nat | IsFlushEnd(body, 0, n) ensures n <= |body| {
    }
    hide Scan, IsFlushEnd;
  }
}
