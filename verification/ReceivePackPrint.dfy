/**
 Printing a receive-pack prelude and parsing it back. The printer follows the
 section "Reference Update Request and Packfile Transfer" of gitprotocol-pack;
 the parser is the one of crates/jeryu-gitd/src/pack.rs.
 */
module ReceivePackPrint {
  import opened Common
  import opened Utf8
  import PktLine
  import opened ReceivePack

  predicate WellFormedCommand(c: Command) {
    && IsLowercaseSha1(c.oldOid) && IsLowercaseSha1(c.newOid)
    && ValidUtf8(c.refName)
    && StartsWith(c.refName, REFS) && |c.refName| > |REFS|
    && SPACE !in c.refName && NUL !in c.refName
    && c.refName[|c.refName| - 1] != NEWLINE
  }

  function CommandText(c: Command): bytes {
    c.oldOid + [SPACE] + c.newOid + [SPACE] + c.refName
  }

  function Line(text: bytes, newline: bool): bytes {
    if newline then text + [NEWLINE] else text
  }

  /** The first command may carry a NUL and its capabilities. */
  function FirstText(c: Command, capabilities: Option<bytes>): bytes {
    match capabilities
    case None => CommandText(c)
    case Some(caps) => CommandText(c) + [NUL] + caps
  }

  function PrintShallows(oids: seq<bytes>, newline: bool): bytes {
    if oids == [] then []
    else PktLine.Encode(Line(SHALLOW + oids[0], newline)) + PrintShallows(oids[1..], newline)
  }

  function PrintCommands(commands: seq<Command>, capabilities: Option<bytes>, newline: bool): bytes {
    if commands == [] then []
    else PktLine.Encode(Line(FirstText(commands[0], capabilities), newline))
         + PrintCommands(commands[1..], None, newline)
  }

  ghost predicate Printable(commands: seq<Command>, capabilities: Option<bytes>, newline: bool) {
    && (forall i | 0 <= i < |commands| :: WellFormedCommand(commands[i]))
    && (forall i | 0 < i < |commands| :: |Line(CommandText(commands[i]), newline)| <= PktLine.MAX_PAYLOAD)
    && (commands != [] ==>
          |Line(FirstText(commands[0], capabilities), newline)| <= PktLine.MAX_PAYLOAD)
    && (capabilities.Some? ==> ValidUtf8(capabilities.value))
  }

  lemma {:induction false} BeforeFirstOf(s: bytes, c: byte, rest: bytes)
    requires c !in s
    ensures BeforeFirst(s, c) == s && BeforeFirst(s + [c] + rest, c) == s
  {
    var whole := s + [c] + rest;
    if s != [] {
      BeforeFirstOf(s[1..], c, rest);
      assert whole[1..] == s[1..] + [c] + rest;
      assert s == [s[0]] + s[1..];
    }
  }

  lemma SplitAtSeparator(head: bytes, c: byte, rest: bytes)
    requires c !in head
    ensures Split(head, c) == [head]
    ensures Split(head + [c] + rest, c) == [head] + Split(rest, c)
  {
    BeforeFirstOf(head, c, rest);
    assert (head + [c] + rest)[|head| + 1..] == rest;
  }

  lemma SplitOfCommand(c: Command)
    requires WellFormedCommand(c)
    ensures Split(CommandText(c), SPACE) == [c.oldOid, c.newOid, c.refName]
  {
    HexIsPlain(c.oldOid);
    HexIsPlain(c.newOid);
    var tail := c.newOid + [SPACE] + c.refName;
    assert CommandText(c) == c.oldOid + [SPACE] + tail;
    SplitAtSeparator(c.oldOid, SPACE, tail);
    SplitAtSeparator(c.newOid, SPACE, c.refName);
    SplitAtSeparator(c.refName, SPACE, []);
  }

  lemma HexIsPlain(oid: bytes)
    requires IsLowercaseSha1(oid)
    ensures ValidUtf8(oid) && SPACE !in oid && NUL !in oid
  {
    AsciiIsValid(oid);
  }

  lemma CommandTextIsPlain(c: Command)
    requires WellFormedCommand(c)
    ensures ValidUtf8(CommandText(c)) && NUL !in CommandText(c)
    ensures !StartsWith(CommandText(c), SHALLOW)
  {
    HexIsPlain(c.oldOid);
    HexIsPlain(c.newOid);
    AsciiIsValid([SPACE]);
    ValidConcat(c.oldOid, [SPACE]);
    ValidConcat(c.oldOid + [SPACE], c.newOid);
    ValidConcat(c.oldOid + [SPACE] + c.newOid, [SPACE]);
    ValidConcat(c.oldOid + [SPACE] + c.newOid + [SPACE], c.refName);
    assert CommandText(c)[0] == c.oldOid[0] != SHALLOW[0];
  }

  lemma LineStripsBack(text: bytes, newline: bool)
    requires ValidUtf8(text) && (newline || (text != [] ==> text[|text| - 1] != NEWLINE))
    ensures ValidUtf8(Line(text, newline)) && StripNewline(Line(text, newline)) == text
  {
    if newline {
      AsciiIsValid([NEWLINE]);
      ValidConcat(text, [NEWLINE]);
    }
  }

  lemma CommandTextParses(c: Command)
    requires WellFormedCommand(c)
    ensures ParseCommand(CommandText(c)) == Ok(Update(c))
  {
    SplitOfCommand(c);
  }

  lemma LineOfCommand(line: bytes, c: Command, firstCommand: bool, shallow: set<bytes>)
    requires WellFormedCommand(c)
    requires CommandText(c) <= line && (line == CommandText(c) || firstCommand)
    requires BeforeFirst(line, NUL) == CommandText(c)
    ensures ParseLine(line, firstCommand, shallow) == Ok(Update(c))
  {
    assert line[0] == CommandText(c)[0] == c.oldOid[0] != SHALLOW[0];
    CommandTextParses(c);
    assert line == CommandText(c) ==> NUL !in line;
  }

  /** A later command, or a first one without capabilities. */
  lemma PlainCommandParses(c: Command, newline: bool, firstCommand: bool, shallow: set<bytes>)
    requires WellFormedCommand(c)
    ensures ParseRecord(Line(CommandText(c), newline), firstCommand, shallow) == Ok(Update(c))
  {
    CommandTextIsPlain(c);
    var text := CommandText(c);
    assert text[|text| - 1] == c.refName[|c.refName| - 1];
    LineStripsBack(text, newline);
    BeforeFirstOf(text, NUL, []);
    LineOfCommand(text, c, firstCommand, shallow);
  }

  /** Whatever newline the strip removes sits after the NUL. */
  lemma StripKeepsFirstText(text: bytes, caps: bytes, newline: bool)
    requires NUL !in text
    ensures var line := StripNewline(Line(text + [NUL] + caps, newline));
            text + [NUL] <= line && BeforeFirst(line, NUL) == text
  {
    var full := text + [NUL] + caps;
    var line := StripNewline(Line(full, newline));
    if !newline && caps == [] {
      assert full[|full| - 1] == NUL;
    }
    assert text + [NUL] <= line;
    assert line == text + [NUL] + line[|text| + 1..];
    BeforeFirstOf(text, NUL, line[|text| + 1..]);
  }

  lemma FirstCommandParses(c: Command, caps: bytes, newline: bool, shallow: set<bytes>)
    requires WellFormedCommand(c) && ValidUtf8(caps)
    ensures ParseRecord(Line(FirstText(c, Some(caps)), newline), true, shallow) == Ok(Update(c))
  {
    CommandTextIsPlain(c);
    FirstTextIsValid(CommandText(c), caps, newline);
    StripKeepsFirstText(CommandText(c), caps, newline);
    LineOfCommand(StripNewline(Line(FirstText(c, Some(caps)), newline)), c, true, shallow);
  }

  lemma FirstTextIsValid(text: bytes, caps: bytes, newline: bool)
    requires ValidUtf8(text) && ValidUtf8(caps)
    ensures ValidUtf8(Line(text + [NUL] + caps, newline))
  {
    AsciiIsValid([NUL]);
    AsciiIsValid([NEWLINE]);
    ValidConcat(text, [NUL]);
    ValidConcat(text + [NUL], caps);
    ValidConcat(text + [NUL] + caps, [NEWLINE]);
  }

  lemma EncodedPacketIsFirst(payload: bytes, rest: bytes)
    requires |payload| <= PktLine.MAX_PAYLOAD
    ensures PktLine.FirstPacket(PktLine.Encode(payload) + rest)
         == Ok((PktLine.Data(payload), |PktLine.Encode(payload)|))
    ensures (PktLine.Encode(payload) + rest)[|PktLine.Encode(payload)|..] == rest
  {
    PktLine.PrintedPacketComesBack(PktLine.Data(payload), rest);
  }

  lemma ParserStep(payload: bytes, rest: bytes, firstCommand: bool, shallow: set<bytes>)
    requires |payload| <= PktLine.MAX_PAYLOAD
    requires ParseRecord(payload, firstCommand, shallow).Ok?
    ensures var record := ParseRecord(payload, firstCommand, shallow).value;
            Commands(PktLine.Encode(payload) + rest, firstCommand, shallow)
            == if record.Shallow? then Commands(rest, firstCommand, shallow + {record.oid})
               else Before(record.command, Commands(rest, false, shallow))
  {
    EncodedPacketIsFirst(payload, rest);
  }

  lemma ParserStopsAtPrintedFlush(trailing: bytes, firstCommand: bool, shallow: set<bytes>)
    ensures Commands(Ascii("0000") + trailing, firstCommand, shallow) == Ok([])
  {
    PktLine.ControlHeaders();
    assert (Ascii("0000") + trailing)[..4] == Ascii("0000");
  }

  lemma PrintedCommandStep(
      commands: seq<Command>, capabilities: Option<bytes>, newline: bool,
      firstCommand: bool, shallow: set<bytes>, tail: bytes)
    requires commands != [] && Printable(commands, capabilities, newline)
    requires capabilities.Some? ==> firstCommand
    ensures Commands(PrintCommands(commands, capabilities, newline) + tail, firstCommand, shallow)
         == Before(commands[0], Commands(PrintCommands(commands[1..], None, newline) + tail, false, shallow))
  {
    hide ParseRecord, Commands, PktLine.Encode, CommandText;
    var payload := Line(FirstText(commands[0], capabilities), newline);
    var rest := PrintCommands(commands[1..], None, newline) + tail;
    assert PrintCommands(commands, capabilities, newline) + tail == PktLine.Encode(payload) + rest;
    match capabilities {
      case None => PlainCommandParses(commands[0], newline, firstCommand, shallow);
      case Some(caps) => FirstCommandParses(commands[0], caps, newline, shallow);
    }
    ParserStep(payload, rest, firstCommand, shallow);
  }

  lemma {:induction false} PrintedCommandsParse(
      commands: seq<Command>, capabilities: Option<bytes>, newline: bool,
      firstCommand: bool, shallow: set<bytes>, trailing: bytes)
    requires Printable(commands, capabilities, newline)
    requires capabilities.Some? ==> firstCommand
    ensures Commands(PrintCommands(commands, capabilities, newline) + (Ascii("0000") + trailing),
                     firstCommand, shallow) == Ok(commands)
    decreases |commands|
  {
    hide Commands, Line, Ascii;
    var tail := Ascii("0000") + trailing;
    if commands == [] {
      assert PrintCommands(commands, capabilities, newline) + tail == tail;
      ParserStopsAtPrintedFlush(trailing, firstCommand, shallow);
    } else {
      PrintedCommandStep(commands, capabilities, newline, firstCommand, shallow, tail);
      hide PrintCommands;
      PrintedCommandsParse(commands[1..], None, newline, false, shallow, trailing);
      assert commands == [commands[0]] + commands[1..];
    }
  }

  lemma ShallowTextParses(oid: bytes, shallow: set<bytes>)
    requires IsLowercaseSha1(oid) && oid !in shallow
    ensures ParseLine(SHALLOW + oid, true, shallow) == Ok(Shallow(oid))
  {
    hide Ascii, IsLowercaseSha1;
    assert SHALLOW <= SHALLOW + oid && (SHALLOW + oid)[|SHALLOW|..] == oid;
  }

  lemma ShallowTextIsValid(oid: bytes)
    requires IsLowercaseSha1(oid)
    ensures ValidUtf8(SHALLOW + oid) && |SHALLOW + oid| == 48 && (SHALLOW + oid)[47] != NEWLINE
  {
    HexIsPlain(oid);
    AsciiIsValid(SHALLOW);
    assert |SHALLOW| == 8;
    hide ValidUtf8, Ascii;
    ValidConcat(SHALLOW, oid);
    assert (SHALLOW + oid)[47] == oid[39];
  }

  lemma ShallowParses(oid: bytes, newline: bool, shallow: set<bytes>)
    requires IsLowercaseSha1(oid) && oid !in shallow
    ensures ParseRecord(Line(SHALLOW + oid, newline), true, shallow) == Ok(Shallow(oid))
    ensures |Line(SHALLOW + oid, newline)| <= 49
  {
    hide ValidUtf8, Ascii, StripNewline, ParseLine, IsLowercaseSha1;
    ShallowTextIsValid(oid);
    ShallowTextParses(oid, shallow);
    LineStripsBack(SHALLOW + oid, newline);
  }

  lemma PrintedShallowStep(oids: seq<bytes>, newline: bool, shallow: set<bytes>, tail: bytes)
    requires oids != [] && IsLowercaseSha1(oids[0]) && oids[0] !in shallow
    ensures Commands(PrintShallows(oids, newline) + tail, true, shallow)
         == Commands(PrintShallows(oids[1..], newline) + tail, true, shallow + {oids[0]})
  {
    var payload := Line(SHALLOW + oids[0], newline);
    var rest := PrintShallows(oids[1..], newline) + tail;
    assert PrintShallows(oids, newline) + tail == PktLine.Encode(payload) + rest;
    ShallowParses(oids[0], newline, shallow);
    ParserStep(payload, rest, true, shallow);
  }

  /**
   Distinct shallow oids, then commands with capabilities on the first, then a
   flush and any packfile bytes: the parser returns exactly the commands.
   */
  lemma {:induction false} PrintedPreludeParses(
      oids: seq<bytes>, commands: seq<Command>, capabilities: Option<bytes>, newline: bool,
      shallow: set<bytes>, trailing: bytes)
    requires forall i | 0 <= i < |oids| :: IsLowercaseSha1(oids[i]) && oids[i] !in shallow
    requires forall i, j | 0 <= i < j < |oids| :: oids[i] != oids[j]
    requires Printable(commands, capabilities, newline)
    ensures Commands(PrintShallows(oids, newline)
                     + (PrintCommands(commands, capabilities, newline) + (Ascii("0000") + trailing)),
                     true, shallow) == Ok(commands)
    decreases |oids|
  {
    hide Commands;
    var printed := PrintCommands(commands, capabilities, newline) + (Ascii("0000") + trailing);
    if oids == [] {
      assert PrintShallows(oids, newline) + printed == printed;
      PrintedCommandsParse(commands, capabilities, newline, true, shallow, trailing);
    } else {
      PrintedShallowStep(oids, newline, shallow, printed);
      PrintedPreludeParses(oids[1..], commands, capabilities, newline, shallow + {oids[0]}, trailing);
    }
  }
}
