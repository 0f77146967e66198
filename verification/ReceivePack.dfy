/**
 The receive-pack prelude (crates/jeryu-gitd/src/pack.rs), after the section
 "Reference Update Request and Packfile Transfer" of gitprotocol-pack.

 Two programs read the same bytes: a parser over a whole request body, and a
 scanner that reads a socket packet by packet and carries its offset between
 reads. The streamed policy check is proved to refine the buffered one.
 */
module ReceivePack {
  import opened Common
  import opened Utf8
  import PktLine

  const MAX_PRELUDE_BYTES := 1024 * 1024
  const SHALLOW := Ascii("shallow ")
  const REFS := Ascii("refs/")
  const MAIN_REF := Ascii("refs/heads/main")
  const NUL: byte := 0
  const NEWLINE: byte := 10
  const SPACE: byte := 32

  datatype Command = Command(oldOid: bytes, newOid: bytes, refName: bytes)

  /** `ProtectedRefDenied` is its own error; every other one is a protocol error. */
  datatype Error =
    | MissingLength | InvalidLength | ReservedLength | Truncated | ControlPacket
    | NotUtf8 | ShallowAfterCommand | InvalidShallow | DuplicateShallow
    | LateCapabilities | MissingField | InvalidCommand
    | PrefixTooLong | PreludeTooLong | PreludeTruncated
    | ProtectedRefDenied

  // ----- one record -----

  predicate IsLowercaseSha1(s: bytes) {
    |s| == 40 && forall i | 0 <= i < |s| :: 48 <= s[i] <= 57 || 97 <= s[i] <= 102
  }

  predicate StartsWith(s: bytes, prefix: bytes) {
    prefix <= s
  }

  /** `strip_suffix('\n')`. */
  function StripNewline(s: bytes): bytes {
    if s != [] && s[|s| - 1] == NEWLINE then s[..|s| - 1] else s
  }

  /** The part before the first `c`, all of `s` when there is none. */
  function BeforeFirst(s: bytes, c: byte): (r: bytes)
    ensures c !in r && r <= s
    ensures |r| < |s| ==> s[|r|] == c
  {
    if s == [] || s[0] == c then [] else [s[0]] + BeforeFirst(s[1..], c)
  }

  /** `split(c)`: never empty. */
  function Split(s: bytes, c: byte): (parts: seq<bytes>)
    ensures |parts| >= 1
    decreases |s|
  {
    var head := BeforeFirst(s, c);
    if |head| == |s| then [s] else [head] + Split(s[|head| + 1..], c)
  }

  datatype Record = Shallow(oid: bytes) | Update(command: Command)

  function ParseCommand(text: bytes): Result<Record, Error> {
    var parts := Split(text, SPACE);
    if |parts| < 3 then Err(MissingField)
    else if |parts| > 3 || !IsLowercaseSha1(parts[0]) || !IsLowercaseSha1(parts[1])
      || !StartsWith(parts[2], REFS) || |parts[2]| == |REFS| then Err(InvalidCommand)
    else Ok(Update(Command(parts[0], parts[1], parts[2])))
  }

  function ParseLine(line: bytes, firstCommand: bool, shallow: set<bytes>): Result<Record, Error> {
    if StartsWith(line, SHALLOW) then
      var oid := line[|SHALLOW|..];
      if !firstCommand then Err(ShallowAfterCommand)
      else if !IsLowercaseSha1(oid) then Err(InvalidShallow)
      else if oid in shallow then Err(DuplicateShallow)
      else Ok(Shallow(oid))
    else if firstCommand then ParseCommand(BeforeFirst(line, NUL))
    else if NUL in line then Err(LateCapabilities)
    else ParseCommand(line)
  }

  /** One data packet, given whether no command was seen yet and the shallow oids so far. */
  function ParseRecord(payload: bytes, firstCommand: bool, shallow: set<bytes>): Result<Record, Error> {
    if !ValidUtf8(payload) then Err(NotUtf8)
    else ParseLine(StripNewline(payload), firstCommand, shallow)
  }

  /** The parser's state after a record: is a command still to come, and the shallow oids. */
  function After(firstCommand: bool, shallow: set<bytes>, record: Record): (bool, set<bytes>) {
    if record.Shallow? then (firstCommand, shallow + {record.oid}) else (false, shallow)
  }

  // ----- the whole-body parser -----

  function Framing(e: PktLine.Error): Error {
    match e
    case MissingLength => MissingLength
    case InvalidLength => InvalidLength
    case ReservedLength => ReservedLength
    case Truncated => Truncated
  }

  function Before(c: Command, r: Result<seq<Command>, Error>): Result<seq<Command>, Error> {
    match r
    case Err(e) => Err(e)
    case Ok(rest) => Ok([c] + rest)
  }

  /** The commands of a prelude, up to its flush or the end of the bytes. */
  function Commands(input: bytes, firstCommand: bool, shallow: set<bytes>): Result<seq<Command>, Error>
    decreases |input|
  {
    if input == [] then Ok([])
    else
      match PktLine.FirstPacket(input)
      case Err(e) => Err(Framing(e))
      case Ok((Flush, _)) => Ok([])
      case Ok((Delim, _)) => Err(ControlPacket)
      case Ok((ResponseEnd, _)) => Err(ControlPacket)
      case Ok((Data(payload), width)) =>
        match ParseRecord(payload, firstCommand, shallow)
        case Err(e) => Err(e)
        case Ok(Shallow(oid)) => Commands(input[width..], firstCommand, shallow + {oid})
        case Ok(Update(c)) => Before(c, Commands(input[width..], false, shallow))
  }

  function Prepend(commands: seq<Command>, r: Result<seq<Command>, Error>): Result<seq<Command>, Error> {
    match r
    case Err(e) => Err(e)
    case Ok(rest) => Ok(commands + rest)
  }

  method ReceivePackCommands(input0: bytes) returns (r: Result<seq<Command>, Error>)
    ensures r == Commands(input0, true, {})
  {
    var input := input0;
    var commands: seq<Command> := [];
    var firstCommand := true;
    var shallowOids: set<bytes> := {};
    assert forall rest: seq<Command> :: commands + rest == rest;
    while input != []
      invariant Commands(input0, true, {}) == Prepend(commands, Commands(input, firstCommand, shallowOids))
      decreases |input|
    {
      if |input| < 4 {
        return Err(MissingLength);
      }
      var header := PktLine.HeaderLength(input[..4]);
      if header == None {
        return Err(InvalidLength);
      }
      var n := header.value;
      ghost var before := input;
      input := input[4..];
      if n == 0 {
        assert commands + [] == commands;
        return Ok(commands);
      }
      if n == 1 || n == 2 {
        return Err(ControlPacket);
      }
      if n == 3 {
        return Err(ReservedLength);
      }
      if |input| < n - 4 {
        return Err(Truncated);
      }
      var payload := input[..n - 4];
      input := input[n - 4..];
      assert payload == before[4..n] && input == before[n..];
      var parsed := ParseRecord(payload, firstCommand, shallowOids);
      match parsed {
        case Err(e) =>
          return Err(e);
        case Ok(Shallow(oid)) =>
          shallowOids := shallowOids + {oid};
        case Ok(Update(c)) =>
          assert forall rest :: commands + ([c] + rest) == commands + [c] + rest;
          firstCommand := false;
          commands := commands + [c];
      }
    }
    assert commands + [] == commands;
    r := Ok(commands);
  }

  /** Neither a malformed body nor one that touches main is accepted. */
  predicate PolicyAccepts(body: bytes) {
    var r := Commands(body, true, {});
    r.Ok? && AvoidsMain(r.value)
  }

  /** A well-formed body refused only for touching main. */
  predicate PolicyDenies(body: bytes) {
    var r := Commands(body, true, {});
    r.Ok? && !AvoidsMain(r.value)
  }

  predicate AvoidsMain(commands: seq<Command>) {
    forall i | 0 <= i < |commands| :: commands[i].refName != MAIN_REF
  }

  method EnsureReceivePackPolicy(body: bytes) returns (r: Result<(), Error>)
    ensures r.Ok? <==> PolicyAccepts(body)
    ensures r == Err(ProtectedRefDenied) <==> PolicyDenies(body)
  {
    hide Commands;
    var parsed := ReceivePackCommands(body);
    ErrorsAreProtocolErrors(body, true, {});
    if parsed.Err? {
      return Err(parsed.error);
    }
    var commands := parsed.value;
    for i := 0 to |commands|
      invariant AvoidsMain(commands[..i])
    {
      if commands[i].refName == MAIN_REF {
        return Err(ProtectedRefDenied);
      }
      assert commands[..i + 1] == commands[..i] + [commands[i]];
    }
    assert commands[..|commands|] == commands;
    r := Ok(());
  }

  lemma RecordErrorsAreProtocolErrors(payload: bytes, firstCommand: bool, shallow: set<bytes>)
    ensures ParseRecord(payload, firstCommand, shallow) != Err(ProtectedRefDenied)
  {
    hide ValidUtf8, IsLowercaseSha1, Split, BeforeFirst, StripNewline;
  }

  lemma {:induction false} ErrorsAreProtocolErrors(input: bytes, firstCommand: bool, shallow: set<bytes>)
    ensures Commands(input, firstCommand, shallow) != Err(ProtectedRefDenied)
    decreases |input|
  {
    hide PktLine.FirstPacket, ParseRecord;
    if input != [] && PktLine.FirstPacket(input).Ok? {
      var (packet, width) := PktLine.FirstPacket(input).value;
      if packet.Data? {
        var record := ParseRecord(packet.payload, firstCommand, shallow);
        RecordErrorsAreProtocolErrors(packet.payload, firstCommand, shallow);
        if record.Ok? {
          var (first', shallow') := After(firstCommand, shallow, record.value);
          ErrorsAreProtocolErrors(input[width..], first', shallow');
        }
      }
    }
  }

  // ----- the resumable scanner -----

  /** `Need` carries the offset the scan stopped at. */
  datatype Scanned = Complete(preludeLen: nat) | Need(more: nat, offset: nat) | Bad(error: Error)

  /** Offset of the packet after the one at `offset`, when that one is whole and not a flush. */
  function NextOffset(input: bytes, offset: nat): (r: Option<nat>)
    requires offset <= |input|
    ensures r.Some? ==> offset < r.value <= |input|
  {
    if |input| - offset < 4 then None
    else
      match PktLine.HeaderLength(input[offset..offset + 4])
      case None => None
      case Some(n) =>
        if n == 1 || n == 2 then Some(offset + 4)
        else if 4 <= n <= |input| - offset then Some(offset + n)
        else None
  }

  function Scan(input: bytes, offset: nat): Scanned
    requires offset <= |input|
    decreases |input| - offset
  {
    var remaining := |input| - offset;
    if remaining < 4 then Need(4 - remaining, offset)
    else
      match PktLine.HeaderLength(input[offset..offset + 4])
      case None => Bad(InvalidLength)
      case Some(n) =>
        if n == 0 then Complete(offset + 4)
        else if n == 1 || n == 2 then Scan(input, offset + 4)
        else if n == 3 then Bad(ReservedLength)
        else if remaining < n then Need(n - remaining, offset)
        else Scan(input, offset + n)
  }

  method ReceivePackPreludeState(input: bytes, offset0: nat) returns (r: Scanned, offset: nat)
    requires offset0 <= |input|
    ensures r == Scan(input, offset0)
    ensures offset <= |input| && Reaches(input, offset0, offset) && Scan(input, offset) == r
    ensures r.Need? ==> r.offset == offset
  {
    offset := offset0;
    while true
      invariant offset <= |input| && Reaches(input, offset0, offset)
      invariant Scan(input, offset0) == Scan(input, offset)
      decreases |input| - offset
    {
      var remaining := |input| - offset;
      if remaining < 4 {
        return Need(4 - remaining, offset), offset;
      }
      var header := PktLine.HeaderLength(input[offset..offset + 4]);
      if header == None {
        return Bad(InvalidLength), offset;
      }
      var n := header.value;
      if n == 0 {
        return Complete(offset + 4), offset;
      }
      if n == 3 {
        return Bad(ReservedLength), offset;
      }
      if n >= 4 && remaining < n {
        return Need(n - remaining, offset), offset;
      }
      ReachesExtends(input, offset0, offset);
      offset := if n == 1 || n == 2 then offset + 4 else offset + n;
    }
  }

  /** `to` is a packet boundary met by walking whole packets from `from`. */
  ghost predicate Reaches(input: bytes, from: nat, to: nat)
    requires from <= |input|
    decreases |input| - from
  {
    from == to || (NextOffset(input, from).Some? && Reaches(input, NextOffset(input, from).value, to))
  }

  lemma {:induction false} ReachesExtends(input: bytes, from: nat, to: nat)
    requires from <= |input| && to <= |input| && Reaches(input, from, to) && NextOffset(input, to).Some?
    ensures Reaches(input, from, NextOffset(input, to).value)
    decreases |input| - from
  {
    if from != to {
      ReachesExtends(input, NextOffset(input, from).value, to);
    }
  }

  /** A boundary stays one when bytes arrive, and scanning from it equals scanning from the start. */
  lemma {:induction false} ResumeEqualsRescan(input: bytes, more: bytes, from: nat, to: nat)
    requires from <= |input| && to <= |input| && Reaches(input, from, to)
    ensures Reaches(input + more, from, to)
    ensures Scan(input + more, from) == Scan(input + more, to)
    decreases |input| - from
  {
    if from != to {
      assert input[from..from + 4] == (input + more)[from..from + 4];
      ResumeEqualsRescan(input, more, NextOffset(input, from).value, to);
    }
  }

  /** More bytes never change a verdict. */
  lemma {:induction false} ScanIsStable(input: bytes, more: bytes, offset: nat)
    requires offset <= |input|
    ensures !Scan(input, offset).Need? ==> Scan(input + more, offset) == Scan(input, offset)
    decreases |input| - offset
  {
    if |input| - offset >= 4 {
      assert input[offset..offset + 4] == (input + more)[offset..offset + 4];
      if NextOffset(input, offset).Some? {
        ScanIsStable(input, more, NextOffset(input, offset).value);
      }
    }
  }

  /** The scanner never asks for a byte past the end of the prelude. */
  lemma {:induction false} NeedStaysInsidePrelude(input: bytes, more: bytes, offset: nat)
    requires offset <= |input|
    ensures Scan(input, offset).Need? && Scan(input + more, offset).Complete? ==>
              |input| + Scan(input, offset).more <= Scan(input + more, offset).preludeLen
    decreases |input| - offset
  {
    var whole := input + more;
    CompleteIsPastOffset(whole, offset);
    if |input| - offset >= 4 {
      assert input[offset..offset + 4] == whole[offset..offset + 4];
      if NextOffset(input, offset).Some? {
        NeedStaysInsidePrelude(input, more, NextOffset(input, offset).value);
      } else if NextOffset(whole, offset).Some? {
        CompleteIsPastOffset(whole, NextOffset(whole, offset).value);
      }
    }
  }

  lemma {:induction false} CompleteIsPastOffset(input: bytes, offset: nat)
    requires offset <= |input|
    ensures Scan(input, offset).Complete? ==> offset + 4 <= Scan(input, offset).preludeLen <= |input|
    decreases |input| - offset
  {
    if NextOffset(input, offset).Some? {
      CompleteIsPastOffset(input, NextOffset(input, offset).value);
    }
  }

  // ----- reading the prelude from a stream -----

  /**
   A byte source. `stream` is what it delivers before it ends or its connection
   fails: an exact read reports both alike and may have consumed what was left.
   */
  class Reader {
    const stream: bytes
    var pos: nat

    ghost predicate Valid() reads this { pos <= |stream| }

    ghost function Unread(): bytes
      reads this
      requires Valid()
    {
      stream[pos..]
    }

    constructor (stream: bytes)
      ensures Valid() && Unread() == stream
    {
      this.stream := stream;
      pos := 0;
    }

    method ReadExact(n: nat) returns (ok: bool, chunk: bytes)
      requires Valid()
      modifies this
      ensures Valid()
      ensures ok <==> n <= |old(Unread())|
      ensures ok ==> chunk == old(Unread())[..n] && Unread() == old(Unread())[n..]
    {
      if n <= |stream| - pos {
        chunk := stream[pos..pos + n];
        pos := pos + n;
        ok := true;
      } else {
        pos := |stream|;
        ok, chunk := false, [];
      }
    }
  }

  /** The bytes `prefix`, then `stream`, hold a whole prelude inside both limits. */
  predicate PreludeArrives(prefix: bytes, stream: bytes, contentLength: nat) {
    var scan := Scan(prefix + stream, 0);
    && |prefix| <= contentLength
    && scan.Complete?
    && scan.preludeLen <= MAX_PRELUDE_BYTES
    && scan.preludeLen <= contentLength
    && scan.preludeLen <= |prefix + stream|
  }

  function Prelude(prefix: bytes, stream: bytes): bytes
    requires PreludeArrives(prefix, stream, |prefix + stream|)
  {
    (prefix + stream)[..Scan(prefix + stream, 0).preludeLen]
  }

  /** When the streamed check lets a push through. */
  predicate StreamAccepts(prefix: bytes, stream: bytes, contentLength: nat) {
    PreludeArrives(prefix, stream, contentLength) && PolicyAccepts(Prelude(prefix, stream))
  }

  predicate StreamDenies(prefix: bytes, stream: bytes, contentLength: nat) {
    PreludeArrives(prefix, stream, contentLength) && PolicyDenies(Prelude(prefix, stream))
  }

  function Max(a: nat, b: nat): nat { if a < b then b else a }

  lemma {:induction false} ReachesJoins(input: bytes, a: nat, b: nat, c: nat)
    requires a <= |input| && b <= |input| && Reaches(input, a, b) && Reaches(input, b, c)
    ensures Reaches(input, a, c)
    decreases |input| - a
  {
    if a != b {
      ReachesJoins(input, NextOffset(input, a).value, b, c);
    }
  }

  lemma {:induction false} NeedIsPositive(input: bytes, offset: nat)
    requires offset <= |input|
    ensures Scan(input, offset).Need? ==> Scan(input, offset).more > 0
    decreases |input| - offset
  {
    if NextOffset(input, offset).Some? {
      NeedIsPositive(input, NextOffset(input, offset).value);
    }
  }

  lemma {:induction false} ScanLandsOnBoundary(input: bytes, offset: nat)
    requires offset <= |input|
    ensures var r := Scan(input, offset);
      && (r.Need? ==> r.offset <= |input| && Reaches(input, offset, r.offset))
      && r != Bad(ProtectedRefDenied)
    decreases |input| - offset
  {
    if NextOffset(input, offset).Some? {
      ScanLandsOnBoundary(input, NextOffset(input, offset).value);
    }
  }

  /** What one scan of the bytes read so far says about all the bytes. */
  lemma ReadStep(prefix: bytes, unread: bytes, offset: nat)
    requires offset <= |prefix| && Reaches(prefix, 0, offset)
    ensures var r, whole := Scan(prefix, offset), Scan(prefix + unread, 0);
      && (!r.Need? ==> whole == r)
      && (r.Complete? ==> r.preludeLen <= |prefix|)
      && r != Bad(ProtectedRefDenied)
      && (r.Need? ==> r.more > 0 && r.offset <= |prefix| && Reaches(prefix, 0, r.offset))
      && (r.Need? && whole.Complete? ==> |prefix| + r.more <= whole.preludeLen <= |prefix + unread|)
  {
    ResumeEqualsRescan(prefix, unread, 0, offset);
    ScanIsStable(prefix, unread, offset);
    NeedStaysInsidePrelude(prefix, unread, offset);
    CompleteIsPastOffset(prefix, offset);
    CompleteIsPastOffset(prefix + unread, 0);
    ScanLandsOnBoundary(prefix, offset);
    NeedIsPositive(prefix, offset);
    if Scan(prefix, offset).Need? {
      ReachesJoins(prefix, 0, offset, Scan(prefix, offset).offset);
    }
  }

  lemma BytesMoveOver(prefix: bytes, unread: bytes, n: nat)
    requires n <= |unread|
    ensures (prefix + unread[..n]) + unread[n..] == prefix + unread
  {
    assert unread[..n] + unread[n..] == unread;
  }

  lemma StillReaches(prefix: bytes, chunk: bytes, offset: nat)
    requires offset <= |prefix| && Reaches(prefix, 0, offset)
    ensures Reaches(prefix + chunk, 0, offset)
  {
    ResumeEqualsRescan(prefix, chunk, 0, offset);
  }

  /** What a result says about the bytes: both directions for acceptance and for denial. */
  ghost predicate Judges(r: Result<bytes, Error>, prefix: bytes, stream: bytes, contentLength: nat) {
    && (r.Ok? <==> StreamAccepts(prefix, stream, contentLength))
    && (r == Err(ProtectedRefDenied) <==> StreamDenies(prefix, stream, contentLength))
  }

  lemma RefusedWithoutPrelude(e: Error, prefix: bytes, stream: bytes, contentLength: nat)
    requires e != ProtectedRefDenied && !PreludeArrives(prefix, stream, contentLength)
    ensures Judges(Err(e), prefix, stream, contentLength)
  {
  }

  /** A prelude, if there is one, needs `need` bytes, and that is too many. */
  lemma RefusedAsTooLong(e: Error, prefix: bytes, stream: bytes, contentLength: nat, need: nat)
    requires e != ProtectedRefDenied
    requires Scan(prefix + stream, 0).Complete? ==> need <= Scan(prefix + stream, 0).preludeLen
    requires need > MAX_PRELUDE_BYTES || need > contentLength || need > |prefix| + |stream|
    ensures Judges(Err(e), prefix, stream, contentLength)
  {
    hide Scan;
    RefusedWithoutPrelude(e, prefix, stream, contentLength);
  }

  /** The prelude is complete in `prefix`: bound it and ask the policy. */
  method JudgePrelude(prefix: bytes, preludeLen: nat, ghost prefix0: bytes, ghost stream: bytes, contentLength: nat)
    returns (r: Result<bytes, Error>)
    requires preludeLen <= |prefix| <= contentLength && |prefix0| <= contentLength
    requires prefix <= prefix0 + stream && Scan(prefix0 + stream, 0) == Complete(preludeLen)
    ensures Judges(r, prefix0, stream, contentLength)
    ensures r.Ok? ==> r.value == prefix
  {
    if preludeLen > MAX_PRELUDE_BYTES {
      return Err(PreludeTooLong);
    }
    assert PreludeArrives(prefix0, stream, contentLength);
    assert prefix[..preludeLen] == Prelude(prefix0, stream);
    var policy := EnsureReceivePackPolicy(prefix[..preludeLen]);
    r := if policy.Err? then Err(policy.error) else Ok(prefix);
  }

  method ReadReceivePackPrefix(reader: Reader, contentLength: nat, prefix0: bytes)
    returns (r: Result<bytes, Error>)
    requires reader.Valid()
    modifies reader
    ensures reader.Valid()
    ensures r.Ok? <==> StreamAccepts(prefix0, old(reader.Unread()), contentLength)
    ensures r == Err(ProtectedRefDenied) <==> StreamDenies(prefix0, old(reader.Unread()), contentLength)
    ensures r.Ok? ==> r.value + reader.Unread() == prefix0 + old(reader.Unread())
    ensures r.Ok? ==>
      |r.value| == Max(|prefix0|, Scan(prefix0 + old(reader.Unread()), 0).preludeLen)
  {
    assert Reaches(prefix0, 0, 0);
    assert |prefix0| > contentLength ==> !PreludeArrives(prefix0, reader.Unread(), contentLength);
    hide Scan, Reaches, PreludeArrives, StreamAccepts, StreamDenies, Reader.Valid, Reader.Unread;
    var prefix := prefix0;
    ghost var stream := reader.Unread();
    if |prefix| > contentLength {
      RefusedWithoutPrelude(PrefixTooLong, prefix0, stream, contentLength);
      return Err(PrefixTooLong);
    }
    ghost var whole := prefix0 + stream;
    var offset: nat := 0;
    while true
      invariant reader.Valid() && prefix + reader.Unread() == whole
      invariant offset <= |prefix| <= contentLength && Reaches(prefix, 0, offset)
      invariant |prefix0| <= |prefix|
      invariant Scan(whole, 0).Complete? ==> |prefix| <= Max(|prefix0|, Scan(whole, 0).preludeLen)
      decreases |reader.Unread()|
    {
      ReadStep(prefix, reader.Unread(), offset);
      var state;
      state, offset := ReceivePackPreludeState(prefix, offset);
      match state {
        case Bad(e) =>
          RefusedAsTooLong(e, prefix0, stream, contentLength, contentLength + 1);
          return Err(e);
        case Complete(preludeLen) =>
          r := JudgePrelude(prefix, preludeLen, prefix0, stream, contentLength);
          return;
        case Need(more, _) =>
          var nextLen := |prefix| + more;
          if nextLen > MAX_PRELUDE_BYTES {
            RefusedAsTooLong(PreludeTooLong, prefix0, stream, contentLength, nextLen);
            return Err(PreludeTooLong);
          }
          if nextLen > contentLength {
            RefusedAsTooLong(PreludeTruncated, prefix0, stream, contentLength, nextLen);
            return Err(PreludeTruncated);
          }
          ghost var unread := reader.Unread();
          var ok, chunk := reader.ReadExact(more);
          if !ok {
            RefusedAsTooLong(PreludeTruncated, prefix0, stream, contentLength, nextLen);
            return Err(PreludeTruncated);
          }
          StillReaches(prefix, chunk, offset);
          BytesMoveOver(prefix, unread, more);
          prefix := prefix + chunk;
      }
    }
  }

  // ----- the streamed check refines the buffered one -----

  lemma SameFirstPacket(a: bytes, b: bytes)
    requires b <= a && PktLine.FirstPacket(b).Ok?
    ensures PktLine.FirstPacket(a) == PktLine.FirstPacket(b)
  {
    assert a[..4] == b[..4];
    var n := PktLine.HeaderLength(b[..4]).value;
    if n >= 4 {
      assert a[4..n] == b[4..n];
    }
  }

  /** Bodies that open with the same packet parse alike when their rests do. */
  lemma SameRestSameCommands(a: bytes, b: bytes, firstCommand: bool, shallow: set<bytes>)
    requires a != [] && b != [] && PktLine.FirstPacket(a) == PktLine.FirstPacket(b)
    requires PktLine.FirstPacket(a).Ok? && PktLine.FirstPacket(a).value.0.Data? ==>
      var (packet, width) := PktLine.FirstPacket(a).value;
      var record := ParseRecord(packet.payload, firstCommand, shallow);
      record.Ok? ==>
        var (first', shallow') := After(firstCommand, shallow, record.value);
        Commands(a[width..], first', shallow') == Commands(b[width..], first', shallow')
    ensures Commands(a, firstCommand, shallow) == Commands(b, firstCommand, shallow)
  {
  }

  /** The parser never looks past the flush the scanner stops at. */
  lemma {:induction false} ParserStopsAtFlush(
      body: bytes, offset: nat, firstCommand: bool, shallow: set<bytes>)
    requires offset <= |body| && Scan(body, offset).Complete?
    ensures offset <= Scan(body, offset).preludeLen <= |body|
    ensures Commands(body[offset..], firstCommand, shallow)
         == Commands(body[offset..Scan(body, offset).preludeLen], firstCommand, shallow)
    decreases |body| - offset
  {
    hide PktLine.FirstPacket, ParseRecord, Scan, Commands;
    CompleteIsPastOffset(body, offset);
    var a, b := body[offset..], body[offset..Scan(body, offset).preludeLen];
    ScannedPacketIsWhole(body, offset);
    SameFirstPacket(a, b);
    var (packet, width) := PktLine.FirstPacket(b).value;
    if packet.Data? {
      var record := ParseRecord(packet.payload, firstCommand, shallow);
      if record.Ok? {
        var (first', shallow') := After(firstCommand, shallow, record.value);
        ParserStopsAtFlush(body, offset + width, first', shallow');
        assert a[width..] == body[offset + width..];
        assert b[width..] == body[offset + width..Scan(body, offset).preludeLen];
      }
    }
    SameRestSameCommands(a, b, firstCommand, shallow);
  }

  /** The first packet of a complete scan lies inside the prelude, and the scan goes on after it. */
  lemma ScannedPacketIsWhole(body: bytes, offset: nat)
    requires offset <= |body| && Scan(body, offset).Complete?
    ensures offset + 4 <= Scan(body, offset).preludeLen <= |body|
    ensures var r := PktLine.FirstPacket(body[offset..Scan(body, offset).preludeLen]);
      && r.Ok?
      && (r.value.0.Data? ==> offset + r.value.1 <= |body|)
      && (r.value.0.Data? ==> Scan(body, offset + r.value.1) == Scan(body, offset))
  {
    CompleteIsPastOffset(body, offset);
    var b := body[offset..Scan(body, offset).preludeLen];
    assert b[..4] == body[offset..offset + 4];
    if NextOffset(body, offset).Some? {
      CompleteIsPastOffset(body, NextOffset(body, offset).value);
    }
  }

  /**
   A push the streamed check accepts is one the buffered check accepts on the
   whole body, with the same commands; and every body the buffered check
   accepts passes the stream when its prelude ends in a flush inside the limits.
   */
  lemma StreamedCheckRefinesBuffered(prefix: bytes, stream: bytes, contentLength: nat)
    ensures var body := prefix + stream;
      && (PreludeArrives(prefix, stream, contentLength) ==>
            Commands(Prelude(prefix, stream), true, {}) == Commands(body, true, {}))
      && (StreamAccepts(prefix, stream, contentLength) <==>
            PolicyAccepts(body) && PreludeArrives(prefix, stream, contentLength))
      && (StreamDenies(prefix, stream, contentLength) <==>
            PolicyDenies(body) && PreludeArrives(prefix, stream, contentLength))
  {
    var body := prefix + stream;
    if PreludeArrives(prefix, stream, contentLength) {
      ParserStopsAtFlush(body, 0, true, {});
      assert body[0..] == body;
      assert body[0..Scan(body, 0).preludeLen] == Prelude(prefix, stream);
    }
  }

  lemma AcceptedBodyGoesOn(rest: bytes, firstCommand: bool, shallow: set<bytes>)
    returns (first': bool, shallow': set<bytes>)
    requires rest != [] && Commands(rest, firstCommand, shallow).Ok?
    ensures PktLine.FirstPacket(rest).Ok?
    ensures var (packet, width) := PktLine.FirstPacket(rest).value;
      packet.Flush? || (packet.Data? && Commands(rest[width..], first', shallow').Ok?)
  {
    first', shallow' := false, {};
    var (packet, width) := PktLine.FirstPacket(rest).value;
    if packet.Data? {
      var record := ParseRecord(packet.payload, firstCommand, shallow).value;
      var state := After(firstCommand, shallow, record);
      first', shallow' := state.0, state.1;
    }
  }

  lemma ScanOfFirstPacket(body: bytes, offset: nat)
    requires offset < |body| && PktLine.FirstPacket(body[offset..]).Ok?
    ensures var (packet, width) := PktLine.FirstPacket(body[offset..]).value;
      && (packet.Flush? ==> Scan(body, offset).Complete?)
      && (packet.Data? ==> Scan(body, offset) == Scan(body, offset + width))
  {
    assert body[offset..][..4] == body[offset..offset + 4];
  }

  /** The one thing the parser forgives: a body that ends on a packet boundary with no flush. */
  lemma {:induction false} ParserForgivesOnlyAMissingFlush(
      body: bytes, offset: nat, firstCommand: bool, shallow: set<bytes>)
    requires offset <= |body| && Commands(body[offset..], firstCommand, shallow).Ok?
    ensures Scan(body, offset).Complete? || Scan(body, offset) == Need(4, |body|)
    decreases |body| - offset
  {
    hide PktLine.FirstPacket, ParseRecord;
    if offset < |body| {
      var rest := body[offset..];
      var first', shallow' := AcceptedBodyGoesOn(rest, firstCommand, shallow);
      ScanOfFirstPacket(body, offset);
      var (packet, width) := PktLine.FirstPacket(rest).value;
      if packet.Data? {
        assert rest[width..] == body[offset + width..];
        ParserForgivesOnlyAMissingFlush(body, offset + width, first', shallow');
      }
    }
  }
}
