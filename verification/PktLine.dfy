/**
 Git's pkt-line framing (crates/jeryu-gitd/src/pktline.rs), after the section
 "pkt-line Format" of gitprotocol-common.
 */
module PktLine {
  import opened Common
  import opened Utf8

  datatype Packet = Flush | Delim | ResponseEnd | Data(payload: bytes)

  /** Every failure is a protocol error; the constructors tell its text apart. */
  datatype Error = MissingLength | InvalidLength | ReservedLength | Truncated

  /** The largest payload whose frame length has four hexadecimal digits. */
  const MAX_PAYLOAD := 65_531

  // ----- the length header -----

  function HexValue(b: byte): (v: Option<nat>)
    ensures v.Some? ==> v.value < 16
  {
    if 48 <= b <= 57 then Some(b - 48)
    else if 97 <= b <= 102 then Some(b - 87)
    else if 65 <= b <= 70 then Some(b - 55)
    else None
  }

  /** Digits of either case, most significant first; `None` on any other byte. */
  function ParseHex(s: bytes): Option<nat> {
    if s == [] then Some(0)
    else
      match (ParseHex(s[..|s| - 1]), HexValue(s[|s| - 1]))
      case (Some(high), Some(low)) => Some(16 * high + low)
      case _ => None
  }

  /** `usize::from_str_radix(hdr, 16)` on four bytes, a leading `+` included. */
  function HeaderLength(h: bytes): Option<nat>
    requires |h| == 4
  {
    if h[0] == 43 then ParseHex(h[1..]) else ParseHex(h)
  }

  function HexDigit(n: nat): byte
    requires n < 16
  {
    if n < 10 then 48 + n else 87 + n
  }

  /** `{n:0widthx}`: lowercase hexadecimal, at least `width` digits. */
  function Hex(n: nat, width: nat): (s: bytes)
    ensures |s| >= width && |s| >= 1
    decreases n, width
  {
    if n < 16 && width <= 1 then [HexDigit(n)]
    else Hex(n / 16, if width == 0 then 0 else width - 1) + [HexDigit(n % 16)]
  }

  lemma {:induction false} HexReadsBack(n: nat, width: nat)
    ensures ParseHex(Hex(n, width)) == Some(n)
    decreases n, width
  {
    var s := Hex(n, width);
    assert HexValue(HexDigit(n % 16)) == Some(n % 16);
    if n < 16 && width <= 1 {
      assert s[..0] == [];
    } else {
      HexReadsBack(n / 16, if width == 0 then 0 else width - 1);
      assert s[..|s| - 1] == Hex(n / 16, if width == 0 then 0 else width - 1);
    }
  }

  lemma HexStartsWithDigit(n: nat, width: nat)
    ensures HexValue(Hex(n, width)[0]).Some?
    decreases n, width
  {
  }

  /** Four digits hold exactly the lengths below 65536. */
  lemma HexOfShortLength(n: nat)
    ensures |Hex(n, 4)| == 4 <==> n < 65_536
  {
    assert |Hex(n / 4096, 1)| == 1 <==> n / 4096 < 16;
    assert |Hex(n / 256, 2)| == 1 + |Hex(n / 4096, 1)|;
    assert |Hex(n / 16, 3)| == 1 + |Hex(n / 256, 2)|;
  }

  /** A longer length is cut after four digits, and those read as a smaller number. */
  lemma {:induction false} HexOfLongLength(n: nat)
    requires n >= 4096
    ensures |Hex(n, 4)| >= 4
    ensures exists v :: 4096 <= v < 65_536 && v <= n && ParseHex(Hex(n, 4)[..4]) == Some(v)
  {
    var s := Hex(n, 4);
    if n < 65_536 {
      HexOfShortLength(n);
      HexReadsBack(n, 4);
      assert s[..4] == s;
    } else {
      HexIgnoresSmallWidth(n / 16);
      HexOfLongLength(n / 16);
      assert s == Hex(n / 16, 4) + [HexDigit(n % 16)];
      assert s[..4] == Hex(n / 16, 4)[..4];
      var v :| 4096 <= v < 65_536 && v <= n / 16 && ParseHex(Hex(n / 16, 4)[..4]) == Some(v);
      assert v <= n;
    }
  }

  lemma HexIgnoresSmallWidth(n: nat)
    requires n >= 4096
    ensures Hex(n, 3) == Hex(n, 4)
  {
    assert Hex(n / 4096, 0) == Hex(n / 4096, 1);
    assert Hex(n / 256, 1) == Hex(n / 256, 2);
    assert Hex(n / 16, 2) == Hex(n / 16, 3);
  }

  /** A digit of either case, by its place among the sixteen. */
  predicate IsDigit(b: byte, d: nat) {
    d < 16 && (b == Ascii("0123456789abcdef")[d] || b == Ascii("0123456789ABCDEF")[d])
  }

  lemma DigitsHaveTheirValue(b: byte, d: nat)
    ensures IsDigit(b, d) <==> HexValue(b) == Some(d)
  {
    if d < 16 {
      var lower, upper := Ascii("0123456789abcdef"), Ascii("0123456789ABCDEF");
      assert lower[d] == if d < 10 then 48 + d else 87 + d;
      assert upper[d] == if d < 10 then 48 + d else 55 + d;
    }
  }

  /** Three digits and the number they stand for, most significant first. */
  ghost predicate ReadsAs(s: bytes, n: nat)
    requires |s| == 3
  {
    exists c: nat, d: nat, e: nat :: IsDigit(s[0], c) && IsDigit(s[1], d) && IsDigit(s[2], e)
                                     && n == 256 * c + 16 * d + e
  }

  lemma ThreeDigitsRead(s: bytes, n: nat)
    requires |s| == 3
    ensures ParseHex(s) == Some(n) <==> ReadsAs(s, n)
  {
    hide IsDigit, HexValue, ParseHex;
    AllDigitsHaveTheirValue(s[0]);
    AllDigitsHaveTheirValue(s[1]);
    AllDigitsHaveTheirValue(s[2]);
    ThreeDigits(s);
    if ParseHex(s) == Some(n) {
      assert IsDigit(s[0], HexValue(s[0]).value) && IsDigit(s[1], HexValue(s[1]).value)
          && IsDigit(s[2], HexValue(s[2]).value);
    }
  }

  /** Four digits read as a number; a plus in place of the first counts for nothing. */
  lemma HeadersReadExactly(h: bytes, n: nat)
    requires |h| == 4
    ensures HeaderLength(h) == Some(n) <==>
      || (h[0] == Ascii("+")[0] && ReadsAs(h[1..], n))
      || (exists b: nat, low: nat :: IsDigit(h[0], b) && ReadsAs(h[1..], low) && n == 4096 * b + low)
  {
    hide ParseHex, IsDigit, HexValue, ReadsAs, Ascii;
    var tail := h[1..];
    AllDigitsHaveTheirValue(h[0]);
    forall low: nat ensures ParseHex(tail) == Some(low) <==> ReadsAs(tail, low) {
      ThreeDigitsRead(tail, low);
    }
    PlusIsNoDigit();
    ThreeDigits(tail);
    FourDigits(h);
    if HeaderLength(h) == Some(n) && h[0] != 43 {
      assert IsDigit(h[0], HexValue(h[0]).value) && ReadsAs(tail, ParseHex(tail).value);
    }
  }

  lemma AllDigitsHaveTheirValue(b: byte)
    ensures forall d: nat :: IsDigit(b, d) <==> HexValue(b) == Some(d)
  {
    forall d: nat ensures IsDigit(b, d) <==> HexValue(b) == Some(d) {
      DigitsHaveTheirValue(b, d);
    }
  }

  lemma PlusIsNoDigit()
    ensures HexValue(43) == None && Ascii("+") == [43]
  {
  }

  lemma ThreeDigits(s: bytes)
    requires |s| == 3
    ensures ParseHex(s) ==
      if HexValue(s[0]).Some? && HexValue(s[1]).Some? && HexValue(s[2]).Some?
      then Some(256 * HexValue(s[0]).value + 16 * HexValue(s[1]).value + HexValue(s[2]).value)
      else None
  {
    hide HexValue;
    assert s[..2][..1] == s[..1] && s[..1][..0] == [];
    assert ParseHex(s[..1]) == HexValue(s[0]);
    assert s[..2][1] == s[1];
  }

  lemma FourDigits(s: bytes)
    requires |s| == 4
    ensures ParseHex(s) ==
      if HexValue(s[0]).Some? && HexValue(s[1]).Some? && HexValue(s[2]).Some? && HexValue(s[3]).Some?
      then Some(4096 * HexValue(s[0]).value + 256 * HexValue(s[1]).value + 16 * HexValue(s[2]).value
                + HexValue(s[3]).value)
      else None
  {
    hide HexValue;
    ThreeDigits(s[..3]);
  }

  // ----- one packet -----

  function Encode(data: bytes): bytes {
    Hex(|data| + 4, 4) + data
  }

  function PrintPacket(p: Packet): bytes {
    match p
    case Flush => Ascii("0000")
    case Delim => Ascii("0001")
    case ResponseEnd => Ascii("0002")
    case Data(payload) => Encode(payload)
  }

  function PrintAll(packets: seq<Packet>): bytes {
    if packets == [] then [] else PrintPacket(packets[0]) + PrintAll(packets[1..])
  }

  /** The packet that starts `input` and the number of bytes it takes. */
  function FirstPacket(input: bytes): (r: Result<(Packet, nat), Error>)
    ensures r.Ok? ==> 4 <= r.value.1 <= |input|
  {
    if |input| < 4 then Err(MissingLength)
    else
      match HeaderLength(input[..4])
      case None => Err(InvalidLength)
      case Some(n) =>
        if n == 0 then Ok((Flush, 4))
        else if n == 1 then Ok((Delim, 4))
        else if n == 2 then Ok((ResponseEnd, 4))
        else if n == 3 then Err(ReservedLength)
        else if |input| < n then Err(Truncated)
        else Ok((Data(input[4..n]), n))
  }

  /** A packet by its header: the marks, the reserved length, and a payload of the length said, if it is there. */
  lemma PacketsByTheirLength(header: bytes, n: nat, rest: bytes)
    requires |header| == 4 && HeaderLength(header) == Some(n)
    ensures FirstPacket(header + rest) ==
      match n
      case 0 => Ok((Flush, 4))
      case 1 => Ok((Delim, 4))
      case 2 => Ok((ResponseEnd, 4))
      case 3 => Err(ReservedLength)
      case _ => if n - 4 <= |rest| then Ok((Data(rest[..n - 4]), n)) else Err(Truncated)
  {
    var input := header + rest;
    assert input[..4] == header;
    assert 4 <= n <= |input| ==> input[4..n] == rest[..n - 4];
    hide HeaderLength;
  }

  function DecodeFrom(input: bytes): Result<seq<Packet>, Error>
    decreases |input|
  {
    if input == [] then Ok([])
    else
      match FirstPacket(input)
      case Err(e) => Err(e)
      case Ok((p, width)) =>
        match DecodeFrom(input[width..])
        case Err(e) => Err(e)
        case Ok(rest) => Ok([p] + rest)
  }

  /** The decoding loop. */
  method DecodeAll(input: bytes) returns (r: Result<seq<Packet>, Error>)
    ensures r == DecodeFrom(input)
  {
    var rest, lines := input, [];
    assert forall more: seq<Packet> :: lines + more == more;
    while rest != []
      invariant DecodeFrom(input) == match DecodeFrom(rest)
                                     case Err(e) => Err(e)
                                     case Ok(more) => Ok(lines + more)
      decreases |rest|
    {
      if |rest| < 4 {
        return Err(MissingLength);
      }
      var header := HeaderLength(rest[..4]);
      if header == None {
        return Err(InvalidLength);
      }
      var len := header.value;
      ghost var before := rest;
      rest := rest[4..];
      ghost var seen := lines;
      if len == 0 {
        lines := lines + [Flush];
      } else if len == 1 {
        lines := lines + [Delim];
      } else if len == 2 {
        lines := lines + [ResponseEnd];
      } else if len == 3 {
        return Err(ReservedLength);
      } else {
        if |rest| < len - 4 {
          return Err(Truncated);
        }
        lines := lines + [Data(rest[..len - 4])];
        assert rest[..len - 4] == before[4..len];
        rest := rest[len - 4..];
        assert rest == before[len..];
      }
      assert FirstPacket(before).Ok? && lines == seen + [FirstPacket(before).value.0];
      assert rest == before[FirstPacket(before).value.1..];
      assert forall more :: seen + ([lines[|seen|]] + more) == lines + more;
    }
    assert lines + [] == lines;
    r := Ok(lines);
  }

  // ----- print, then parse -----

  predicate Fits(p: Packet) {
    p.Data? ==> |p.payload| <= MAX_PAYLOAD
  }

  lemma HeaderOfHex(n: nat)
    requires n < 65_536
    ensures |Hex(n, 4)| == 4 && HeaderLength(Hex(n, 4)) == Some(n)
  {
    HexOfShortLength(n);
    HexReadsBack(n, 4);
    HexStartsWithDigit(n, 4);
  }

  lemma ControlHeaders()
    ensures HeaderLength(Ascii("0000")) == Some(0)
    ensures HeaderLength(Ascii("0001")) == Some(1)
    ensures HeaderLength(Ascii("0002")) == Some(2)
  {
    HeaderOfHex(0);
    HeaderOfHex(1);
    HeaderOfHex(2);
    assert Ascii("0000") == Hex(0, 4);
    assert Ascii("0001") == Hex(1, 4);
    assert Ascii("0002") == Hex(2, 4);
  }

  lemma PrintedPacketComesBack(p: Packet, rest: bytes)
    requires Fits(p)
    ensures FirstPacket(PrintPacket(p) + rest) == Ok((p, |PrintPacket(p)|))
  {
    var s := PrintPacket(p) + rest;
    ControlHeaders();
    if p.Data? {
      var n := |p.payload| + 4;
      HeaderOfHex(n);
      assert s[..4] == Hex(n, 4);
      assert s[4..n] == p.payload;
    } else {
      assert s[..4] == PrintPacket(p);
    }
  }

  /** An oversized payload never comes back: its frame announces fewer bytes. */
  lemma OversizedPacketIsCut(p: Packet, rest: bytes)
    requires !Fits(p)
    ensures var r := FirstPacket(PrintPacket(p) + rest);
            r.Ok? && r.value.0.Data? && |r.value.0.payload| < |p.payload|
  {
    var n := |p.payload| + 4;
    var s := PrintPacket(p) + rest;
    HexOfLongLength(n);
    HexStartsWithDigit(n, 4);
    assert s[..4] == Hex(n, 4)[..4];
    assert s[0] == Hex(n, 4)[0] != 43;
    var v :| 4096 <= v < 65_536 && ParseHex(s[..4]) == Some(v);
    assert HeaderLength(s[..4]) == Some(v);
    assert s[4..v] == s[4..v];
  }

  /** Decoding what was printed gives it back exactly when every payload fits a frame. */
  lemma {:induction false} PrintThenDecode(packets: seq<Packet>)
    ensures DecodeFrom(PrintAll(packets)) == Ok(packets) <==> forall p | p in packets :: Fits(p)
  {
    if packets != [] {
      var p, rest := packets[0], packets[1..];
      var s := PrintAll(packets);
      assert packets == [p] + rest;
      PrintThenDecode(rest);
      if Fits(p) {
        PrintedPacketComesBack(p, PrintAll(rest));
        assert s[|PrintPacket(p)|..] == PrintAll(rest);
        assert s != [];
        assert DecodeFrom(s) == Ok(packets) <==> DecodeFrom(PrintAll(rest)) == Ok(rest);
      } else {
        OversizedPacketIsCut(p, PrintAll(rest));
        assert p in packets;
      }
    }
  }
}
