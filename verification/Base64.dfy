/**
 The base64 codec of the SSH and HTTP authentication code
 (crates/jeryu-gitd/src/auth.rs), after sections 3.2 and 4 of RFC 4648.

 The codec shifts bits through an unsigned 32-bit accumulator and never clears
 it, so old bits fall off its top. The reference keeps only the bits still to
 be written; the loops are proved to compute it.
 */
module Base64 {
  import opened Common
  import opened Utf8

  /** Number of values of the accumulator. */
  const U32 := 0x1_0000_0000

  /** The shift amounts that occur. */
  function Pow2(k: nat): (p: nat)
    requires k in {0, 2, 4, 6, 8, 10, 12}
    ensures p > 0
  {
    if k == 0 then 1 else if k == 2 then 4 else if k == 4 then 16 else if k == 6 then 64
    else if k == 8 then 256 else if k == 10 then 1024 else 4096
  }

  /** The value of an alphabet character. */
  function SextetOf(b: byte): (v: Option<nat>)
    ensures v.Some? ==> v.value < 64
  {
    if 65 <= b <= 90 then Some(b - 65)
    else if 97 <= b <= 122 then Some(b - 71)
    else if 48 <= b <= 57 then Some(b + 4)
    else if b == 43 then Some(62)
    else if b == 47 then Some(63)
    else None
  }

  /** The alphabet `A-Z a-z 0-9 + /`, by value. */
  function Letter(v: nat): (b: byte)
    requires v < 64
    ensures SextetOf(b) == Some(v) && !Skipped(b)
  {
    if v < 26 then v + 65 else if v < 52 then v + 71 else if v < 62 then v - 4
    else if v == 62 then 43 else 47
  }

  predicate Skipped(b: byte) {
    b == 61 || b == 10 || b == 13 || b == 32
  }

  /** The letters of the standard: upper case, lower case, digits, plus and slash, each run in order. */
  lemma LettersOfTheStandard(v: nat)
    requires v < 63
    ensures Letter(0) as char == 'A' && Letter(25) as char == 'Z' && Letter(26) as char == 'a'
    ensures Letter(51) as char == 'z' && Letter(52) as char == '0' && Letter(61) as char == '9'
    ensures Letter(62) as char == '+' && Letter(63) as char == '/'
    ensures v !in {25, 51, 61, 62} ==> Letter(v + 1) == Letter(v) + 1
  {
  }

  /** A padding sign, a line feed, a carriage return and a space are skipped, and nothing else. */
  lemma SkippedSigns(b: byte)
    ensures Skipped(b) <==> b as char in "=\n\r "
  {
  }

  // ----- the reference: only the pending bits are kept -----

  predicate DecodeState(pending: nat, nbits: nat) {
    nbits in {0, 2, 4, 6} && pending < Pow2(nbits)
  }

  predicate EncodeState(pending: nat, nbits: nat) {
    nbits in {0, 2, 4} && pending < Pow2(nbits)
  }

  function Written(b: byte, r: Option<bytes>): Option<bytes> {
    if r.None? then None else Some([b] + r.value)
  }

  /** Decode `s`, with `nbits` bits of value `pending` not yet written. */
  function Decode(s: bytes, pending: nat, nbits: nat): Option<bytes>
    requires DecodeState(pending, nbits)
  {
    if s == [] then Some([])
    else if Skipped(s[0]) then Decode(s[1..], pending, nbits)
    else
      match SextetOf(s[0])
      case None => None
      case Some(v) =>
        if nbits == 0 then Decode(s[1..], v, 6)
        else
          var all, left := pending * 64 + v, nbits - 2;
          Written(all / Pow2(left), Decode(s[1..], all % Pow2(left), left))
  }

  /** Encode `x`, with `nbits` bits of value `pending` not yet written. */
  function Encode(x: bytes, pending: nat, nbits: nat): bytes
    requires EncodeState(pending, nbits)
  {
    if x == [] then
      if nbits == 0 then [] else [Letter(pending * Pow2(6 - nbits))]
    else
      var all, left := pending * 256 + x[0], nbits + 2;
      if left == 6 then [Letter(all / 64), Letter(all % 64)] + Encode(x[1..], 0, 0)
      else [Letter(all / Pow2(left))] + Encode(x[1..], all % Pow2(left), left)
  }

  // ----- arithmetic of the accumulator -----

  lemma DivModAre(n: int, d: int, q: int, r: int)
    requires 0 <= r < d && n == d * q + r
    ensures n / d == q && n % d == r
  {
    QuotientIsUnique(d, q, r, n / d, n % d);
  }

  lemma QuotientIsUnique(d: int, q: int, r: int, q': int, r': int)
    requires 0 <= r < d && 0 <= r' < d && d * q + r == d * q' + r'
    ensures q == q' && r == r'
  {
    var k := q - q';
    assert d * k == r' - r by { assert d * q - d * q' == d * (q - q'); }
    assert d * -k == -(d * k);
    if k >= 1 {
      MultipleIsAtLeast(d, k);
    } else if k <= -1 {
      MultipleIsAtLeast(d, -k);
    }
  }

  lemma MultipleIsAtLeast(d: nat, k: nat)
    requires k >= 1
    ensures d * k >= d
  {
  }

  /** `bits << k` keeps the low 32 bits. */
  function ShiftLeft(bits: nat, k: nat): nat
    requires k in {2, 4, 6, 8}
  {
    bits * Pow2(k) % U32
  }

  /** What falls off the top never matters: a shift keeps the low bits it moves up. */
  lemma LowBitsSurvive6(bits: nat, v: nat, low: nat)
    requires bits < U32 && low in {0, 2, 4, 6} && v < 64
    ensures (ShiftLeft(bits, 6) + v) % Pow2(low + 6) == bits % Pow2(low) * 64 + v
    ensures ShiftLeft(bits, 6) + v < U32
  {
    var h, l := bits / 0x400_0000, bits % 0x400_0000;
    DivModAre(bits * 64, U32, h, l * 64);
    if low == 0 {
      DivModAre(l * 64 + v, 64, l, v);
    } else if low == 2 {
      DivModAre(l * 64 + v, 256, l / 4, l % 4 * 64 + v);
      DivModAre(bits, 4, 0x100_0000 * h + l / 4, l % 4);
    } else if low == 4 {
      DivModAre(l * 64 + v, 1024, l / 16, l % 16 * 64 + v);
      DivModAre(bits, 16, 0x40_0000 * h + l / 16, l % 16);
    } else {
      DivModAre(l * 64 + v, 4096, l / 64, l % 64 * 64 + v);
      DivModAre(bits, 64, 0x10_0000 * h + l / 64, l % 64);
    }
  }

  lemma LowBitsSurvive8(bits: nat, v: nat, low: nat)
    requires bits < U32 && low in {0, 2, 4} && v < 256
    ensures (ShiftLeft(bits, 8) + v) % Pow2(low + 8) == bits % Pow2(low) * 256 + v
    ensures ShiftLeft(bits, 8) + v < U32
  {
    var h, l := bits / 0x100_0000, bits % 0x100_0000;
    DivModAre(bits * 256, U32, h, l * 256);
    if low == 0 {
      DivModAre(l * 256 + v, 256, l, v);
    } else if low == 2 {
      DivModAre(l * 256 + v, 1024, l / 4, l % 4 * 256 + v);
      DivModAre(bits, 4, 0x40_0000 * h + l / 4, l % 4);
    } else {
      DivModAre(l * 256 + v, 4096, l / 16, l % 16 * 256 + v);
      DivModAre(bits, 16, 0x10_0000 * h + l / 16, l % 16);
    }
  }

  /** The low `low + take` bits are the window of `take` bits read, over the `low` bits kept. */
  lemma WindowOfLowBits(bits: nat, low: nat, take: nat)
    requires (take == 6 && low in {0, 2, 4, 6}) || (take == 8 && low in {0, 2, 4})
    ensures bits % Pow2(low + take) / Pow2(low) == bits / Pow2(low) % Pow2(take)
    ensures bits % Pow2(low + take) % Pow2(low) == bits % Pow2(low)
  {
    var m, t := Pow2(low), Pow2(take);
    var q, r := bits / m, bits % m;
    var a, b := q / t, q % t;
    assert t == 64 || t == 256;
    if low == 0 {
    } else if low == 2 {
      DivModAre(bits, Pow2(low + take), a, 4 * b + r);
      DivModAre(4 * b + r, 4, b, r);
    } else if low == 4 {
      DivModAre(bits, Pow2(low + take), a, 16 * b + r);
      DivModAre(16 * b + r, 16, b, r);
    } else {
      DivModAre(bits, 4096, a, 64 * b + r);
      DivModAre(64 * b + r, 64, b, r);
    }
  }

  // ----- the loops -----

  predicate Inverts(lut: seq<byte>, n: nat) {
    && |lut| == 256
    && forall b: byte :: lut[b] == if SextetOf(b).Some? && SextetOf(b).value < n then SextetOf(b).value else 255
  }

  /** The table of values, 255 for a byte outside the alphabet. */
  method BuildTable() returns (table: seq<byte>)
    ensures Inverts(table, 64)
  {
    var lut := new byte[256](_ => 255);
    for i := 0 to 64
      invariant Inverts(lut[..], i)
    {
      LettersAreDistinct(i);
      lut[Letter(i)] := i;
    }
    table := lut[..];
  }

  lemma TableSays(lut: seq<byte>, b: byte)
    requires Inverts(lut, 64)
    ensures |lut| == 256 && (if lut[b] == 255 then SextetOf(b) == None else lut[b] < 64 && SextetOf(b) == Some(lut[b]))
  {
  }

  lemma LettersAreDistinct(v: nat)
    requires v < 64
    ensures forall b: byte | b != Letter(v) :: SextetOf(b) != Some(v)
  {
  }

  /** One letter, after the accumulator took it in. */
  lemma DecodeLetter(s: bytes, bits: nat, nbits: nat, v: nat)
    requires bits < U32 && nbits in {0, 2, 4, 6}
    requires s != [] && !Skipped(s[0]) && SextetOf(s[0]) == Some(v)
    ensures var bits' := ShiftLeft(bits, 6) + v;
      && bits' < U32
      && Decode(s, bits % Pow2(nbits), nbits)
         == if nbits == 0 then Decode(s[1..], bits' % 64, 6)
            else Written(bits' / Pow2(nbits - 2) % 256, Decode(s[1..], bits' % Pow2(nbits - 2), nbits - 2))
  {
    hide ShiftLeft, SextetOf, Decode;
    var bits', pending := ShiftLeft(bits, 6) + v, bits % Pow2(nbits);
    LowBitsSurvive6(bits, v, nbits);
    DecodeFirst(s, pending, nbits, v);
    if nbits != 0 {
      WindowOfLowBits(bits', nbits - 2, 8);
      DecodeWindow(bits', nbits, pending * 64 + v);
    }
  }

  lemma DecodeFirst(s: bytes, pending: nat, nbits: nat, v: nat)
    requires DecodeState(pending, nbits) && v < 64
    requires s != [] && !Skipped(s[0]) && SextetOf(s[0]) == Some(v)
    ensures Decode(s, pending, nbits)
         == if nbits == 0 then Decode(s[1..], v, 6)
            else Written((pending * 64 + v) / Pow2(nbits - 2),
                         Decode(s[1..], (pending * 64 + v) % Pow2(nbits - 2), nbits - 2))
  {
    hide SextetOf;
  }

  lemma DecodeWindow(bits: nat, nbits: nat, all: nat)
    requires nbits in {2, 4, 6} && bits % Pow2(nbits + 6) == all
    requires bits % Pow2(nbits + 6) / Pow2(nbits - 2) == bits / Pow2(nbits - 2) % 256
    requires bits % Pow2(nbits + 6) % Pow2(nbits - 2) == bits % Pow2(nbits - 2)
    ensures all / Pow2(nbits - 2) == bits / Pow2(nbits - 2) % 256
    ensures all % Pow2(nbits - 2) == bits % Pow2(nbits - 2)
  {
  }

  method Base64Decode(input: bytes) returns (r: Option<bytes>)
    ensures r == Decode(input, 0, 0)
  {
    hide Decode, ShiftLeft, SextetOf, Inverts;
    var lut := BuildTable();
    var bits: nat, nbits: nat := 0, 0;
    var out: bytes := [];
    assert forall rest: bytes :: out + rest == rest;
    assert input[0..] == input;
    for i := 0 to |input|
      invariant nbits in {0, 2, 4, 6} && bits < U32
      invariant DecodesTo(Decode(input, 0, 0), out, Decode(input[i..], bits % Pow2(nbits), nbits))
    {
      var b := input[i];
      assert input[i..][1..] == input[i + 1..] && input[i..][0] == b;
      if Skipped(b) {
        DecodeSkipped(input[i..], bits % Pow2(nbits), nbits);
        continue;
      }
      var v := lut[b];
      TableSays(lut, b);
      if v == 255 {
        DecodeRefuses(input[i..], bits % Pow2(nbits), nbits);
        return None;
      }
      DecodeLetter(input[i..], bits, nbits, v);
      bits := ShiftLeft(bits, 6) + v;
      nbits := nbits + 6;
      if nbits >= 8 {
        nbits := nbits - 8;
        var written: byte := bits / Pow2(nbits) % 256;
        assert forall rest: bytes :: out + ([written] + rest) == out + [written] + rest;
        out := out + [written];
      }
    }
    assert input[|input|..] == [];
    DecodeNothing(bits % Pow2(nbits), nbits);
    assert out + [] == out;
    r := Some(out);
  }

  predicate DecodesTo(whole: Option<bytes>, out: bytes, rest: Option<bytes>) {
    whole == if rest.None? then None else Some(out + rest.value)
  }

  lemma DecodeSkipped(s: bytes, pending: nat, nbits: nat)
    requires DecodeState(pending, nbits) && s != [] && Skipped(s[0])
    ensures Decode(s, pending, nbits) == Decode(s[1..], pending, nbits)
  {
  }

  lemma DecodeRefuses(s: bytes, pending: nat, nbits: nat)
    requires DecodeState(pending, nbits) && s != [] && !Skipped(s[0]) && SextetOf(s[0]).None?
    ensures Decode(s, pending, nbits) == None
  {
  }

  lemma DecodeNothing(pending: nat, nbits: nat)
    requires DecodeState(pending, nbits)
    ensures Decode([], pending, nbits) == Some([])
  {
  }

  lemma EncodeOfByte(b: byte, rest: bytes, pending: nat, nbits: nat)
    requires EncodeState(pending, nbits)
    ensures var all := pending * 256 + b;
      Encode([b] + rest, pending, nbits)
      == if nbits == 4 then [Letter(all / 64)] + ([Letter(all % 64)] + Encode(rest, 0, 0))
         else [Letter(all / Pow2(nbits + 2))] + Encode(rest, all % Pow2(nbits + 2), nbits + 2)
  {
    assert ([b] + rest)[1..] == rest;
    hide Letter;
  }

  /** The letters the inner loop writes for one byte. */
  lemma EncodeByte(x: bytes, bits: nat, nbits: nat)
    requires bits < U32 && nbits in {0, 2, 4} && x != []
    ensures var bits' := ShiftLeft(bits, 8) + x[0];
      && bits' < U32
      && Encode(x, bits % Pow2(nbits), nbits)
         == if nbits == 4 then [Letter(bits' / 64 % 64), Letter(bits' % 64)] + Encode(x[1..], bits' % Pow2(0), 0)
            else [Letter(bits' / Pow2(nbits + 2) % 64)] + Encode(x[1..], bits' % Pow2(nbits + 2), nbits + 2)
  {
    hide Letter, ShiftLeft, Encode;
    var bits', pending := ShiftLeft(bits, 8) + x[0], bits % Pow2(nbits);
    LowBitsSurvive8(bits, x[0], nbits);
    WindowOfLowBits(bits', nbits + 2, 6);
    assert [x[0]] + x[1..] == x;
    EncodeOfByte(x[0], x[1..], pending, nbits);
    EncodeWindow(bits', nbits, pending * 256 + x[0]);
  }

  lemma EncodeWindow(bits: nat, nbits: nat, all: nat)
    requires nbits in {0, 2, 4} && bits % Pow2(nbits + 8) == all
    requires bits % Pow2(nbits + 8) / Pow2(nbits + 2) == bits / Pow2(nbits + 2) % 64
    requires bits % Pow2(nbits + 8) % Pow2(nbits + 2) == bits % Pow2(nbits + 2)
    ensures all / Pow2(nbits + 2) == bits / Pow2(nbits + 2) % 64
    ensures all % Pow2(nbits + 2) == bits % Pow2(nbits + 2) && bits % Pow2(0) == 0
  {
  }

  /** The inner loop: whole letters leave, from the top of the pending bits. */
  method WriteLetters(written: bytes, bits: nat, nbits: nat) returns (out: bytes, left: nat)
    requires nbits in {8, 10, 12}
    ensures left == if nbits == 12 then 0 else nbits - 6
    ensures out == written + if nbits == 12 then [Letter(bits / 64 % 64), Letter(bits % 64)]
                             else [Letter(bits / Pow2(nbits - 6) % 64)]
  {
    hide Letter;
    out, left := written, nbits;
    while left >= 6
      invariant left == nbits || left == nbits - 6 || (nbits == 12 && left == 0)
      invariant out == if left == nbits then written
                       else if left == nbits - 6 then written + [Letter(bits / Pow2(nbits - 6) % 64)]
                       else written + [Letter(bits / 64 % 64), Letter(bits % 64)]
    {
      left := left - 6;
      out := out + [Letter(bits / Pow2(left) % 64)];
    }
  }

  method Base64EncodeNopad(input: bytes) returns (out: bytes)
    ensures out == Encode(input, 0, 0)
  {
    hide Encode, ShiftLeft, Letter, Pow2;
    out := [];
    var bits: nat, nbits: nat := 0, 0;
    assert input[0..] == input;
    EncodeAppends(out, [], Encode(input, 0, 0));
    for i := 0 to |input|
      invariant nbits in {0, 2, 4} && bits < U32
      invariant Encode(input, 0, 0) == out + Encode(input[i..], bits % Pow2(nbits), nbits)
    {
      assert input[i..][1..] == input[i + 1..];
      EncodeByte(input[i..], bits, nbits);
      ghost var written := out;
      bits := ShiftLeft(bits, 8) + input[i];
      out, nbits := WriteLetters(out, bits, nbits + 8);
      EncodeAppends(written, out[|written|..], Encode(input[i + 1..], bits % Pow2(nbits), nbits));
      assert out == written + out[|written|..];
    }
    assert input[|input|..] == [];
    EncodeNothing(bits, nbits);
    if nbits > 0 {
      out := out + [Letter(ShiftLeft(bits, 6 - nbits) % 64)];
    }
  }

  lemma EncodeAppends(a: bytes, b: bytes, c: bytes)
    ensures a + (b + c) == a + b + c
  {
  }

  lemma EncodeNothing(bits: nat, nbits: nat)
    requires bits < U32 && nbits in {0, 2, 4}
    ensures Encode([], bits % Pow2(nbits), nbits)
         == if nbits == 0 then [] else [Letter(ShiftLeft(bits, 6 - nbits) % 64)]
  {
    if nbits == 2 {
      var h, l := bits / 0x1000_0000, bits % 0x1000_0000;
      DivModAre(bits * 16, U32, h, l * 16);
      DivModAre(l * 16, 64, l / 4, l % 4 * 16);
      DivModAre(bits, 4, 0x400_0000 * h + l / 4, l % 4);
    } else if nbits == 4 {
      var h, l := bits / 0x4000_0000, bits % 0x4000_0000;
      DivModAre(bits * 4, U32, h, l * 4);
      DivModAre(l * 4, 64, l / 16, l % 16 * 4);
      DivModAre(bits, 16, 0x400_0000 * h + l / 16, l % 16);
    }
  }

  // ----- what the codec guarantees -----

  /** Bits the decoder holds when the encoder holds `nbits`: together they end a byte. */
  function HeldByDecoder(nbits: nat): nat
    requires nbits in {0, 2, 4}
  {
    if nbits == 0 then 0 else 8 - nbits
  }

  /** The byte whose high bits the decoder holds and whose low bits the encoder holds. */
  function SharedByte(head: nat, pending: nat, nbits: nat): bytes
    requires EncodeState(pending, nbits) && head < Pow2(HeldByDecoder(nbits))
  {
    if nbits == 0 then [] else if nbits == 2 then [head * 4 + pending] else [head * 16 + pending]
  }

  lemma DecodeOfLetter(v: nat, rest: bytes, pending: nat, nbits: nat)
    requires DecodeState(pending, nbits) && v < 64
    ensures Decode([Letter(v)] + rest, pending, nbits)
         == if nbits == 0 then Decode(rest, v, 6)
            else Written((pending * 64 + v) / Pow2(nbits - 2),
                         Decode(rest, (pending * 64 + v) % Pow2(nbits - 2), nbits - 2))
  {
    hide Letter, Decode;
    assert ([Letter(v)] + rest)[1..] == rest;
    DecodeFirst([Letter(v)] + rest, pending, nbits, v);
  }

  lemma FirstByte(b: byte, rest: bytes)
    requires Decode(Encode(rest, b % 4, 2), b / 4, 6) == Some(SharedByte(b / 4, b % 4, 2) + rest)
    ensures Decode(Encode([b] + rest, 0, 0), 0, 0) == Some(SharedByte(0, 0, 0) + ([b] + rest))
  {
    hide Decode, Encode, Letter;
    EncodeOfByte(b, rest, 0, 0);
    DecodeOfLetter(b / 4, Encode(rest, b % 4, 2), 0, 0);
    assert SharedByte(0, 0, 0) + ([b] + rest) == [b] + rest;
  }

  lemma SecondLetters(b: byte, pending: nat, head: nat)
    requires pending < 4 && head < 64
    ensures (pending * 256 + b) / 16 == pending * 16 + b / 16 && (pending * 256 + b) % 16 == b % 16
    ensures var v := pending * 16 + b / 16;
      (head * 64 + v) / 16 == head * 4 + pending && (head * 64 + v) % 16 == b / 16
  {
    DivModAre(pending * 256 + b, 16, pending * 16 + b / 16, b % 16);
    DivModAre(head * 64 + (pending * 16 + b / 16), 16, head * 4 + pending, b / 16);
  }

  lemma SecondByte(b: byte, rest: bytes, pending: nat, head: nat)
    requires pending < 4 && head < 64
    requires Decode(Encode(rest, b % 16, 4), b / 16, 4) == Some(SharedByte(b / 16, b % 16, 4) + rest)
    ensures Decode(Encode([b] + rest, pending, 2), head, 6) == Some(SharedByte(head, pending, 2) + ([b] + rest))
  {
    hide Decode, Encode, Letter;
    SecondLetters(b, pending, head);
    EncodeOfByte(b, rest, pending, 2);
    DecodeOfLetter(pending * 16 + b / 16, Encode(rest, b % 16, 4), head, 6);
    assert SharedByte(b / 16, b % 16, 4) == [b] && SharedByte(head, pending, 2) == [head * 4 + pending];
    hide SharedByte;
  }

  lemma ThirdByte(b: byte, rest: bytes, pending: nat, head: nat)
    requires pending < 16 && head < 16
    requires Decode(Encode(rest, 0, 0), 0, 0) == Some(SharedByte(0, 0, 0) + rest)
    ensures Decode(Encode([b] + rest, pending, 4), head, 4) == Some(SharedByte(head, pending, 4) + ([b] + rest))
  {
    hide Decode, Encode, Letter;
    EncodeOfByte(b, rest, pending, 4);
    DivModAre(pending * 256 + b, 64, pending * 4 + b / 64, b % 64);
    assert SharedByte(0, 0, 0) + rest == rest;
    DecodeOfLetter(pending * 4 + b / 64, [Letter(b % 64)] + Encode(rest, 0, 0), head, 4);
    DivModAre(head * 64 + (pending * 4 + b / 64), 4, head * 16 + pending, b / 64);
    DecodeOfLetter(b % 64, Encode(rest, 0, 0), b / 64, 2);
    DivModAre(b / 64 * 64 + b % 64, 1, b, 0);
  }

  /** Decoding what was encoded gives it back, whatever is pending on either side. */
  lemma {:induction false} EncodeThenDecode(x: bytes, pending: nat, nbits: nat, head: nat)
    requires EncodeState(pending, nbits) && head < Pow2(HeldByDecoder(nbits))
    ensures Decode(Encode(x, pending, nbits), head, HeldByDecoder(nbits))
         == Some(SharedByte(head, pending, nbits) + x)
  {
    if x == [] {
      EncodeThenDecodeNothing(pending, nbits, head);
    } else {
      hide Decode, Encode, SharedByte;
      var b, rest := x[0], x[1..];
      assert [b] + rest == x;
      if nbits == 0 {
        EncodeThenDecode(rest, b % 4, 2, b / 4);
        FirstByte(b, rest);
      } else if nbits == 2 {
        EncodeThenDecode(rest, b % 16, 4, b / 16);
        SecondByte(b, rest, pending, head);
      } else {
        EncodeThenDecode(rest, 0, 0, 0);
        ThirdByte(b, rest, pending, head);
      }
    }
  }

  lemma EncodeThenDecodeNothing(pending: nat, nbits: nat, head: nat)
    requires EncodeState(pending, nbits) && head < Pow2(HeldByDecoder(nbits))
    ensures Decode(Encode([], pending, nbits), head, HeldByDecoder(nbits))
         == Some(SharedByte(head, pending, nbits) + [])
  {
    assert SharedByte(head, pending, nbits) + [] == SharedByte(head, pending, nbits);
    if nbits == 2 {
      EndOfText(pending * 16, head, 6);
      DivModAre(head * 64 + pending * 16, 16, head * 4 + pending, 0);
    } else if nbits == 4 {
      EndOfText(pending * 4, head, 4);
      DivModAre(head * 64 + pending * 4, 4, head * 16 + pending, 0);
    }
  }

  lemma EndOfText(v: nat, head: nat, nbits: nat)
    requires v < 64 && DecodeState(head, nbits) && nbits > 0
    ensures Decode([Letter(v)], head, nbits) == Some([(head * 64 + v) / Pow2(nbits - 2)])
  {
    hide Decode;
    assert [Letter(v)] + [] == [Letter(v)];
    DecodeOfLetter(v, [], head, nbits);
    DecodeNothing((head * 64 + v) % Pow2(nbits - 2), nbits - 2);
    assert [(head * 64 + v) / Pow2(nbits - 2)] + [] == [(head * 64 + v) / Pow2(nbits - 2)];
  }

  /** Section 4 of RFC 4648: three bytes become four six-bit groups. */
  lemma EncodeGroup(a: byte, b: byte, c: byte, rest: bytes)
    ensures Encode([a] + ([b] + ([c] + rest)), 0, 0)
         == [Letter(a / 4)] + ([Letter(a % 4 * 16 + b / 16)]
            + ([Letter(b % 16 * 4 + c / 64)] + ([Letter(c % 64)] + Encode(rest, 0, 0))))
  {
    hide Letter, Encode;
    EncodeOfByte(a, [b] + ([c] + rest), 0, 0);
    EncodeOfByte(b, [c] + rest, a % 4, 2);
    DivModAre(a % 4 * 256 + b, 16, a % 4 * 16 + b / 16, b % 16);
    EncodeOfByte(c, rest, b % 16, 4);
    DivModAre(b % 16 * 256 + c, 64, b % 16 * 4 + c / 64, c % 64);
  }

  function Stripped(s: bytes): bytes {
    if s == [] then [] else (if Skipped(s[0]) then [] else [s[0]]) + Stripped(s[1..])
  }

  /** The state after a letter of value `v`. */
  function NextState(pending: nat, nbits: nat, v: nat): (r: (nat, nat))
    requires DecodeState(pending, nbits) && v < 64
    ensures DecodeState(r.0, r.1)
  {
    if nbits == 0 then (v, 6) else ((pending * 64 + v) % Pow2(nbits - 2), nbits - 2)
  }

  /** Padding, spaces and line breaks anywhere leave the decoded bytes as they were. */
  lemma {:induction false} SkippedBytesDoNotMatter(s: bytes, pending: nat, nbits: nat)
    requires DecodeState(pending, nbits)
    ensures Decode(s, pending, nbits) == Decode(Stripped(s), pending, nbits)
  {
    if s != [] {
      if Skipped(s[0]) {
        assert Stripped(s) == Stripped(s[1..]);
        SkippedBytesDoNotMatter(s[1..], pending, nbits);
      } else if SextetOf(s[0]).Some? {
        assert Stripped(s)[1..] == Stripped(s[1..]);
        var (pending', nbits') := NextState(pending, nbits, SextetOf(s[0]).value);
        SkippedBytesDoNotMatter(s[1..], pending', nbits');
      }
    }
  }

  /** Only a byte that is neither skipped nor in the alphabet is refused. */
  lemma {:induction false} DecodeRefusesExactlyForeignBytes(s: bytes, pending: nat, nbits: nat)
    requires DecodeState(pending, nbits)
    ensures Decode(s, pending, nbits) == None
       <==> exists i :: 0 <= i < |s| && !Skipped(s[i]) && SextetOf(s[i]) == None
  {
    if s != [] {
      assert s == [s[0]] + s[1..];
      if Skipped(s[0]) {
        DecodeRefusesExactlyForeignBytes(s[1..], pending, nbits);
      } else if SextetOf(s[0]).Some? {
        var (pending', nbits') := NextState(pending, nbits, SextetOf(s[0]).value);
        DecodeRefusesExactlyForeignBytes(s[1..], pending', nbits');
      }
    }
  }

  predicate InAlphabet(s: bytes) {
    forall i | 0 <= i < |s| :: SextetOf(s[i]).Some?
  }

  /** The text ends with no whole letter, and no set bit, unwritten. */
  predicate NothingDropped(s: bytes, pending: nat, nbits: nat)
    requires DecodeState(pending, nbits) && InAlphabet(s)
  {
    if s == [] then nbits != 6 && pending == 0
    else
      var (pending', nbits') := NextState(pending, nbits, SextetOf(s[0]).value);
      NothingDropped(s[1..], pending', nbits')
  }

  /** Bits of the last letter that were written before the pending ones. */
  function WrittenOfLetter(nbits: nat): nat
    requires nbits in {0, 2, 4, 6}
  {
    if nbits == 0 then 0 else 6 - nbits
  }

  /** The letter that begins with the `high` bits and ends with the pending ones. */
  function OpenLetter(high: nat, pending: nat, nbits: nat): bytes
    requires DecodeState(pending, nbits) && high < Pow2(WrittenOfLetter(nbits))
  {
    if nbits == 0 then [] else if nbits == 2 then [Letter(high * 4 + pending)]
    else if nbits == 4 then [Letter(high * 16 + pending)] else [Letter(pending)]
  }

  /** Encoding what is still to come must first repeat the letter the pending bits belong to. */
  ghost predicate Repeats(s: bytes, pending: nat, nbits: nat, high: nat)
    requires DecodeState(pending, nbits) && high < Pow2(WrittenOfLetter(nbits))
  {
    var d := Decode(s, pending, nbits);
    && d.Some?
    && Encode(d.value, high, WrittenOfLetter(nbits))
       == OpenLetter(high, pending, nbits) + s
  }

  lemma LettersAgree(a: nat, b: nat)
    requires a < 64 && b < 64
    ensures Letter(a) == Letter(b) <==> a == b
  {
    assert SextetOf(Letter(a)) == Some(a) && SextetOf(Letter(b)) == Some(b);
  }

  lemma RepeatsNothing(pending: nat, nbits: nat, high: nat)
    requires DecodeState(pending, nbits) && high < Pow2(WrittenOfLetter(nbits))
    ensures Repeats([], pending, nbits, high) <==> nbits != 6 && pending == 0
  {
    hide Letter;
    assert OpenLetter(high, pending, nbits) + [] == OpenLetter(high, pending, nbits);
    if nbits == 2 {
      LettersAgree(high * 4, high * 4 + pending);
    } else if nbits == 4 {
      LettersAgree(high * 16, high * 16 + pending);
    }
  }

  lemma RepeatsFirst(v: nat, rest: bytes)
    requires v < 64
    ensures Repeats([Letter(v)] + rest, 0, 0, 0) <==> Repeats(rest, v, 6, 0)
  {
    hide Decode, Encode, Letter;
    DecodeOfLetter(v, rest, 0, 0);
    assert [] + ([Letter(v)] + rest) == [Letter(v)] + rest;
  }

  lemma RepeatsSecond(v: nat, rest: bytes, pending: nat)
    requires v < 64 && pending < 64
    ensures Repeats([Letter(v)] + rest, pending, 6, 0) <==> Repeats(rest, v % 16, 4, v / 16)
  {
    hide Decode, Encode, Letter;
    DecodeOfLetter(v, rest, pending, 6);
    DivModAre(pending * 64 + v, 16, pending * 4 + v / 16, v % 16);
    var d := Decode(rest, v % 16, 4);
    if d.Some? {
      var w: byte := pending * 4 + v / 16;
      DivModAre(w, 4, pending, v / 16);
      EncodeOfByte(w, d.value, 0, 0);
      SameHead(Letter(pending), Encode(d.value, v / 16, 2), [Letter(v)] + rest);
      assert v / 16 * 16 + v % 16 == v;
    }
  }

  lemma RepeatsThird(v: nat, rest: bytes, pending: nat, high: nat)
    requires v < 64 && pending < 16 && high < 4
    ensures Repeats([Letter(v)] + rest, pending, 4, high) <==> Repeats(rest, v % 4, 2, v / 4)
  {
    hide Decode, Encode, Letter;
    DecodeOfLetter(v, rest, pending, 4);
    DivModAre(pending * 64 + v, 4, pending * 16 + v / 4, v % 4);
    var d := Decode(rest, v % 4, 2);
    if d.Some? {
      var w: byte := pending * 16 + v / 4;
      DivModAre(high * 256 + w, 16, high * 16 + pending, v / 4);
      EncodeOfByte(w, d.value, high, 2);
      SameHead(Letter(high * 16 + pending), Encode(d.value, v / 4, 4), [Letter(v)] + rest);
      assert v / 4 * 4 + v % 4 == v;
    }
  }

  lemma RepeatsFourth(v: nat, rest: bytes, pending: nat, high: nat)
    requires v < 64 && pending < 4 && high < 16
    ensures Repeats([Letter(v)] + rest, pending, 2, high) <==> Repeats(rest, 0, 0, 0)
  {
    hide Decode, Encode, Letter;
    DecodeOfLetter(v, rest, pending, 2);
    DivModAre(pending * 64 + v, 1, pending * 64 + v, 0);
    var d := Decode(rest, 0, 0);
    if d.Some? {
      var w: byte := pending * 64 + v;
      DivModAre(high * 256 + w, 64, high * 4 + pending, v);
      EncodeOfByte(w, d.value, high, 4);
      SameHead(Letter(high * 4 + pending), [Letter(v)] + Encode(d.value, 0, 0), [Letter(v)] + rest);
      SameHead(Letter(v), Encode(d.value, 0, 0), rest);
      assert [] + rest == rest;
    }
  }

  lemma SameHead(b: byte, s: bytes, t: bytes)
    ensures [b] + s == [b] + t <==> s == t
  {
    assert ([b] + s)[1..] == s && ([b] + t)[1..] == t;
  }

  /**
   The other way round fails for texts that drop bits: "AB" decodes to the byte
   of "AA". Encoding what was decoded gives the text back exactly when nothing
   is dropped.
   */
  lemma {:induction false} DecodeThenEncode(s: bytes, pending: nat, nbits: nat, high: nat)
    requires DecodeState(pending, nbits) && high < Pow2(WrittenOfLetter(nbits)) && InAlphabet(s)
    ensures Repeats(s, pending, nbits, high) <==> NothingDropped(s, pending, nbits)
  {
    hide Repeats;
    if s == [] {
      RepeatsNothing(pending, nbits, high);
    } else {
      var v, rest := SextetOf(s[0]).value, s[1..];
      assert Letter(v) == s[0] && [s[0]] + rest == s;
      if nbits == 0 {
        RepeatsFirst(v, rest);
        DecodeThenEncode(rest, v, 6, 0);
      } else if nbits == 6 {
        RepeatsSecond(v, rest, pending);
        DivModAre(pending * 64 + v, 16, pending * 4 + v / 16, v % 16);
        DecodeThenEncode(rest, v % 16, 4, v / 16);
      } else if nbits == 4 {
        RepeatsThird(v, rest, pending, high);
        DivModAre(pending * 64 + v, 4, pending * 16 + v / 4, v % 4);
        DecodeThenEncode(rest, v % 4, 2, v / 4);
      } else {
        RepeatsFourth(v, rest, pending, high);
        DivModAre(pending * 64 + v, 1, pending * 64 + v, 0);
        DecodeThenEncode(rest, 0, 0, 0);
      }
    }
  }

  // ----- whole texts -----

  /** Decoding an encoded text gives its bytes back. */
  lemma RoundTrip(x: bytes)
    ensures Decode(Encode(x, 0, 0), 0, 0) == Some(x)
  {
    EncodeThenDecode(x, 0, 0, 0);
    hide Encode, Decode;
    assert SharedByte(0, 0, 0) + x == x;
  }

  /** A padding character, space or line break may stand anywhere. */
  lemma InsertedSkipDoesNotMatter(a: bytes, b: bytes, skip: byte)
    requires Skipped(skip)
    ensures Decode(a + [skip] + b, 0, 0) == Decode(a + b, 0, 0)
  {
    hide Decode;
    SkippedBytesDoNotMatter(a + [skip] + b, 0, 0);
    SkippedBytesDoNotMatter(a + b, 0, 0);
    StrippedJoins(a + [skip], b);
    StrippedJoins(a, [skip]);
    StrippedJoins(a, b);
    assert [skip][1..] == [] && Stripped([skip]) == [] && Stripped(a) + [] == Stripped(a);
  }

  lemma {:induction false} StrippedJoins(a: bytes, b: bytes)
    ensures Stripped(a + b) == Stripped(a) + Stripped(b)
  {
    hide Skipped;
    if a == [] {
      assert a + b == b;
    } else {
      StrippedJoins(a[1..], b);
      var ab := a + b;
      assert ab[1..] == a[1..] + b && ab[0] == a[0];
      assert Stripped(ab) == (if Skipped(a[0]) then [] else [a[0]]) + (Stripped(a[1..]) + Stripped(b));
    }
  }

  /** No lone last letter, and no bits set below the last whole byte. */
  predicate LastLetterIsClean(s: bytes)
    requires InAlphabet(s)
  {
    && |s| % 4 != 1
    && (|s| % 4 == 2 ==> SextetOf(s[|s| - 1]).value % 16 == 0)
    && (|s| % 4 == 3 ==> SextetOf(s[|s| - 1]).value % 4 == 0)
  }

  lemma {:induction false} DropsAreInTheLastLetter(s: bytes)
    requires InAlphabet(s)
    ensures NothingDropped(s, 0, 0) <==> LastLetterIsClean(s)
    decreases |s|
  {
    hide SextetOf, NothingDropped;
    if s == [] {
      NoLetterLeft(0, 0);
    } else if |s| < 4 {
      FewLettersLeft(s);
    } else {
      var p1, p2 := SextetOf(s[0]).value, (SextetOf(s[0]).value * 64 + SextetOf(s[1]).value) % 16;
      var p3 := (p2 * 64 + SextetOf(s[2]).value) % 4;
      LetterTaken(s, 0, 0, s[1..], p1, 6);
      LetterTaken(s[1..], p1, 6, s[2..], p2, 4);
      LetterTaken(s[2..], p2, 4, s[3..], p3, 2);
      LetterTaken(s[3..], p3, 2, s[4..], 0, 0);
      DropsAreInTheLastLetter(s[4..]);
    }
  }

  lemma NoLetterLeft(pending: nat, nbits: nat)
    requires DecodeState(pending, nbits)
    ensures NothingDropped([], pending, nbits) <==> nbits != 6 && pending == 0
  {
  }

  lemma LetterTaken(s: bytes, pending: nat, nbits: nat, rest: bytes, pending': nat, nbits': nat)
    requires InAlphabet(s) && s != [] && rest == s[1..] && DecodeState(pending, nbits)
    requires NextState(pending, nbits, SextetOf(s[0]).value) == (pending', nbits')
    ensures InAlphabet(rest) && DecodeState(pending', nbits')
    ensures NothingDropped(s, pending, nbits) <==> NothingDropped(rest, pending', nbits')
  {
  }

  lemma OnlyLowBitsStay(p: nat, v: nat)
    ensures (p * 64 + v) % 16 == v % 16 && (p * 64 + v) % 4 == v % 4
  {
    DivModAre(p * 64 + v, 16, p * 4 + v / 16, v % 16);
    DivModAre(p * 64 + v, 4, p * 16 + v / 4, v % 4);
  }

  lemma FewLettersLeft(s: bytes)
    requires InAlphabet(s) && 1 <= |s| <= 3
    ensures NothingDropped(s, 0, 0) <==> LastLetterIsClean(s)
  {
    hide SextetOf, NothingDropped;
    var p1 := SextetOf(s[0]).value;
    LetterTaken(s, 0, 0, s[1..], p1, 6);
    if |s| == 1 {
      NoLetterLeft(p1, 6);
    } else {
      var p2 := (p1 * 64 + SextetOf(s[1]).value) % 16;
      LetterTaken(s[1..], p1, 6, s[2..], p2, 4);
      OnlyLowBitsStay(p1, SextetOf(s[1]).value);
      if |s| == 2 {
        NoLetterLeft(p2, 4);
      } else {
        var p3 := (p2 * 64 + SextetOf(s[2]).value) % 4;
        LetterTaken(s[2..], p2, 4, s[3..], p3, 2);
        OnlyLowBitsStay(p2, SextetOf(s[2]).value);
        NoLetterLeft(p3, 2);
      }
    }
  }

  /** A text without skipped bytes repeats through decoding exactly when its last letter is clean. */
  lemma TextRepeatsExactlyWhenClean(s: bytes)
    requires InAlphabet(s)
    ensures Decode(s, 0, 0).Some?
    ensures Encode(Decode(s, 0, 0).value, 0, 0) == s <==> LastLetterIsClean(s)
  {
    DecodeThenEncode(s, 0, 0, 0);
    DropsAreInTheLastLetter(s);
    DecodeRefusesExactlyForeignBytes(s, 0, 0);
    hide Decode, Encode, NothingDropped, LastLetterIsClean;
    assert OpenLetter(0, 0, 0) + s == s;
  }
}
