/** Bytes, ASCII text, and the UTF-8 validity test of section 3 of RFC 3629. */
module Utf8 {

  type byte = b: int | 0 <= b < 256

  type bytes = seq<byte>

  predicate IsAscii(s: string) {
    forall i | 0 <= i < |s| :: s[i] as int < 128
  }

  /** The bytes of an ASCII literal. */
  function Ascii(s: string): (r: bytes)
    requires IsAscii(s)
    ensures |r| == |s| && forall i | 0 <= i < |s| :: r[i] == s[i] as int
  {
    seq(|s|, i requires 0 <= i < |s| => s[i] as int)
  }

  predicate Continues(b: byte) {
    0x80 <= b <= 0xBF
  }

  /** Width of the character that starts `s`; 0 when none does. */
  function CharWidth(s: bytes): (w: nat)
    requires s != []
    ensures w <= |s| && w <= 4
  {
    var b := s[0];
    if b < 0x80 then 1
    else if 0xC2 <= b <= 0xDF && |s| >= 2 && Continues(s[1]) then 2
    else if 0xE0 <= b <= 0xEF && |s| >= 3 && Continues(s[1]) && Continues(s[2])
      && (b == 0xE0 ==> 0xA0 <= s[1]) && (b == 0xED ==> s[1] <= 0x9F) then 3
    else if 0xF0 <= b <= 0xF4 && |s| >= 4 && Continues(s[1]) && Continues(s[2]) && Continues(s[3])
      && (b == 0xF0 ==> 0x90 <= s[1]) && (b == 0xF4 ==> s[1] <= 0x8F) then 4
    else 0
  }

  predicate ValidUtf8(s: bytes)
    decreases |s|
  {
    s == [] || (CharWidth(s) > 0 && ValidUtf8(s[CharWidth(s)..]))
  }

  lemma {:induction false} ValidConcat(a: bytes, b: bytes)
    requires ValidUtf8(a) && ValidUtf8(b)
    ensures ValidUtf8(a + b)
    decreases |a|
  {
    if a == [] {
      assert a + b == b;
    } else {
      var w := CharWidth(a);
      assert CharWidth(a + b) == w;
      assert (a + b)[w..] == a[w..] + b;
      ValidConcat(a[w..], b);
    }
  }

  lemma {:induction false} AsciiIsValid(s: bytes)
    requires forall i | 0 <= i < |s| :: s[i] < 128
    ensures ValidUtf8(s)
  {
    if s != [] {
      AsciiIsValid(s[1..]);
    }
  }
}
