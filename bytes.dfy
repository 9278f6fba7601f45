/** Bytes and the UTF-8 encoding of text (`str.encode("utf-8")`). */
module Bytes {

  newtype byte = x: int | 0 <= x < 256

  /**
   * The UTF-8 encoding of one Unicode scalar value: one byte below 0x80,
   * then two, three or four bytes with a length-marking lead byte and
   * continuation bytes 10xxxxxx.
   */
  function Utf8Char(c: char): (b: seq<byte>)
    ensures |b| == Utf8Length(c as int)
  {
    var cp := c as int;
    if cp < 0x80 then [cp as byte]
    else if cp < 0x800 then [(0xC0 + cp / 0x40) as byte, (0x80 + cp % 0x40) as byte]
    else if cp < 0x1_0000 then
      [(0xE0 + cp / 0x1000) as byte, (0x80 + (cp / 0x40) % 0x40) as byte, (0x80 + cp % 0x40) as byte]
    else
      [(0xF0 + cp / 0x4_0000) as byte, (0x80 + (cp / 0x1000) % 0x40) as byte,
       (0x80 + (cp / 0x40) % 0x40) as byte, (0x80 + cp % 0x40) as byte]
  }

  /** How many bytes UTF-8 spends on the code point `cp`. */
  function Utf8Length(cp: int): (n: nat)
    ensures 1 <= n <= 4
  {
    if cp < 0x80 then 1 else if cp < 0x800 then 2 else if cp < 0x1_0000 then 3 else 4
  }

  /** `s.encode("utf-8")`. */
  function Utf8Encode(s: string): (b: seq<byte>)
    ensures |s| <= |b| <= 4 * |s|
  {
    if s == [] then [] else Utf8Char(s[0]) + Utf8Encode(s[1..])
  }

  /** The length of a UTF-8 sequence, read off its lead byte. */
  function LeadLength(lead: byte): nat
  {
    if lead < 0x80 then 1 else if lead < 0xE0 then 2 else if lead < 0xF0 then 3 else 4
  }

  /** The lead byte of a character's encoding announces the encoding's length. */
  lemma LeadAnnouncesLength(c: char)
    ensures LeadLength(Utf8Char(c)[0]) == |Utf8Char(c)|
  {
  }

  /** Two characters with the same encoding are the same character. */
  lemma Utf8CharInjective(c: char, d: char)
    requires Utf8Char(c) == Utf8Char(d)
    ensures c == d
  {
    var cp, dp := c as int, d as int;
    var b, e := Utf8Char(c), Utf8Char(d);
    assert Utf8Length(cp) == Utf8Length(dp);
    if cp < 0x80 {
      assert b[0] as int == cp && e[0] as int == dp;
    } else if cp < 0x800 {
      assert b[0] == e[0] && b[1] == e[1];
      SameSextets(cp / 0x40, dp / 0x40, cp, dp);
    } else if cp < 0x1_0000 {
      assert b[0] == e[0] && b[1] == e[1] && b[2] == e[2];
      SameSextets(cp / 0x1000, dp / 0x1000, cp / 0x40, dp / 0x40);
      SameSextets(cp / 0x40, dp / 0x40, cp, dp);
    } else {
      assert b[0] == e[0] && b[1] == e[1] && b[2] == e[2] && b[3] == e[3];
      SameSextets(cp / 0x4_0000, dp / 0x4_0000, cp / 0x1000, dp / 0x1000);
      SameSextets(cp / 0x1000, dp / 0x1000, cp / 0x40, dp / 0x40);
      SameSextets(cp / 0x40, dp / 0x40, cp, dp);
    }
  }

  /** Two numbers with the same upper part and the same low six bits are equal. */
  lemma SameSextets(hi: nat, hj: nat, i: nat, j: nat)
    requires hi == i / 0x40 && hj == j / 0x40
    requires hi == hj && i % 0x40 == j % 0x40
    ensures i == j
  {
  }

  /** UTF-8 is injective: two strings with the same encoding are the same string. */
  lemma {:induction false} Utf8Injective(a: string, b: string)
    ensures Utf8Encode(a) == Utf8Encode(b) ==> a == b
  {
    if Utf8Encode(a) == Utf8Encode(b) && a != [] && b != [] {
      var e := Utf8Encode(a);
      var ea, eb := Utf8Char(a[0]), Utf8Char(b[0]);
      LeadAnnouncesLength(a[0]);
      LeadAnnouncesLength(b[0]);
      assert e == ea + Utf8Encode(a[1..]) && e == eb + Utf8Encode(b[1..]);
      assert e[0] == ea[0] == eb[0];
      assert ea == e[..|ea|] == eb;
      Utf8CharInjective(a[0], b[0]);
      assert Utf8Encode(a[1..]) == e[|ea|..] == Utf8Encode(b[1..]);
      Utf8Injective(a[1..], b[1..]);
      assert a == [a[0]] + a[1..] && b == [b[0]] + b[1..];
    }
  }
}
