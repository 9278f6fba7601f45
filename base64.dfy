/**
 * Base64 with the standard alphabet and `=` padding: `base64.b64encode`, and
 * `base64.b64decode` in its default, non-validating mode, which is CPython's
 * `binascii.a2b_base64` with strict mode off after a check that the text is
 * ASCII.
 */
module Base64 {
  import opened Wrappers
  import opened Bytes

  /** The ways `b64decode` fails: a non-ASCII character (`ValueError`) or a bad length (`binascii.Error`). */
  datatype DecodeError =
    | NonAscii           // "string argument should contain only ASCII characters"
    | DanglingCharacter  // one data character more than a multiple of four
    | IncorrectPadding   // two or three data characters left and no padding to close them

  /** The alphabet character for a 6-bit value: A-Z, a-z, 0-9, `+`, `/`. */
  function SextetChar(v: nat): char
    requires v < 64
  {
    if v < 26 then ('A' as int + v) as char
    else if v < 52 then ('a' as int + (v - 26)) as char
    else if v < 62 then ('0' as int + (v - 52)) as char
    else if v == 62 then '+'
    else '/'
  }

  /** The decoding table: the 6-bit value of an alphabet character, 64 for every other character. */
  function SextetValue(c: char): (v: nat)
    ensures v <= 64
  {
    if 'A' <= c <= 'Z' then c as int - 'A' as int
    else if 'a' <= c <= 'z' then c as int - 'a' as int + 26
    else if '0' <= c <= '9' then c as int - '0' as int + 52
    else if c == '+' then 62
    else if c == '/' then 63
    else 64
  }

  predicate InAlphabet(c: char) { SextetValue(c) < 64 }

  /** The decoding table inverts the encoding table. */
  lemma SextetRoundTrip(v: nat)
    requires v < 64
    ensures SextetValue(SextetChar(v)) == v
  {
  }

  /** `b64encode`: every three bytes become four characters; a final one or two bytes are padded with `=`. */
  function Encode(b: seq<byte>): (s: string)
    ensures |s| == 4 * ((|b| + 2) / 3)
    ensures forall k :: 0 <= k < |s| ==> InAlphabet(s[k]) || s[k] == '='
    decreases |b|
  {
    if |b| == 0 then []
    else if |b| == 1 then PadTwo(b[0])
    else if |b| == 2 then PadOne(b[0], b[1])
    else Group(b[0], b[1], b[2]) + Encode(b[3..])
  }

  /** The four characters of one full three-byte group. */
  function Group(x: byte, y: byte, z: byte): (g: string)
    ensures |g| == 4 && forall k :: 0 <= k < 4 ==> InAlphabet(g[k])
  {
    var x, y, z := x as int, y as int, z as int;
    [SextetChar(x / 4), SextetChar((x % 4) * 16 + y / 16), SextetChar((y % 16) * 4 + z / 64), SextetChar(z % 64)]
  }

  /** A final lone byte: two characters and two `=`. */
  function PadTwo(x: byte): (g: string)
    ensures |g| == 4 && InAlphabet(g[0]) && InAlphabet(g[1]) && g[2] == '=' && g[3] == '='
  {
    var x := x as int;
    [SextetChar(x / 4), SextetChar((x % 4) * 16), '=', '=']
  }

  /** A final pair of bytes: three characters and one `=`. */
  function PadOne(x: byte, y: byte): (g: string)
    ensures |g| == 4 && InAlphabet(g[0]) && InAlphabet(g[1]) && InAlphabet(g[2]) && g[3] == '='
  {
    var x, y := x as int, y as int;
    [SextetChar(x / 4), SextetChar((x % 4) * 16 + y / 16), SextetChar((y % 16) * 4), '=']
  }

  /** A character outside the alphabet that is not `=` never occurs in an encoding. */
  lemma NotInEncoding(b: seq<byte>, c: char)
    requires !InAlphabet(c) && c != '='
    ensures c !in Encode(b)
  {
  }

  predicate IsAscii(s: string) { forall k :: 0 <= k < |s| ==> s[k] as int < 128 }

  /** What the decoder has read of the current quad: `quad` data characters whose low bits are `left`. */
  predicate ValidState(quad: nat, left: nat)
  {
    quad < 4 && left < (if quad == 0 then 1 else if quad == 1 then 64 else if quad == 2 then 16 else 4)
  }

  /**
   * The non-strict decoding loop: characters outside the alphabet are skipped;
   * `=` is skipped too unless it completes the padding of a quad that already
   * holds two or three data characters, and then decoding stops and the rest
   * of the text is ignored; at the end of the text the quad must be empty.
   * `pads` counts the `=` seen since the last data character.
   */
  function Run(s: string, quad: nat, left: nat, pads: nat, out: seq<byte>): (r: Result<seq<byte>, DecodeError>)
    requires ValidState(quad, left)
    ensures r.Ok? ==> |out| <= |r.value| && r.value[..|out|] == out
    ensures r.Ok? ==> 4 * (|r.value| - |out|) <= 3 * |s| + QuadCredit(quad)
    decreases |s|
  {
    if s == [] then
      if quad == 0 then Ok(out)
      else if quad == 1 then Err(DanglingCharacter)
      else Err(IncorrectPadding)
    else if s[0] == '=' then
      if quad >= 2 && quad + pads + 1 >= 4 then Ok(out)
      else Run(s[1..], quad, left, if quad >= 2 then pads + 1 else pads, out)
    else
      var v := SextetValue(s[0]);
      if v == 64 then Run(s[1..], quad, left, pads, out)
      else if quad == 0 then Run(s[1..], 1, v, 0, out)
      else if quad == 1 then Run(s[1..], 2, v % 16, 0, out + [(left * 4 + v / 16) as byte])
      else if quad == 2 then Run(s[1..], 3, v % 4, 0, out + [(left * 16 + v / 4) as byte])
      else Run(s[1..], 0, 0, 0, out + [(left * 64 + v) as byte])
  }

  /**
   * What the data characters already read into the current quad still allow
   * the rest of the text to emit beyond three bytes per four characters.
   */
  function QuadCredit(quad: nat): nat
  {
    if quad == 0 || quad >= 4 then 0 else 4 - quad
  }

  /** `b64decode(s)` for a `str` argument: at most three bytes for every four characters. */
  function Decode(s: string): (r: Result<seq<byte>, DecodeError>)
    ensures r.Ok? ==> IsAscii(s) && 4 * |r.value| <= 3 * |s|
  {
    if !IsAscii(s) then Err(NonAscii) else Run(s, 0, 0, 0, [])
  }

  /** The sextets of a group put back together give the three bytes, each sextet below 64. */
  lemma GroupBits(x: nat, y: nat, z: nat)
    requires x < 256 && y < 256 && z < 256
    ensures x / 4 < 64 && (x % 4) * 16 + y / 16 < 64 && (y % 16) * 4 + z / 64 < 64 && z % 64 < 64
    ensures (x / 4) * 4 + ((x % 4) * 16 + y / 16) / 16 == x
    ensures (((x % 4) * 16 + y / 16) % 16) * 16 + ((y % 16) * 4 + z / 64) / 4 == y
    ensures (((y % 16) * 4 + z / 64) % 4) * 64 + z % 64 == z
  {
  }

  /** Reading one data character, of value `v`, into an empty quad. */
  lemma ReadFirst(c: char, t: string, v: nat, out: seq<byte>)
    requires SextetValue(c) == v < 64
    ensures Run([c] + t, 0, 0, 0, out) == Run(t, 1, v, 0, out)
  {
    assert ([c] + t)[1..] == t;
  }

  /** Reading the second data character of a quad emits the first byte. */
  lemma ReadSecond(c: char, t: string, left: nat, v: nat, x: byte, out: seq<byte>)
    requires SextetValue(c) == v < 64 && left < 64 && left * 4 + v / 16 == x as int
    ensures Run([c] + t, 1, left, 0, out) == Run(t, 2, v % 16, 0, out + [x])
  {
    assert ([c] + t)[1..] == t;
  }

  /** Reading the third data character of a quad emits the second byte. */
  lemma ReadThird(c: char, t: string, left: nat, v: nat, y: byte, out: seq<byte>)
    requires SextetValue(c) == v < 64 && left < 16 && left * 16 + v / 4 == y as int
    ensures Run([c] + t, 2, left, 0, out) == Run(t, 3, v % 4, 0, out + [y])
  {
    assert ([c] + t)[1..] == t;
  }

  /** Reading the fourth data character of a quad emits the third byte and empties the quad. */
  lemma ReadFourth(c: char, t: string, left: nat, v: nat, z: byte, out: seq<byte>)
    requires SextetValue(c) == v < 64 && left < 4 && left * 64 + v == z as int
    ensures Run([c] + t, 3, left, 0, out) == Run(t, 0, 0, 0, out + [z])
  {
    assert ([c] + t)[1..] == t;
  }

  /** Emitting three bytes one at a time emits the three of them. */
  lemma EmitThree(out: seq<byte>, x: byte, y: byte, z: byte)
    ensures out + [x] + [y] + [z] == out + [x, y, z]
  {
  }

  /** Decoding one full group emits its three bytes and leaves the decoder at the start of a quad. */
  lemma RunGroup(x: byte, y: byte, z: byte, rest: string, out: seq<byte>)
    ensures Run(Group(x, y, z) + rest, 0, 0, 0, out) == Run(rest, 0, 0, 0, out + [x, y, z])
  {
    var xi, yi, zi := x as int, y as int, z as int;
    var v0, v1, v2, v3 := xi / 4, (xi % 4) * 16 + yi / 16, (yi % 16) * 4 + zi / 64, zi % 64;
    GroupBits(xi, yi, zi);
    SextetRoundTrip(v0);
    SextetRoundTrip(v1);
    SextetRoundTrip(v2);
    SextetRoundTrip(v3);
    var t3 := [SextetChar(v3)] + rest;
    var t2 := [SextetChar(v2)] + t3;
    var t1 := [SextetChar(v1)] + t2;
    assert Group(x, y, z) + rest == [SextetChar(v0)] + t1;
    ReadFirst(SextetChar(v0), t1, v0, out);
    ReadSecond(SextetChar(v1), t2, v0, v1, x, out);
    ReadThird(SextetChar(v2), t3, v1 % 16, v2, y, out + [x]);
    ReadFourth(SextetChar(v3), rest, v2 % 4, v3, z, out + [x] + [y]);
    EmitThree(out, x, y, z);
  }

  /** Decoding a lone padded byte emits it and stops at the second `=`. */
  lemma RunPadTwo(x: byte, out: seq<byte>)
    ensures Run(PadTwo(x), 0, 0, 0, out) == Ok(out + [x])
  {
    var xi := x as int;
    var v0, v1 := xi / 4, (xi % 4) * 16;
    GroupBits(xi, 0, 0);
    SextetRoundTrip(v0);
    SextetRoundTrip(v1);
    var t2 := "==";
    var t1 := [SextetChar(v1)] + t2;
    assert PadTwo(x) == [SextetChar(v0)] + t1;
    ReadFirst(SextetChar(v0), t1, v0, out);
    ReadSecond(SextetChar(v1), t2, v0, v1, x, out);
    assert t2[1..] == "=";
  }

  /** Decoding a padded pair emits both bytes and stops at the `=`. */
  lemma RunPadOne(x: byte, y: byte, out: seq<byte>)
    ensures Run(PadOne(x, y), 0, 0, 0, out) == Ok(out + [x, y])
  {
    var xi, yi := x as int, y as int;
    var v0, v1, v2 := xi / 4, (xi % 4) * 16 + yi / 16, (yi % 16) * 4;
    GroupBits(xi, yi, 0);
    SextetRoundTrip(v0);
    SextetRoundTrip(v1);
    SextetRoundTrip(v2);
    var t3 := "=";
    var t2 := [SextetChar(v2)] + t3;
    var t1 := [SextetChar(v1)] + t2;
    assert PadOne(x, y) == [SextetChar(v0)] + t1;
    ReadFirst(SextetChar(v0), t1, v0, out);
    ReadSecond(SextetChar(v1), t2, v0, v1, x, out);
    ReadThird(SextetChar(v2), t3, v1 % 16, v2, y, out + [x]);
    assert out + [x] + [y] == out + [x, y];
  }

  /** Emitting the first three bytes of `b` and then the rest emits `b`. */
  lemma EmitGroup(out: seq<byte>, b: seq<byte>)
    requires |b| >= 3
    ensures out + [b[0], b[1], b[2]] + b[3..] == out + b
  {
    assert [b[0], b[1], b[2]] + b[3..] == b;
  }

  /** Decoding the encoding of `b` after `out` has been emitted yields `out + b`. */
  lemma {:induction false} RunEncode(b: seq<byte>, out: seq<byte>)
    ensures Run(Encode(b), 0, 0, 0, out) == Ok(out + b)
    decreases |b|
  {
    if |b| == 0 {
      assert out + b == out;
    } else if |b| == 1 {
      RunPadTwo(b[0], out);
      assert [b[0]] == b;
    } else if |b| == 2 {
      RunPadOne(b[0], b[1], out);
      assert [b[0], b[1]] == b;
    } else {
      RunGroup(b[0], b[1], b[2], Encode(b[3..]), out);
      RunEncode(b[3..], out + [b[0], b[1], b[2]]);
      EmitGroup(out, b);
    }
  }

  /** `b64decode(b64encode(b)) == b`. */
  lemma DecodeEncode(b: seq<byte>)
    ensures Decode(Encode(b)) == Ok(b)
  {
    var s := Encode(b);
    forall k | 0 <= k < |s| ensures s[k] as int < 128 {
      assert InAlphabet(s[k]) || s[k] == '=';
    }
    RunEncode(b, []);
    assert [] + b == b;
  }
}
