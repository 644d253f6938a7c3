/** UTF-8 (RFC 3629): which byte sequences are text, and how many bytes a text has. */
module Utf8 {
  import opened Bits

  /** The bytes of one character, section 3 of RFC 3629. */
  function Encoded(c: char): (bytes: seq<u8>)
    ensures 1 <= |bytes| <= 4
  {
    var x := c as nat;
    if x < 0x80 then [x]
    else if x < 0x800 then [0xc0 + x / 64, 0x80 + x % 64]
    else if x < 0x1_0000 then [0xe0 + x / 4096, 0x80 + x / 64 % 64, 0x80 + x % 64]
    else [0xf0 + x / 262144, 0x80 + x / 4096 % 64, 0x80 + x / 64 % 64, 0x80 + x % 64]
  }

  function Text(s: string): seq<u8> {
    if s == "" then [] else Encoded(s[0]) + Text(s[1..])
  }

  /** Well-formed bytes, by the syntax in section 4 of RFC 3629. */
  predicate IsUtf8(bytes: seq<u8>) {
    if bytes == [] then true
    else if bytes[0] <= 0x7f then IsUtf8(bytes[1..])
    else if 0xc2 <= bytes[0] <= 0xdf then |bytes| >= 2 && IsTail(bytes[1]) && IsUtf8(bytes[2..])
    else if 0xe0 <= bytes[0] <= 0xef then
      && |bytes| >= 3 && IsTail(bytes[1]) && IsTail(bytes[2])
      && (bytes[0] == 0xe0 ==> bytes[1] >= 0xa0) && (bytes[0] == 0xed ==> bytes[1] <= 0x9f)
      && IsUtf8(bytes[3..])
    else
      && 0xf0 <= bytes[0] <= 0xf4 && |bytes| >= 4 && IsTail(bytes[1]) && IsTail(bytes[2]) && IsTail(bytes[3])
      && (bytes[0] == 0xf0 ==> bytes[1] >= 0x90) && (bytes[0] == 0xf4 ==> bytes[1] <= 0x8f)
      && IsUtf8(bytes[4..])
  }

  predicate IsTail(byte: u8) {
    0x80 <= byte <= 0xbf
  }

  /** A character's bytes are accepted by the syntax and nothing more is taken for them. */
  lemma EncodedIsTaken(c: char, rest: seq<u8>)
    ensures IsUtf8(Encoded(c) + rest) <==> IsUtf8(rest)
  {
    var x, all := c as nat, Encoded(c) + rest;
    assert all[|Encoded(c)|..] == rest;
    assert forall i | 0 <= i < |Encoded(c)| :: all[i] == Encoded(c)[i];
    if x >= 0x1_0000 {
      Digits64(x);
    }
  }

  lemma Digits64(x: nat)
    ensures x / 4096 == x / 262144 * 64 + x / 4096 % 64 && x / 64 == x / 4096 * 64 + x / 64 % 64
  {
  }

  lemma {:induction false} TextIsUtf8(s: string)
    ensures IsUtf8(Text(s))
  {
    if s != "" {
      TextIsUtf8(s[1..]);
      EncodedIsTaken(s[0], Text(s[1..]));
    }
  }

  /** The first character of well-formed bytes. */
  lemma FirstCharacter(bytes: seq<u8>) returns (c: char)
    requires bytes != [] && IsUtf8(bytes)
    ensures Encoded(c) <= bytes
  {
    var b0: nat := bytes[0];
    if b0 <= 0x7f {
      c := b0 as char;
    } else if b0 <= 0xdf {
      c := TwoBytes(b0, bytes[1]);
    } else if b0 <= 0xef {
      c := ThreeBytes(b0, bytes[1], bytes[2]);
    } else {
      c := FourBytes(b0, bytes[1], bytes[2], bytes[3]);
    }
  }

  lemma TwoBytes(b0: u8, b1: u8) returns (c: char)
    requires 0xc2 <= b0 <= 0xdf && IsTail(b1)
    ensures Encoded(c) == [b0, b1]
  {
    c := ((b0 - 0xc0) * 64 + (b1 - 0x80)) as char;
  }

  lemma ThreeBytes(b0: u8, b1: u8, b2: u8) returns (c: char)
    requires 0xe0 <= b0 <= 0xef && IsTail(b1) && IsTail(b2)
    requires (b0 == 0xe0 ==> b1 >= 0xa0) && (b0 == 0xed ==> b1 <= 0x9f)
    ensures Encoded(c) == [b0, b1, b2]
  {
    var x: nat := (b0 - 0xe0) * 4096 + (b1 - 0x80) * 64 + (b2 - 0x80);
    assert 0x800 <= x < 0xd800 || 0xe000 <= x < 0x1_0000;
    ThreeDigits(0, b0 - 0xe0, b1 - 0x80, b2 - 0x80);
    c := x as char;
  }

  lemma FourBytes(b0: u8, b1: u8, b2: u8, b3: u8) returns (c: char)
    requires 0xf0 <= b0 <= 0xf4 && IsTail(b1) && IsTail(b2) && IsTail(b3)
    requires (b0 == 0xf0 ==> b1 >= 0x90) && (b0 == 0xf4 ==> b1 <= 0x8f)
    ensures Encoded(c) == [b0, b1, b2, b3]
  {
    var x: nat := (b0 - 0xf0) * 262144 + (b1 - 0x80) * 4096 + (b2 - 0x80) * 64 + (b3 - 0x80);
    assert 0x1_0000 <= x < 0x11_0000;
    ThreeDigits(b0 - 0xf0, b1 - 0x80, b2 - 0x80, b3 - 0x80);
    c := x as char;
  }

  lemma ThreeDigits(a: nat, b: nat, c: nat, d: nat)
    requires b < 64 && c < 64 && d < 64
    ensures var x := a * 262144 + b * 4096 + c * 64 + d;
            x / 262144 == a && x / 4096 % 64 == b && x / 64 % 64 == c && x % 64 == d
  {
    var x := a * 262144 + b * 4096 + c * 64 + d;
    ModUnique(x, 64, a * 4096 + b * 64 + c, d);
    ModUnique(x, 4096, a * 64 + b, c * 64 + d);
    ModUnique(x, 262144, a, b * 4096 + c * 64 + d);
    ModUnique(a * 4096 + b * 64 + c, 64, a * 64 + b, c);
    ModUnique(a * 64 + b, 64, a, b);
  }

  lemma {:induction false} Utf8IsText(bytes: seq<u8>) returns (s: string)
    requires IsUtf8(bytes)
    ensures Text(s) == bytes
    decreases |bytes|
  {
    if bytes == [] {
      s := "";
    } else {
      var c := FirstCharacter(bytes);
      var rest := bytes[|Encoded(c)|..];
      assert bytes == Encoded(c) + rest;
      EncodedIsTaken(c, rest);
      var t := Utf8IsText(rest);
      s := [c] + t;
    }
  }

  /** Bytes are accepted exactly if they are those of some text. */
  lemma Utf8Iff(bytes: seq<u8>)
    ensures IsUtf8(bytes) <==> exists s :: Text(s) == bytes
  {
    if IsUtf8(bytes) {
      var s := Utf8IsText(bytes);
    } else if s :| Text(s) == bytes {
      TextIsUtf8(s);
    }
  }
}
