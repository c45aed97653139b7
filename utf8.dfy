/**
 * The byte view of text: a `str` is its UTF-8 encoding (RFC 3629), and a
 * byte string that is all ASCII is the encoding of the text with one
 * character per byte.
 */
module Utf8 {
  import opened Utility

  /** The UTF-8 encoding of one Unicode scalar value. */
  function EncodeChar(c: char): (bytes: seq<Byte>)
    ensures 1 <= |bytes| <= 4
    ensures c as int < 0x80 ==> bytes == [c as int]
    ensures c as int >= 0x80 ==> forall i | 0 <= i < |bytes| :: bytes[i] >= 0x80
  {
    var cp := c as int;
    if cp < 0x80 then [cp]
    else if cp < 0x800 then [0xC0 + cp / 0x40, 0x80 + cp % 0x40]
    else if cp < 0x1_0000 then [0xE0 + cp / 0x1000, 0x80 + cp / 0x40 % 0x40, 0x80 + cp % 0x40]
    else [0xF0 + cp / 0x4_0000, 0x80 + cp / 0x1000 % 0x40, 0x80 + cp / 0x40 % 0x40, 0x80 + cp % 0x40]
  }

  /** `str::as_bytes`: the UTF-8 encoding of a text. */
  function Encode(s: string): seq<Byte> {
    if |s| == 0 then [] else EncodeChar(s[0]) + Encode(s[1..])
  }

  predicate IsAscii(bytes: seq<Byte>) {
    forall i | 0 <= i < |bytes| :: bytes[i] < 0x80
  }

  /** The text whose UTF-8 encoding is the ASCII byte string `bytes`. */
  function DecodeAscii(bytes: seq<Byte>): (s: string)
    requires IsAscii(bytes)
    ensures |s| == |bytes|
    ensures Encode(s) == bytes
  {
    if |bytes| == 0 then ""
    else
      var c := bytes[0] as char;
      var rest := DecodeAscii(bytes[1..]);
      assert ([c] + rest)[1..] == rest;
      [c] + rest
  }

  /** A text's encoding is all ASCII exactly when every character is ASCII. */
  lemma {:induction false} EncodeIsAscii(s: string)
    ensures IsAscii(Encode(s)) <==> forall i | 0 <= i < |s| :: s[i] as int < 0x80
  {
    if |s| > 0 {
      EncodeIsAscii(s[1..]);
      var head := EncodeChar(s[0]);
      assert Encode(s) == head + Encode(s[1..]);
      assert Encode(s)[0] == head[0];
      if IsAscii(Encode(s)) {
        assert IsAscii(Encode(s[1..])) by {
          forall i | 0 <= i < |Encode(s[1..])| ensures Encode(s[1..])[i] < 0x80 {
            assert Encode(s)[|head| + i] == Encode(s[1..])[i];
          }
        }
      }
      if forall i | 0 <= i < |s| :: s[i] as int < 0x80 {
        assert s[0] as int < 0x80;
        assert forall i | 0 <= i < |s[1..]| :: s[1..][i] == s[i + 1];
      }
    }
  }
}
