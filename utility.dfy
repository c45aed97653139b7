/**
 * The percent-encoding helpers every URI component shares: hex-digit
 * decoding of a `%XX` triplet, the unreserved character class, the decoded
 * byte stream a component stands for, encoding-insensitive equality and
 * hashing over that stream, and in-place normalization of a byte buffer
 * (RFC 3986, sections 2.1, 2.3 and 6.2.2).
 */
module Utility {
  import opened Wrappers

  /** An octet, the element type of `[u8]`. */
  type Byte = b: int | 0 <= b < 256

  /** The escape marker `%`. */
  const PERCENT: Byte := 0x25

  predicate IsAsciiDigit(b: Byte) { 0x30 <= b <= 0x39 }

  predicate IsAsciiUpper(b: Byte) { 0x41 <= b <= 0x5A }

  predicate IsAsciiLower(b: Byte) { 0x61 <= b <= 0x7A }

  /** HEXDIG, either case. */
  predicate IsHexDigit(b: Byte) {
    IsAsciiDigit(b) || 0x41 <= b <= 0x46 || 0x61 <= b <= 0x66
  }

  /** A hex digit in the canonical spelling of section 2.1: a digit or `A`-`F`. */
  predicate IsUppercaseHexDigit(b: Byte) {
    IsAsciiDigit(b) || 0x41 <= b <= 0x46
  }

  /** unreserved = ALPHA / DIGIT / "-" / "." / "_" / "~" (section 2.3). */
  predicate IsUnreserved(b: Byte) {
    IsAsciiUpper(b) || IsAsciiLower(b) || IsAsciiDigit(b)
    || b == 0x2D || b == 0x2E || b == 0x5F || b == 0x7E
  }

  /** ASCII upper-casing: `a`-`z` become `A`-`Z`, every other byte is kept. */
  function ToAsciiUppercase(b: Byte): (u: Byte)
    ensures IsAsciiLower(b) ==> IsAsciiUpper(u) && u + 0x20 == b
    ensures !IsAsciiLower(b) ==> u == b
  {
    if IsAsciiLower(b) then b - 0x20 else b
  }

  /** One hex digit: its value and whether it is spelled in upper case. */
  function HexDigitToDecimal(b: Byte): (r: Result<(nat, bool), ()>)
    ensures r.Ok? <==> IsHexDigit(b)
    ensures r.Ok? ==> r.value.0 < 16 && (r.value.1 <==> IsUppercaseHexDigit(b))
  {
    if 0x41 <= b <= 0x46 then Ok((b - 0x41 + 10, true))
    else if 0x61 <= b <= 0x66 then Ok((b - 0x61 + 10, false))
    else if IsAsciiDigit(b) then Ok((b - 0x30, true))
    else Err(())
  }

  /** The canonical (upper-case) hex digit for a nibble. */
  function UppercaseHexDigit(n: nat): (d: Byte)
    requires n < 16
    ensures IsUppercaseHexDigit(d)
    ensures HexDigitToDecimal(d) == Ok((n, true))
  {
    if n < 10 then 0x30 + n else 0x41 + n - 10
  }

  /** A hex digit's value spelled canonically is the digit folded to upper case. */
  lemma HexDigitValue(b: Byte)
    requires IsHexDigit(b)
    ensures UppercaseHexDigit(HexDigitToDecimal(b).value.0) == ToAsciiUppercase(b)
  {
  }

  /** The two canonical hex digits that percent-encode `b`. */
  function PercentEncode(b: Byte): (Byte, Byte) {
    (UppercaseHexDigit(b / 16), UppercaseHexDigit(b % 16))
  }

  lemma NibblesOf(hi: nat, lo: nat)
    requires hi < 16 && lo < 16
    ensures (16 * hi + lo) / 16 == hi && (16 * hi + lo) % 16 == lo
  {
  }

  /**
   * Decodes the two bytes after a `%`, each absent at the end of input:
   * the octet they name and whether both digits were upper case, or an
   * error when either is absent or not a hex digit. The decoded octet is the
   * one whose canonical encoding is the upper-cased pair of digits.
   */
  function GetPercentEncodedValue(first: Option<Byte>, second: Option<Byte>): (r: Result<(Byte, bool), ()>)
    ensures r.Ok? <==> first.Some? && second.Some? && IsHexDigit(first.value) && IsHexDigit(second.value)
    ensures r.Ok? ==> (r.value.1 <==> IsUppercaseHexDigit(first.value) && IsUppercaseHexDigit(second.value))
    ensures r.Ok? ==> PercentEncode(r.value.0) == (ToAsciiUppercase(first.value), ToAsciiUppercase(second.value))
  {
    if first.None? || second.None? then Err(())
    else
      match (HexDigitToDecimal(first.value), HexDigitToDecimal(second.value))
      case (Ok((hi, hiUpper)), Ok((lo, loUpper))) =>
        NibblesOf(hi, lo);
        Ok((16 * hi + lo, hiUpper && loUpper))
      case _ => Err(())
  }

  /** The octet a well-formed pair of hex digits names. */
  function HexPairValue(hi: Byte, lo: Byte): Byte
    requires IsHexDigit(hi) && IsHexDigit(lo)
  {
    GetPercentEncodedValue(Some(hi), Some(lo)).value.0
  }

  /** Encoding then decoding gives the octet back, flagged as canonical. */
  lemma PercentEncodeDecode(b: Byte)
    ensures GetPercentEncodedValue(Some(PercentEncode(b).0), Some(PercentEncode(b).1)) == Ok((b, true))
  {
    var (hi, lo) := PercentEncode(b);
    assert HexDigitToDecimal(hi) == Ok((b / 16, true));
    assert HexDigitToDecimal(lo) == Ok((b % 16, true));
  }

  /**
   * Decoding determines the octet and its flag: two triplets decode to the
   * same octet exactly when their digits agree up to case, and a triplet is
   * flagged canonical exactly when it is the canonical encoding.
   */
  lemma {:induction false} DecodeEncode(hi: Byte, lo: Byte)
    requires IsHexDigit(hi) && IsHexDigit(lo)
    ensures var (v, upper) := GetPercentEncodedValue(Some(hi), Some(lo)).value;
      upper <==> PercentEncode(v) == (hi, lo)
  {
    var (v, upper) := GetPercentEncodedValue(Some(hi), Some(lo)).value;
    if !upper {
      assert !IsUppercaseHexDigit(hi) || !IsUppercaseHexDigit(lo);
      assert IsUppercaseHexDigit(PercentEncode(v).0) && IsUppercaseHexDigit(PercentEncode(v).1);
    }
  }

  /** A `%` at position `i` of `s` starts a `%XX` triplet of two hex digits. */
  predicate EscapeWellFormedAt(s: seq<Byte>, i: nat)
    requires i < |s|
  {
    s[i] == PERCENT ==> i + 2 < |s| && IsHexDigit(s[i + 1]) && IsHexDigit(s[i + 2])
  }

  /** Every `%` in `s` starts a `%XX` triplet of two hex digits. */
  predicate PercentEncodingsWellFormed(s: seq<Byte>) {
    forall i | 0 <= i < |s| :: EscapeWellFormedAt(s, i)
  }

  /**
   * The first decoded octet of a non-empty `s` and the number of raw bytes it
   * takes: a `%` followed by two hex digits decodes to the octet they name,
   * and any other byte, a `%` without two hex digits included, stands for
   * itself.
   */
  function DecodeUnit(s: seq<Byte>): (u: (Byte, nat))
    requires |s| > 0
    ensures u.1 == 1 || u.1 == 3
    ensures u.1 == 3 <==> s[0] == PERCENT && |s| >= 3 && IsHexDigit(s[1]) && IsHexDigit(s[2])
    ensures u.1 == 3 ==> u.0 == HexPairValue(s[1], s[2])
    ensures u.1 == 1 ==> u.0 == s[0]
  {
    if s[0] == PERCENT && |s| >= 3 then
      match GetPercentEncodedValue(Some(s[1]), Some(s[2]))
      case Ok((v, _)) => (v, 3)
      case Err(_) => (s[0], 1)
    else (s[0], 1)
  }

  /** The decoded byte stream `s` stands for: every triplet replaced by its octet. */
  function Decode(s: seq<Byte>): seq<Byte> {
    if |s| == 0 then []
    else
      var (v, w) := DecodeUnit(s);
      [v] + Decode(s[w..])
  }

  lemma ConsEquality(a: Byte, x: seq<Byte>, b: Byte, y: seq<Byte>)
    ensures [a] + x == [b] + y <==> a == b && x == y
  {
    if [a] + x == [b] + y {
      assert a == ([a] + x)[0] && b == ([b] + y)[0];
      assert x == ([a] + x)[1..] && y == ([b] + y)[1..];
    }
  }

  /**
   * Encoding-aware equality of two raw byte strings with case significant
   * outside escapes: both are walked in lock-step, one decoded octet at a
   * time. It holds exactly when the two decoded streams are identical.
   */
  function PercentEncodedEquality(left: seq<Byte>, right: seq<Byte>): (eq: bool)
    ensures eq <==> Decode(left) == Decode(right)
    decreases |left| + |right|
  {
    if |left| == 0 || |right| == 0 then |left| == 0 && |right| == 0
    else
      var (a, w) := DecodeUnit(left);
      var (b, v) := DecodeUnit(right);
      ConsEquality(a, Decode(left[w..]), b, Decode(right[v..]));
      a == b && PercentEncodedEquality(left[w..], right[v..])
  }

  /** A hasher fed the octets of `bytes` one after another. */
  function FeedBytes<H>(bytes: seq<Byte>, state: H, write: (H, Byte) -> H): H
    decreases |bytes|
  {
    if |bytes| == 0 then state else FeedBytes(bytes[1..], write(state, bytes[0]), write)
  }

  /**
   * Hashing that decodes every triplet to its octet before feeding the
   * hasher: the result is the hasher fed the decoded stream.
   */
  function PercentEncodedHash<H>(s: seq<Byte>, state: H, write: (H, Byte) -> H): (h: H)
    ensures h == FeedBytes(Decode(s), state, write)
  {
    if |s| == 0 then state
    else
      var (v, w) := DecodeUnit(s);
      assert ([v] + Decode(s[w..]))[1..] == Decode(s[w..]);
      PercentEncodedHash(s[w..], write(state, v), write)
  }

  /**
   * The canonical form of section 6.2.2: a triplet naming an unreserved
   * octet becomes that octet, any other triplet gets upper-case hex digits,
   * and every other byte is kept.
   */
  function Normalized(s: seq<Byte>): seq<Byte> {
    if |s| == 0 then []
    else
      var (v, w) := DecodeUnit(s);
      NormalizedUnit(s, v, w) + Normalized(s[w..])
  }

  /** The canonical spelling of the first unit of `s`. */
  function NormalizedUnit(s: seq<Byte>, v: Byte, w: nat): seq<Byte>
    requires |s| > 0 && DecodeUnit(s) == (v, w)
  {
    if w == 1 then [s[0]]
    else if IsUnreserved(v) then [v]
    else [PERCENT, ToAsciiUppercase(s[1]), ToAsciiUppercase(s[2])]
  }

  /** Bytes without a `%` decode to themselves and are already in normal form. */
  lemma {:induction false} PlainBytes(s: seq<Byte>)
    requires forall i | 0 <= i < |s| :: s[i] != PERCENT
    ensures Decode(s) == s && Normalized(s) == s
  {
    if |s| > 0 {
      assert s[0] != PERCENT;
      PlainBytes(s[1..]);
      assert s == [s[0]] + s[1..];
    }
  }

  /** Well-formed escapes stay well formed in every suffix. */
  lemma WellFormedSuffix(s: seq<Byte>, k: nat)
    requires PercentEncodingsWellFormed(s) && k <= |s|
    ensures PercentEncodingsWellFormed(s[k..])
  {
    forall i | 0 <= i < |s[k..]| ensures EscapeWellFormedAt(s[k..], i) {
      assert EscapeWellFormedAt(s, k + i);
    }
  }

  /**
   * Normalization never changes what a component means: the normalized
   * bytes decode to the same stream (section 6.2.2 equivalence).
   */
  lemma {:induction false} NormalizedPreservesDecode(s: seq<Byte>)
    requires PercentEncodingsWellFormed(s)
    ensures Decode(Normalized(s)) == Decode(s)
  {
    if |s| > 0 {
      var (v, w) := DecodeUnit(s);
      WellFormedSuffix(s, w);
      NormalizedPreservesDecode(s[w..]);
      var piece := NormalizedUnit(s, v, w);
      var rest := Normalized(s[w..]);
      assert EscapeWellFormedAt(s, 0);
      if w == 3 && !IsUnreserved(v) {
        var hi, lo := ToAsciiUppercase(s[1]), ToAsciiUppercase(s[2]);
        PercentEncodeDecode(v);
        assert (piece + rest)[..3] == piece && (piece + rest)[3..] == rest;
        assert DecodeUnit(piece + rest) == (v, 3);
      } else {
        assert (piece + rest)[1..] == rest;
        assert DecodeUnit(piece + rest) == (v, 1);
      }
    }
  }

  /**
   * The state of the in-place rewrite of `s` after reading `read` bytes and
   * writing `write`: the written prefix of `buf` is `out`, the unread suffix
   * is untouched, and `out` followed by the canonical form of the unread
   * suffix is the canonical form of all of `s`.
   */
  ghost predicate Rewriting(s: seq<Byte>, buf: seq<Byte>, read: nat, write: nat, out: seq<Byte>) {
    |buf| == |s| && write <= read <= |s|
    && buf[..write] == out && buf[read..] == s[read..]
    && out + Normalized(s[read..]) == Normalized(s)
  }

  /** The canonical form of a suffix: its first unit's spelling, then the rest. */
  lemma NormalizedSuffix(s: seq<Byte>, read: nat, v: Byte, w: nat)
    requires read < |s| && DecodeUnit(s[read..]) == (v, w)
    ensures read + w <= |s|
    ensures Normalized(s[read..]) == NormalizedUnit(s[read..], v, w) + Normalized(s[read + w..])
  {
    assert s[read..][w..] == s[read + w..];
  }

  /** Copying a byte that does not start a triplet. */
  lemma RewriteLiteral(s: seq<Byte>, buf: seq<Byte>, read: nat, write: nat, out: seq<Byte>)
    requires Rewriting(s, buf, read, write, out) && read < |s| && s[read] != PERCENT
    ensures buf[read] == s[read]
    ensures Rewriting(s, buf[write := s[read]], read + 1, write + 1, out + [s[read]])
  {
    assert DecodeUnit(s[read..]) == (s[read], 1);
    NormalizedSuffix(s, read, s[read], 1);
    assert (out + [s[read]]) + Normalized(s[read + 1..]) == out + ([s[read]] + Normalized(s[read + 1..]));
    assert buf[write := s[read]][..write + 1] == out + [s[read]];
    assert buf[write := s[read]][read + 1..] == buf[read + 1..];
  }

  /** The two digits after a `%` in a buffer whose escapes are well formed. */
  lemma RewriteTripletDigits(s: seq<Byte>, buf: seq<Byte>, read: nat, write: nat, out: seq<Byte>)
    requires Rewriting(s, buf, read, write, out) && read < |s| && s[read] == PERCENT
    requires PercentEncodingsWellFormed(s)
    ensures read + 2 < |s| && IsHexDigit(s[read + 1]) && IsHexDigit(s[read + 2])
    ensures buf[read] == s[read] && buf[read + 1] == s[read + 1] && buf[read + 2] == s[read + 2]
  {
    assert EscapeWellFormedAt(s, read);
    assert buf[read..][..3] == s[read..][..3];
  }

  /** Replacing a triplet that names an unreserved octet by that octet. */
  lemma RewriteUnreserved(s: seq<Byte>, buf: seq<Byte>, read: nat, write: nat, out: seq<Byte>)
    requires Rewriting(s, buf, read, write, out) && read + 2 < |s|
    requires s[read] == PERCENT && IsHexDigit(s[read + 1]) && IsHexDigit(s[read + 2])
    requires IsUnreserved(HexPairValue(s[read + 1], s[read + 2]))
    ensures var v := HexPairValue(s[read + 1], s[read + 2]);
      Rewriting(s, buf[write := v], read + 3, write + 1, out + [v])
  {
    var v := HexPairValue(s[read + 1], s[read + 2]);
    assert DecodeUnit(s[read..]) == (v, 3);
    NormalizedSuffix(s, read, v, 3);
    assert (out + [v]) + Normalized(s[read + 3..]) == out + ([v] + Normalized(s[read + 3..]));
    assert buf[write := v][..write + 1] == out + [v];
    assert buf[write := v][read + 3..] == buf[read + 3..];
  }

  /** Keeping any other triplet, its hex digits upper-cased. */
  lemma RewriteReserved(s: seq<Byte>, buf: seq<Byte>, read: nat, write: nat, out: seq<Byte>)
    requires Rewriting(s, buf, read, write, out) && read + 2 < |s|
    requires s[read] == PERCENT && IsHexDigit(s[read + 1]) && IsHexDigit(s[read + 2])
    requires !IsUnreserved(HexPairValue(s[read + 1], s[read + 2]))
    ensures var piece := [PERCENT, ToAsciiUppercase(s[read + 1]), ToAsciiUppercase(s[read + 2])];
      write + 2 < |buf| &&
      Rewriting(s, buf[write := piece[0]][write + 1 := piece[1]][write + 2 := piece[2]], read + 3, write + 3, out + piece)
  {
    var piece := [PERCENT, ToAsciiUppercase(s[read + 1]), ToAsciiUppercase(s[read + 2])];
    var v := HexPairValue(s[read + 1], s[read + 2]);
    assert DecodeUnit(s[read..]) == (v, 3);
    NormalizedSuffix(s, read, v, 3);
    assert NormalizedUnit(s[read..], v, 3) == piece;
    assert (out + piece) + Normalized(s[read + 3..]) == out + (piece + Normalized(s[read + 3..]));
    var buf' := buf[write := piece[0]][write + 1 := piece[1]][write + 2 := piece[2]];
    assert buf'[..write + 3] == out + piece;
    assert buf'[read + 3..] == buf[read + 3..];
  }

  /**
   * Rewrites a buffer whose escapes are all well formed into its normalized
   * form in place; the new content is the first `len` bytes (the rest is
   * truncated).
   */
  method NormalizeBytes(bytes: array<Byte>) returns (len: nat)
    requires PercentEncodingsWellFormed(bytes[..])
    modifies bytes
    ensures len <= bytes.Length
    ensures bytes[..len] == Normalized(old(bytes[..]))
  {
    ghost var s := bytes[..];
    ghost var out: seq<Byte> := [];
    var read, write := 0, 0;
    while read < bytes.Length
      invariant Rewriting(s, bytes[..], read, write, out)
      decreases bytes.Length - read
    {
      ghost var buf := bytes[..];
      var byte := bytes[read];
      if byte == PERCENT {
        RewriteTripletDigits(s, buf, read, write, out);
        var first, second := bytes[read + 1], bytes[read + 2];
        var hexValue := GetPercentEncodedValue(Some(first), Some(second)).value.0;
        if IsUnreserved(hexValue) {
          RewriteUnreserved(s, buf, read, write, out);
          bytes[write] := hexValue;
          out := out + [hexValue];
          write := write + 1;
        } else {
          RewriteReserved(s, buf, read, write, out);
          bytes[write] := PERCENT;
          bytes[write + 1] := ToAsciiUppercase(first);
          bytes[write + 2] := ToAsciiUppercase(second);
          out := out + [PERCENT, ToAsciiUppercase(first), ToAsciiUppercase(second)];
          write := write + 3;
        }
        read := read + 3;
      } else {
        RewriteLiteral(s, buf, read, write, out);
        bytes[write] := byte;
        out := out + [byte];
        write := write + 1;
        read := read + 1;
      }
    }
    len := write;
  }
}
