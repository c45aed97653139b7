/**
 * The fragment component of a URI (RFC 3986, section 3.5):
 * fragment = *( pchar / "/" / "?" ). A fragment is validated once, kept
 * byte for byte, carries a flag saying whether it is already in canonical
 * form, can be normalized in place, and compares and hashes by its decoded
 * byte stream.
 */
module UriFragment {
  import opened Wrappers
  import opened Utility
  import Utf8

  /** sub-delims = "!" / "$" / "&" / "'" / "(" / ")" / "*" / "+" / "," / ";" / "=" */
  predicate IsSubDelim(b: Byte) {
    b == 0x21 || b == 0x24 || 0x26 <= b <= 0x2C || b == 0x3B || b == 0x3D
  }

  /**
   * A byte that may appear unescaped in a fragment: pchar (unreserved,
   * sub-delims, ":" and "@"), "/" and "?", with "%" admitted as the escape
   * marker.
   */
  predicate IsFragmentChar(b: Byte) {
    IsUnreserved(b) || IsSubDelim(b) || b == 0x3A || b == 0x40 || b == 0x2F || b == 0x3F || b == PERCENT
  }

  /** The character-class table, row by row: a legal byte maps to itself, any other to 0. */
  const FragmentCharRows: seq<seq<Byte>> := [
    [   0,    0,    0,    0,    0,    0,    0,    0,    0,    0,    0,    0,    0,    0,    0,    0],  // 0_
    [   0,    0,    0,    0,    0,    0,    0,    0,    0,    0,    0,    0,    0,    0,    0,    0],  // 1_
    [   0, 0x21,    0,    0, 0x24, 0x25, 0x26, 0x27, 0x28, 0x29, 0x2A, 0x2B, 0x2C, 0x2D, 0x2E, 0x2F],  // 2_
    [0x30, 0x31, 0x32, 0x33, 0x34, 0x35, 0x36, 0x37, 0x38, 0x39, 0x3A, 0x3B,    0, 0x3D,    0, 0x3F],  // 3_
    [0x40, 0x41, 0x42, 0x43, 0x44, 0x45, 0x46, 0x47, 0x48, 0x49, 0x4A, 0x4B, 0x4C, 0x4D, 0x4E, 0x4F],  // 4_
    [0x50, 0x51, 0x52, 0x53, 0x54, 0x55, 0x56, 0x57, 0x58, 0x59, 0x5A,    0,    0,    0,    0, 0x5F],  // 5_
    [   0, 0x61, 0x62, 0x63, 0x64, 0x65, 0x66, 0x67, 0x68, 0x69, 0x6A, 0x6B, 0x6C, 0x6D, 0x6E, 0x6F],  // 6_
    [0x70, 0x71, 0x72, 0x73, 0x74, 0x75, 0x76, 0x77, 0x78, 0x79, 0x7A,    0,    0,    0, 0x7E,    0],  // 7_
    [   0,    0,    0,    0,    0,    0,    0,    0,    0,    0,    0,    0,    0,    0,    0,    0],  // 8_
    [   0,    0,    0,    0,    0,    0,    0,    0,    0,    0,    0,    0,    0,    0,    0,    0],  // 9_
    [   0,    0,    0,    0,    0,    0,    0,    0,    0,    0,    0,    0,    0,    0,    0,    0],  // A_
    [   0,    0,    0,    0,    0,    0,    0,    0,    0,    0,    0,    0,    0,    0,    0,    0],  // B_
    [   0,    0,    0,    0,    0,    0,    0,    0,    0,    0,    0,    0,    0,    0,    0,    0],  // C_
    [   0,    0,    0,    0,    0,    0,    0,    0,    0,    0,    0,    0,    0,    0,    0,    0],  // D_
    [   0,    0,    0,    0,    0,    0,    0,    0,    0,    0,    0,    0,    0,    0,    0,    0],  // E_
    [   0,    0,    0,    0,    0,    0,    0,    0,    0,    0,    0,    0,    0,    0,    0,    0]   // F_
  ]

  lemma ControlAndPunctuationRows(r: nat, c: nat)
    requires r < 4 && c < 16
    ensures |FragmentCharRows| == 16 && |FragmentCharRows[r]| == 16
    ensures FragmentCharRows[r][c] == (if IsFragmentChar(16 * r + c) then 16 * r + c else 0)
  {
    if r == 0 {
    } else if r == 1 {
    } else if r == 2 {
    } else if r == 3 {
    }
  }

  lemma LetterRows(r: nat, c: nat)
    requires 4 <= r < 8 && c < 16
    ensures |FragmentCharRows| == 16 && |FragmentCharRows[r]| == 16
    ensures FragmentCharRows[r][c] == (if IsFragmentChar(16 * r + c) then 16 * r + c else 0)
  {
    if r == 4 {
    } else if r == 5 {
    } else if r == 6 {
    } else if r == 7 {
    }
  }

  lemma NonAsciiRows(r: nat, c: nat)
    requires 8 <= r < 16 && c < 16
    ensures |FragmentCharRows| == 16 && |FragmentCharRows[r]| == 16
    ensures FragmentCharRows[r][c] == (if IsFragmentChar(16 * r + c) then 16 * r + c else 0)
  {
    if r == 8 {
    } else if r == 9 {
    } else if r == 10 {
    } else if r == 11 {
    } else if r == 12 {
    } else if r == 13 {
    } else if r == 14 {
    } else if r == 15 {
    }
  }

  /** The table agrees with the fragment character class at every row and column. */
  lemma FragmentCharRowEntry(r: nat, c: nat)
    requires r < 16 && c < 16
    ensures |FragmentCharRows| == 16 && |FragmentCharRows[r]| == 16
    ensures FragmentCharRows[r][c] == (if IsFragmentChar(16 * r + c) then 16 * r + c else 0)
  {
    if r < 4 {
      ControlAndPunctuationRows(r, c);
    } else if r < 8 {
      LetterRows(r, c);
    } else {
      NonAsciiRows(r, c);
    }
  }

  /**
   * `FRAGMENT_CHAR_MAP[b]`: every entry is 0 or its own index, nonzero
   * exactly for the fragment characters, and those are all ASCII.
   */
  function CharClass(b: Byte): (entry: Byte)
    ensures entry == (if IsFragmentChar(b) then b else 0)
    ensures entry != 0 ==> b < 0x80
  {
    FragmentCharRowEntry(b / 16, b % 16);
    FragmentCharRows[b / 16][b % 16]
  }

  /** The two ways validation fails. */
  datatype InvalidFragment = InvalidCharacter | InvalidPercentEncoding

  /** The byte at `i`, or nothing past the end: what a byte iterator's `next` yields. */
  function Peek(s: seq<Byte>, i: nat): (b: Option<Byte>)
    ensures b.Some? <==> i < |s|
    ensures b.Some? ==> b.value == s[i]
  {
    if i < |s| then Some(s[i]) else None
  }

  /**
   * The validating scan from left to right, `normalized` being the flag so
   * far: a byte with a 0 table entry fails with `InvalidCharacter`; a `%`
   * takes the next two bytes through the hex decoder, fails with
   * `InvalidPercentEncoding` if that fails, and clears the flag when the
   * digits are not both upper case or name an unreserved octet; any other
   * byte is skipped. A cleared flag is never set again.
   */
  function Scan(s: seq<Byte>, normalized: bool): (r: Result<bool, InvalidFragment>)
    ensures r.Ok? && r.value ==> normalized
  {
    if |s| == 0 then Ok(normalized)
    else
      var entry := CharClass(s[0]);
      if entry == 0 then Err(InvalidCharacter)
      else if entry == PERCENT then
        var decoded := GetPercentEncodedValue(Peek(s, 1), Peek(s, 2));
        if decoded.Err? then Err(InvalidPercentEncoding)
        else
          var hexValue, uppercase := decoded.value.0, decoded.value.1;
          Scan(s[3..], if !uppercase || IsUnreserved(hexValue) then false else normalized)
      else Scan(s[1..], normalized)
  }

  /**
   * What constructing a fragment from `s` yields: its flag, or the error.
   * It succeeds exactly on the grammar, and the flag says "canonical".
   */
  function Validate(s: seq<Byte>): (r: Result<bool, InvalidFragment>)
    ensures r.Ok? <==> IsFragment(s)
    ensures r.Ok? ==> r.value == IsCanonical(s)
  {
    ScanAccepts(s, true);
    if IsFragment(s) then
      ScanFlag(s, true);
      Scan(s, true)
    else
      Scan(s, true)
  }

  /** Position `i` makes `s` invalid: an illegal byte, or a `%` without two hex digits after it. */
  predicate OffendingAt(s: seq<Byte>, i: nat)
    requires i < |s|
  {
    CharClass(s[i]) == 0 || !EscapeWellFormedAt(s, i)
  }

  /** The error an offending position causes. */
  function ErrorAt(s: seq<Byte>, i: nat): InvalidFragment
    requires i < |s|
  {
    if CharClass(s[i]) == 0 then InvalidCharacter else InvalidPercentEncoding
  }

  /** The fragment grammar, position by position. */
  predicate IsFragment(s: seq<Byte>) {
    forall i | 0 <= i < |s| :: !OffendingAt(s, i)
  }

  /** A `%` at `i` is spelled canonically: upper-case digits naming an octet that must stay escaped. */
  predicate CanonicalEscapeAt(s: seq<Byte>, i: nat)
    requires i < |s|
  {
    s[i] == PERCENT ==>
      i + 2 < |s| && IsUppercaseHexDigit(s[i + 1]) && IsUppercaseHexDigit(s[i + 2])
      && !IsUnreserved(HexPairValue(s[i + 1], s[i + 2]))
  }

  /** No escape in `s` uses a lower-case digit or names an unreserved octet. */
  predicate IsCanonical(s: seq<Byte>) {
    forall i | 0 <= i < |s| :: CanonicalEscapeAt(s, i)
  }

  lemma Shift(s: seq<Byte>, k: nat, i: nat)
    requires k <= i < |s|
    ensures OffendingAt(s[k..], i - k) == OffendingAt(s, i)
    ensures ErrorAt(s[k..], i - k) == ErrorAt(s, i)
    ensures CanonicalEscapeAt(s[k..], i - k) == CanonicalEscapeAt(s, i)
  {
  }

  /** Past a valid prefix, `s` is a fragment exactly when the rest is. */
  lemma FragmentSplit(s: seq<Byte>, k: nat)
    requires k <= |s| && forall j | 0 <= j < k :: !OffendingAt(s, j)
    ensures IsFragment(s) <==> IsFragment(s[k..])
  {
    if IsFragment(s[k..]) {
      forall i | k <= i < |s| ensures !OffendingAt(s, i) {
        Shift(s, k, i);
      }
    }
    if IsFragment(s) {
      forall i | 0 <= i < |s| - k ensures !OffendingAt(s[k..], i) {
        Shift(s, k, k + i);
      }
    }
  }

  /** Past a canonical prefix, `s` is canonical exactly when the rest is. */
  lemma CanonicalSplit(s: seq<Byte>, k: nat)
    requires k <= |s| && forall j | 0 <= j < k :: CanonicalEscapeAt(s, j)
    ensures IsCanonical(s) <==> IsCanonical(s[k..])
  {
    if IsCanonical(s[k..]) {
      forall i | k <= i < |s| ensures CanonicalEscapeAt(s, i) {
        Shift(s, k, i);
      }
    }
    if IsCanonical(s) {
      forall i | 0 <= i < |s| - k ensures CanonicalEscapeAt(s[k..], i) {
        Shift(s, k, k + i);
      }
    }
  }

  /** One step of the scan, stated with the grammar's own terms. */
  lemma ScanStep(s: seq<Byte>, normalized: bool)
    requires |s| > 0
    ensures CharClass(s[0]) == 0 ==> Scan(s, normalized) == Err(InvalidCharacter)
    ensures s[0] == PERCENT && !EscapeWellFormedAt(s, 0) ==> Scan(s, normalized) == Err(InvalidPercentEncoding)
    ensures s[0] == PERCENT && EscapeWellFormedAt(s, 0) ==>
      Scan(s, normalized) == Scan(s[3..], normalized && CanonicalEscapeAt(s, 0))
    ensures CharClass(s[0]) != 0 && s[0] != PERCENT ==> Scan(s, normalized) == Scan(s[1..], normalized)
  {
    if s[0] == PERCENT && EscapeWellFormedAt(s, 0) {
      assert Peek(s, 1) == Some(s[1]) && Peek(s, 2) == Some(s[2]);
    }
  }

  /** The two hex digits that follow a well-formed `%` are themselves harmless positions. */
  lemma EscapeDigits(s: seq<Byte>)
    requires |s| > 0 && s[0] == PERCENT && EscapeWellFormedAt(s, 0)
    ensures |s| >= 3
    ensures forall j | 0 <= j < 3 :: !OffendingAt(s, j)
    ensures CanonicalEscapeAt(s, 1) && CanonicalEscapeAt(s, 2)
  {
    assert !OffendingAt(s, 0) && !OffendingAt(s, 1) && !OffendingAt(s, 2);
  }

  /** The scan succeeds exactly on the inputs that satisfy the grammar. */
  lemma {:induction false} ScanAccepts(s: seq<Byte>, normalized: bool)
    ensures Scan(s, normalized).Ok? <==> IsFragment(s)
    decreases |s|
  {
    if |s| > 0 {
      ScanStep(s, normalized);
      if OffendingAt(s, 0) {
        assert Scan(s, normalized).Err?;
        assert !IsFragment(s);
      } else if s[0] == PERCENT {
        EscapeDigits(s);
        ScanAccepts(s[3..], normalized && CanonicalEscapeAt(s, 0));
        FragmentSplit(s, 3);
      } else {
        ScanAccepts(s[1..], normalized);
        FragmentSplit(s, 1);
      }
    }
  }

  /** A rejected input fails with the error of its first offending position. */
  lemma {:induction false} ScanFirstError(s: seq<Byte>, normalized: bool, i: nat)
    requires i < |s| && OffendingAt(s, i)
    requires forall j | 0 <= j < i :: !OffendingAt(s, j)
    ensures Scan(s, normalized) == Err(ErrorAt(s, i))
    decreases i
  {
    ScanStep(s, normalized);
    if i > 0 {
      assert !OffendingAt(s, 0);
      var w := if s[0] == PERCENT then 3 else 1;
      if s[0] == PERCENT {
        EscapeDigits(s);
      }
      forall j | 0 <= j < i - w ensures !OffendingAt(s[w..], j) {
        Shift(s, w, w + j);
      }
      Shift(s, w, i);
      ScanFirstError(s[w..], normalized && CanonicalEscapeAt(s, 0), i - w);
    }
  }

  /** On a valid input the flag ends up true exactly when it started true and the input is canonical. */
  lemma {:induction false} ScanFlag(s: seq<Byte>, normalized: bool)
    requires IsFragment(s)
    ensures Scan(s, normalized) == Ok(normalized && IsCanonical(s))
    decreases |s|
  {
    if |s| > 0 {
      ScanStep(s, normalized);
      assert !OffendingAt(s, 0);
      var w := if s[0] == PERCENT then 3 else 1;
      if s[0] == PERCENT {
        EscapeDigits(s);
      }
      FragmentSplit(s, w);
      ScanFlag(s[w..], normalized && CanonicalEscapeAt(s, 0));
      if CanonicalEscapeAt(s, 0) {
        CanonicalSplit(s, w);
      }
    }
  }

  /**
   * Validation, characterized without the scan: it succeeds exactly on the
   * grammar, the flag is "canonical", and a failure reports the first
   * offending position from the left.
   */
  lemma ValidateCharacterization(s: seq<Byte>)
    ensures Validate(s).Ok? <==> IsFragment(s)
    ensures IsFragment(s) ==> Validate(s) == Ok(IsCanonical(s))
    ensures forall i | 0 <= i < |s| && OffendingAt(s, i) && (forall j | 0 <= j < i :: !OffendingAt(s, j)) ::
      Validate(s) == Err(ErrorAt(s, i))
  {
    ScanAccepts(s, true);
    if IsFragment(s) {
      ScanFlag(s, true);
    }
    forall i | 0 <= i < |s| && OffendingAt(s, i) && (forall j | 0 <= j < i :: !OffendingAt(s, j))
      ensures Validate(s) == Err(ErrorAt(s, i))
    {
      ScanFirstError(s, true, i);
    }
  }

  /** Every accepted input is ASCII, hence valid UTF-8 text. */
  lemma FragmentIsAscii(s: seq<Byte>)
    requires IsFragment(s)
    ensures Utf8.IsAscii(s)
  {
    forall i | 0 <= i < |s| ensures s[i] < 0x80 {
      assert !OffendingAt(s, i);
    }
  }

  /** A fragment's escapes are all well formed. */
  lemma FragmentEscapesWellFormed(s: seq<Byte>)
    requires IsFragment(s)
    ensures PercentEncodingsWellFormed(s)
  {
    forall i | 0 <= i < |s| ensures EscapeWellFormedAt(s, i) {
      assert !OffendingAt(s, i);
    }
  }

  /** Two fragments side by side form a fragment; canonical ones form a canonical one. */
  lemma FragmentConcat(a: seq<Byte>, b: seq<Byte>)
    requires IsFragment(a) && IsFragment(b)
    ensures IsFragment(a + b)
    ensures IsCanonical(a) && IsCanonical(b) ==> IsCanonical(a + b)
  {
    var ab := a + b;
    assert ab[|a|..] == b;
    forall i | 0 <= i < |ab|
      ensures !OffendingAt(ab, i)
      ensures IsCanonical(a) && IsCanonical(b) ==> CanonicalEscapeAt(ab, i)
    {
      if i < |a| {
        assert !OffendingAt(a, i);
        if IsCanonical(a) {
          assert CanonicalEscapeAt(a, i);
        }
      } else {
        Shift(ab, |a|, i);
        assert !OffendingAt(b, i - |a|);
        if IsCanonical(b) {
          assert CanonicalEscapeAt(b, i - |a|);
        }
      }
    }
  }

  /** A valid fragment's units: the unit at the front and the fragment that follows it. */
  lemma FragmentUnit(s: seq<Byte>)
    requires IsFragment(s) && |s| > 0
    ensures var (v, w) := DecodeUnit(s);
      (w == 1 <==> s[0] != PERCENT) && IsFragment(s[w..])
      && (w == 1 ==> CharClass(s[0]) == s[0] && IsFragmentChar(s[0]))
  {
    var (v, w) := DecodeUnit(s);
    assert !OffendingAt(s, 0);
    if s[0] == PERCENT {
      assert !OffendingAt(s, 1) && !OffendingAt(s, 2);
    }
    FragmentSplit(s, w);
  }

  /** The canonical escape of an octet that must stay escaped is a canonical fragment. */
  lemma CanonicalTriplet(v: Byte)
    requires !IsUnreserved(v)
    ensures var triplet := [PERCENT, PercentEncode(v).0, PercentEncode(v).1];
      IsFragment(triplet) && IsCanonical(triplet)
  {
    var triplet := [PERCENT, PercentEncode(v).0, PercentEncode(v).1];
    PercentEncodeDecode(v);
    assert !OffendingAt(triplet, 0) && !OffendingAt(triplet, 1) && !OffendingAt(triplet, 2);
    assert CanonicalEscapeAt(triplet, 0) && CanonicalEscapeAt(triplet, 1) && CanonicalEscapeAt(triplet, 2);
  }

  /** The canonical spelling of one unit of a fragment is a canonical fragment. */
  lemma NormalizedUnitIsCanonical(s: seq<Byte>)
    requires IsFragment(s) && |s| > 0
    ensures var (v, w) := DecodeUnit(s);
      IsFragment(NormalizedUnit(s, v, w)) && IsCanonical(NormalizedUnit(s, v, w))
  {
    var (v, w) := DecodeUnit(s);
    FragmentUnit(s);
    var piece := NormalizedUnit(s, v, w);
    if w == 1 {
      assert !OffendingAt(piece, 0) && CanonicalEscapeAt(piece, 0);
    } else if IsUnreserved(v) {
      assert !OffendingAt(piece, 0) && CanonicalEscapeAt(piece, 0);
    } else {
      assert piece == [PERCENT, PercentEncode(v).0, PercentEncode(v).1];
      CanonicalTriplet(v);
    }
  }

  /** Normalizing a fragment gives a canonical fragment. */
  lemma {:induction false} NormalizedIsCanonical(s: seq<Byte>)
    requires IsFragment(s)
    ensures IsFragment(Normalized(s)) && IsCanonical(Normalized(s))
    decreases |s|
  {
    if |s| > 0 {
      var (v, w) := DecodeUnit(s);
      FragmentUnit(s);
      NormalizedIsCanonical(s[w..]);
      NormalizedUnitIsCanonical(s);
      FragmentConcat(NormalizedUnit(s, v, w), Normalized(s[w..]));
    }
  }

  /** A fragment that is already canonical is left as it is. */
  lemma {:induction false} NormalizedOfCanonical(s: seq<Byte>)
    requires IsFragment(s) && IsCanonical(s)
    ensures Normalized(s) == s
    decreases |s|
  {
    if |s| > 0 {
      var (v, w) := DecodeUnit(s);
      FragmentUnit(s);
      assert CanonicalEscapeAt(s, 0);
      if w == 3 {
        assert CanonicalEscapeAt(s, 1) && CanonicalEscapeAt(s, 2);
      }
      CanonicalSplit(s, w);
      NormalizedOfCanonical(s[w..]);
      assert NormalizedUnit(s, v, w) == s[..w];
      assert s == s[..w] + s[w..];
    }
  }

  /** Normalization is idempotent. */
  lemma NormalizedIdempotent(s: seq<Byte>)
    requires IsFragment(s)
    ensures Normalized(Normalized(s)) == Normalized(s)
  {
    NormalizedIsCanonical(s);
    NormalizedOfCanonical(Normalized(s));
  }

  /**
   * The validating loop of the constructor: a single scan from the left that
   * steps over three bytes for every escape, keeps the running flag and
   * returns at the first error.
   */
  method CheckFragment(value: seq<Byte>) returns (r: Result<bool, InvalidFragment>)
    ensures r == Validate(value)
  {
    var i := 0;
    var normalized := true;
    while i < |value|
      invariant 0 <= i <= |value|
      invariant Scan(value[i..], normalized) == Validate(value)
      decreases |value| - i
    {
      ghost var rest := value[i..];
      var byte := value[i];
      i := i + 1;
      var entry := CharClass(byte);
      if entry == 0 {
        return Err(InvalidCharacter);
      } else if entry == PERCENT {
        var first := Peek(value, i);
        if first.Some? {
          i := i + 1;
        }
        var second := Peek(value, i);
        if second.Some? {
          i := i + 1;
        }
        assert first == Peek(rest, 1) && second == Peek(rest, 2);
        match GetPercentEncodedValue(first, second) {
          case Ok((hexValue, uppercase)) =>
            if !uppercase || IsUnreserved(hexValue) {
              normalized := false;
            }
            assert rest[3..] == value[i..];
          case Err(_) =>
            return Err(InvalidPercentEncoding);
        }
      } else {
        assert rest[1..] == value[i..];
      }
    }
    return Ok(normalized);
  }

  /**
   * A validated fragment: its bytes, kept verbatim, and the flag computed
   * when it was constructed.
   */
  class Fragment {
    var fragment: seq<Byte>
    var normalized: bool

    /** The bytes satisfy the grammar, and a set flag means they are canonical. */
    ghost predicate Valid()
      reads this
    {
      IsFragment(fragment) && (normalized ==> IsCanonical(fragment))
    }

    constructor (fragment: seq<Byte>, normalized: bool)
      requires IsFragment(fragment) && (normalized ==> IsCanonical(fragment))
      ensures Valid()
      ensures this.fragment == fragment && this.normalized == normalized
    {
      this.fragment := fragment;
      this.normalized := normalized;
    }

    /** `as_str`: the stored bytes read as text, one ASCII character per byte. */
    function AsStr(): (str: string)
      reads this
      requires Valid()
      ensures |str| == |fragment| && Utf8.Encode(str) == fragment
    {
      FragmentIsAscii(fragment);
      Utf8.DecodeAscii(fragment)
    }

    /** `is_normalized`: when it answers true the stored bytes are canonical. */
    function IsNormalized(): (b: bool)
      reads this
      requires Valid()
      ensures b ==> IsCanonical(fragment)
    {
      normalized
    }

    /** `into_owned`: an independent copy with the same bytes and flag. */
    method IntoOwned() returns (owned: Fragment)
      requires Valid()
      ensures fresh(owned) && owned.Valid()
      ensures owned.fragment == fragment && owned.normalized == normalized
    {
      owned := new Fragment(fragment, normalized);
    }

    /**
     * `normalize`: unless the flag is already set, rewrites the bytes to
     * canonical form. The flag itself is left as it was.
     */
    method Normalize()
      requires Valid()
      modifies this
      ensures Valid()
      ensures normalized == old(normalized)
      ensures fragment == if old(normalized) then old(fragment) else Normalized(old(fragment))
      ensures IsCanonical(fragment)
      ensures Decode(fragment) == Decode(old(fragment))
    {
      if !normalized {
        FragmentEscapesWellFormed(fragment);
        var bytes := new Byte[|fragment|](i reads this requires 0 <= i < |fragment| => fragment[i]);
        assert bytes[..] == fragment;
        var len := NormalizeBytes(bytes);
        NormalizedIsCanonical(fragment);
        NormalizedPreservesDecode(fragment);
        fragment := bytes[..len];
      } else {
        NormalizedOfCanonical(fragment);
      }
    }

    /**
     * `normalize` as it is evidently meant: the same rewrite, after which
     * the flag is set, so that it again says exactly what a fresh
     * construction from the new bytes would say.
     */
    method NormalizeAndMark()
      requires Valid()
      modifies this
      ensures Valid() && normalized
      ensures fragment == if old(normalized) then old(fragment) else Normalized(old(fragment))
      ensures Decode(fragment) == Decode(old(fragment))
      ensures Validate(fragment) == Ok(normalized)
    {
      Normalize();
      normalized := true;
      ValidateCharacterization(fragment);
    }

    /** Fragment equality: the decoded streams agree. */
    function Equals(other: Fragment): (eq: bool)
      reads this, other
      ensures eq <==> Decode(fragment) == Decode(other.fragment)
    {
      PercentEncodedEquality(fragment, other.fragment)
    }

    /** Equality with a byte string, fragment on the left. */
    function EqualsBytes(other: seq<Byte>): (eq: bool)
      reads this
      ensures eq <==> Decode(fragment) == Decode(other)
    {
      PercentEncodedEquality(fragment, other)
    }

    /** Equality with text, fragment on the left: the text is compared by its UTF-8 bytes. */
    function EqualsStr(other: string): (eq: bool)
      reads this
      ensures eq <==> Decode(fragment) == Decode(Utf8.Encode(other))
    {
      PercentEncodedEquality(fragment, Utf8.Encode(other))
    }

    /** The hash: the hasher fed the decoded stream. */
    function Hash<H>(state: H, write: (H, Byte) -> H): (h: H)
      reads this
      ensures h == FeedBytes(Decode(fragment), state, write)
    {
      PercentEncodedHash(fragment, state, write)
    }
  }

  /** Equality with a byte string, fragment on the right. */
  function BytesEqualsFragment(bytes: seq<Byte>, f: Fragment): (eq: bool)
    reads f
    ensures eq <==> Decode(bytes) == Decode(f.fragment)
  {
    PercentEncodedEquality(bytes, f.fragment)
  }

  /** Equality with text, fragment on the right. */
  function StrEqualsFragment(str: string, f: Fragment): (eq: bool)
    reads f
    ensures eq <==> Decode(Utf8.Encode(str)) == Decode(f.fragment)
  {
    PercentEncodedEquality(Utf8.Encode(str), f.fragment)
  }

  /** Fragment equality is an equivalence relation. */
  lemma EqualityIsEquivalence(f: Fragment, g: Fragment, h: Fragment)
    ensures f.Equals(f)
    ensures f.Equals(g) == g.Equals(f)
    ensures f.Equals(g) && g.Equals(h) ==> f.Equals(h)
  {
  }

  /** Equal fragments hash equally, whatever the hasher. */
  lemma HashAgreesWithEquality<H>(f: Fragment, g: Fragment, state: H, write: (H, Byte) -> H)
    requires f.Equals(g)
    ensures f.Hash(state, write) == g.Hash(state, write)
  {
  }

  /**
   * The comparisons with byte strings and text, in either direction, agree
   * with fragment equality on the same bytes.
   */
  lemma MixedComparisonsAgree(f: Fragment, g: Fragment, bytes: seq<Byte>, str: string)
    ensures BytesEqualsFragment(bytes, f) == f.EqualsBytes(bytes)
    ensures StrEqualsFragment(str, f) == f.EqualsStr(str)
    ensures f.EqualsStr(str) == f.EqualsBytes(Utf8.Encode(str))
    ensures f.EqualsBytes(g.fragment) == f.Equals(g)
  {
  }

  /**
   * `normalize` leaves the flag stale: a fragment constructed from bytes
   * that are not canonical carries a false flag, `normalize` keeps it, yet
   * constructing a fragment from the rewritten bytes gives a true one.
   */
  lemma NormalizeLeavesFlagStale(s: seq<Byte>)
    requires IsFragment(s) && !IsCanonical(s)
    ensures Validate(s) == Ok(false)
    ensures Validate(Normalized(s)) == Ok(true)
  {
    ValidateCharacterization(s);
    NormalizedIsCanonical(s);
    ValidateCharacterization(Normalized(s));
  }

  /**
   * `TryFrom<&[u8]>`: scans the input and, on success, keeps it verbatim with
   * the flag the scan computed.
   */
  method TryFromBytes(value: seq<Byte>) returns (r: Result<Fragment, InvalidFragment>)
    ensures r.Err? <==> !IsFragment(value)
    ensures r.Err? ==> Validate(value) == Err(r.error)
    ensures r.Ok? ==> fresh(r.value) && r.value.Valid()
    ensures r.Ok? ==> r.value.fragment == value && r.value.normalized == IsCanonical(value)
  {
    ValidateCharacterization(value);
    var scanned := CheckFragment(value);
    match scanned {
      case Ok(normalized) =>
        var f := new Fragment(value, normalized);
        r := Ok(f);
      case Err(e) =>
        r := Err(e);
    }
  }

  /** `TryFrom<&str>`: construction from the text's UTF-8 bytes. */
  method TryFromStr(value: string) returns (r: Result<Fragment, InvalidFragment>)
    ensures r.Err? <==> !IsFragment(Utf8.Encode(value))
    ensures r.Err? ==> Validate(Utf8.Encode(value)) == Err(r.error)
    ensures r.Ok? ==> fresh(r.value) && r.value.Valid()
    ensures r.Ok? ==> r.value.fragment == Utf8.Encode(value) && r.value.normalized == IsCanonical(Utf8.Encode(value))
  {
    r := TryFromBytes(Utf8.Encode(value));
  }
}
