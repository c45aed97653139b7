/**
 * The behaviour the fragment's documentation describes, on the concrete
 * byte strings it mentions.
 */
module FragmentExamples {
  import opened Wrappers
  import opened Utility
  import opened UriFragment

  /** "fragment" */
  const FragmentWord: seq<Byte> := [0x66, 0x72, 0x61, 0x67, 0x6D, 0x65, 0x6E, 0x74]
  /** "fr%61gment" */
  const EscapedWord: seq<Byte> := [0x66, 0x72, 0x25, 0x36, 0x31, 0x67, 0x6D, 0x65, 0x6E, 0x74]
  /** "Fragment" */
  const CapitalWord: seq<Byte> := [0x46, 0x72, 0x61, 0x67, 0x6D, 0x65, 0x6E, 0x74]
  /** "fr%6" */
  const TruncatedEscape: seq<Byte> := [0x66, 0x72, 0x25, 0x36]
  /** "fr%zzgment" */
  const BadEscape: seq<Byte> := [0x66, 0x72, 0x25, 0x7A, 0x7A, 0x67, 0x6D, 0x65, 0x6E, 0x74]
  /** "frag ment" */
  const SpacedWord: seq<Byte> := [0x66, 0x72, 0x61, 0x67, 0x20, 0x6D, 0x65, 0x6E, 0x74]
  /** "%2f" */
  const LowerSlash: seq<Byte> := [0x25, 0x32, 0x66]
  /** "%2F" */
  const UpperSlash: seq<Byte> := [0x25, 0x32, 0x46]
  /** "/" */
  const Slash: seq<Byte> := [0x2F]

  /** A word of letters is accepted, with a true flag. */
  lemma LetterWord(s: seq<Byte>)
    requires forall i | 0 <= i < |s| :: IsAsciiUpper(s[i]) || IsAsciiLower(s[i])
    ensures IsFragment(s) && IsCanonical(s) && Validate(s) == Ok(true)
  {
    LetterWordIsCanonical(s);
    ValidateCharacterization(s);
  }

  lemma LetterWordIsCanonical(s: seq<Byte>)
    requires forall i | 0 <= i < |s| :: IsAsciiUpper(s[i]) || IsAsciiLower(s[i])
    ensures IsFragment(s) && IsCanonical(s)
  {
    forall i | 0 <= i < |s| ensures !OffendingAt(s, i) && CanonicalEscapeAt(s, i) {
      LetterAt(s, i);
    }
  }

  /** A word of letters decodes to itself and is its own normal form. */
  lemma LetterWordDecodes(s: seq<Byte>)
    requires forall i | 0 <= i < |s| :: IsAsciiUpper(s[i]) || IsAsciiLower(s[i])
    ensures Decode(s) == s && Normalized(s) == s
  {
    assert forall i | 0 <= i < |s| :: s[i] != PERCENT;
    PlainBytes(s);
  }

  lemma LetterAt(s: seq<Byte>, i: nat)
    requires i < |s| && (IsAsciiUpper(s[i]) || IsAsciiLower(s[i]))
    ensures !OffendingAt(s, i) && CanonicalEscapeAt(s, i) && s[i] != PERCENT
  {
    assert IsUnreserved(s[i]);
  }

  lemma FragmentWordIsLetters()
    ensures forall i | 0 <= i < |FragmentWord| :: IsAsciiLower(FragmentWord[i])
  {
    forall i | 0 <= i < |FragmentWord| ensures IsAsciiLower(FragmentWord[i]) {
      assert i in {0, 1, 2, 3, 4, 5, 6, 7};
    }
  }

  /** "fr%61gment" is a fragment, but not canonical: its escape names the unreserved "a". */
  lemma EscapedWordIsFragment()
    ensures IsFragment(EscapedWord) && !IsCanonical(EscapedWord)
  {
    var s := EscapedWord;
    forall i | 0 <= i < |s| ensures !OffendingAt(s, i) {
      assert i in {0, 1, 2, 3, 4, 5, 6, 7, 8, 9};
    }
    assert HexPairValue(0x36, 0x31) == 0x61;
    assert !CanonicalEscapeAt(s, 2);
  }

  /** "fr%61gment" decodes to "fragment", and normalizes to it. */
  lemma EscapedWordDecodes()
    ensures Decode(EscapedWord) == FragmentWord
    ensures Normalized(EscapedWord) == FragmentWord
  {
    var s, t := EscapedWord, FragmentWord;
    FragmentWordIsLetters();
    LetterWordDecodes(t[3..]);
    assert HexPairValue(0x36, 0x31) == 0x61;
    assert s[2..][3..] == s[5..] == t[3..];
    assert DecodeUnit(s[2..]) == (0x61, 3);
    assert Decode(s[2..]) == Normalized(s[2..]) == t[2..];
  }

  /**
   * "fr%61gment" is accepted with a false flag, equals "fragment", and
   * normalizes to it; "fragment" is accepted with a true flag.
   */
  lemma EscapedWordExample()
    ensures Validate(EscapedWord) == Ok(false)
    ensures Validate(FragmentWord) == Ok(true)
    ensures Decode(EscapedWord) == Decode(FragmentWord)
    ensures Normalized(EscapedWord) == FragmentWord
  {
    FragmentWordIsLetters();
    LetterWord(FragmentWord);
    LetterWordDecodes(FragmentWord);
    EscapedWordDecodes();
    EscapedWordIsFragment();
    ValidateCharacterization(EscapedWord);
  }

  /** Case outside escapes is significant: "Fragment" and "fragment" differ. */
  lemma CaseSensitiveExample()
    ensures Validate(CapitalWord) == Ok(true)
    ensures Decode(CapitalWord) != Decode(FragmentWord)
  {
    forall i | 0 <= i < |CapitalWord| ensures IsAsciiUpper(CapitalWord[i]) || IsAsciiLower(CapitalWord[i]) {
      assert i in {0, 1, 2, 3, 4, 5, 6, 7};
    }
    LetterWord(CapitalWord);
    LetterWordDecodes(CapitalWord);
    FragmentWordIsLetters();
    LetterWordDecodes(FragmentWord);
  }

  /** A cut-off escape, an escape without hex digits and a space are rejected. */
  lemma InvalidExamples()
    ensures Validate(TruncatedEscape) == Err(InvalidPercentEncoding)
    ensures Validate(BadEscape) == Err(InvalidPercentEncoding)
    ensures Validate(SpacedWord) == Err(InvalidCharacter)
  {
    assert !OffendingAt(TruncatedEscape, 0) && !OffendingAt(TruncatedEscape, 1) && OffendingAt(TruncatedEscape, 2);
    ScanFirstError(TruncatedEscape, true, 2);
    assert !OffendingAt(BadEscape, 0) && !OffendingAt(BadEscape, 1) && OffendingAt(BadEscape, 2);
    ScanFirstError(BadEscape, true, 2);
    assert CharClass(0x20) == 0;
    assert OffendingAt(SpacedWord, 4);
    forall j | 0 <= j < 4 ensures !OffendingAt(SpacedWord, j) {
      assert j in {0, 1, 2, 3};
    }
    ScanFirstError(SpacedWord, true, 4);
  }

  /**
   * An escape of a reserved octet with a lower-case digit: accepted with a
   * false flag, normalized by upper-casing the digit; the escape still
   * equals the literal "/".
   */
  lemma ReservedEscapeExample()
    ensures Validate(LowerSlash) == Ok(false)
    ensures Normalized(LowerSlash) == UpperSlash
    ensures Validate(UpperSlash) == Ok(true)
    ensures Decode(UpperSlash) == Decode(LowerSlash) == Decode(Slash)
  {
    assert HexPairValue(0x32, 0x66) == 0x2F && HexPairValue(0x32, 0x46) == 0x2F;
    assert LowerSlash[3..] == UpperSlash[3..] == Slash[1..] == [];
    assert DecodeUnit(LowerSlash) == (0x2F, 3) && DecodeUnit(UpperSlash) == (0x2F, 3);
    assert Normalized(LowerSlash) == UpperSlash;
    forall i | 0 <= i < 3 ensures !OffendingAt(LowerSlash, i) && !OffendingAt(UpperSlash, i) {
      assert i in {0, 1, 2};
    }
    assert !CanonicalEscapeAt(LowerSlash, 0);
    forall i | 0 <= i < 3 ensures CanonicalEscapeAt(UpperSlash, i) {
      assert i in {0, 1, 2};
    }
    ValidateCharacterization(LowerSlash);
    ValidateCharacterization(UpperSlash);
  }

  /**
   * The stale flag on the object itself: construct from "fr%61gment",
   * normalize, and the bytes are canonical "fragment" while
   * `is_normalized` still answers false.
   */
  method StaleFlagScenario() returns (f: Fragment, isNormalized: bool)
    ensures f.fragment == FragmentWord && IsCanonical(f.fragment)
    ensures !isNormalized
  {
    EscapedWordIsFragment();
    EscapedWordDecodes();
    NormalizedIsCanonical(EscapedWord);
    var r := TryFromBytes(EscapedWord);
    f := r.value;
    f.Normalize();
    isNormalized := f.IsNormalized();
  }
}
