# URI fragment component, modelled in Dafny

This project models the fragment component of the `uriparse` URI library
(file `src/fragment.rs`). A fragment follows RFC 3986, section 3.5:
`fragment = *( pchar / "/" / "?" )`. The library does four things with it.

- A 256-entry table, `FRAGMENT_CHAR_MAP`, classifies each byte. A legal byte maps to itself and any other byte to 0. `%` maps to itself and marks an escape.
- The constructor `TryFrom<&[u8]>` validates its input in one scan from the left.
  - A byte with a 0 entry fails with `InvalidCharacter`.
  - A `%` must be followed by two hex digits, or the scan fails with `InvalidPercentEncoding`.
  - A running `normalized` flag is cleared by an escape that uses a lower-case digit (RFC 3986, section 2.1) or that names an unreserved octet (section 2.3).
  - On success the input is stored verbatim, together with the flag.
- `normalize` rewrites the stored bytes in place into the canonical form of RFC 3986, section 6.2.2.2. It skips the rewrite when the flag is already set.
- Equality and the hash work on the decoded byte stream. Hex case inside an escape does not matter; the case of every other byte does.

The Dafny modules follow that structure.

- `Wrappers` (`wrappers.dfy`): `Option` and `Result`.
- `Utility` (`utility.dfy`): the percent-encoding helpers that `fragment.rs` imports.
  - It has the hex decoder, the unreserved set and the decoded stream `Decode`.
  - It has the equality and the hash over that stream.
  - It has the normal form `Normalized` and the in-place rewrite `NormalizeBytes`, a `while` loop over an `array`.
  - These helpers are specified from their call sites in `fragment.rs` and from RFC 3986.
- `Utf8` (`utf8.dfy`): the byte view of a `str`, which is its UTF-8 encoding (RFC 3629). It also shows that an ASCII byte string is the encoding of the text with one character per byte.
- `UriFragment` (`fragment.dfy`): the table, the error type, the scan, the constructors and the class `Fragment`.
  - The scan appears twice: as a function, `Scan`, and as a method with a loop, `CheckFragment`.
  - `Fragment` has the fields `fragment` and `normalized`.
  - Its methods are `Normalize`, `NormalizeAndMark` and `IntoOwned`.
  - Its functions are `AsStr`, `IsNormalized`, `Hash`, and the comparisons with the fragment on the left: `Equals`, `EqualsBytes` and `EqualsStr`.
  - The comparisons with the fragment on the right, `BytesEqualsFragment` and `StrEqualsFragment`, are functions at module level.
  - Two predicates describe the grammar and the canonical form position by position: `IsFragment` and `IsCanonical`. The lemmas prove the scan, the constructor and `Normalize` against them.
- `FragmentExamples` (`fragment_examples.dfy`): the behaviour the documentation gives for concrete strings, such as "fr%61gment", "%2f" and "frag ment".

Bytes are the subset type `Byte` of `int` (0 to 255). Text is `string`.

`try_from` computes `normalized` to mean "the stored bytes are canonical" (`src/fragment.rs:204-214`, `225-228`). `normalize` makes the bytes canonical but leaves the flag as it was (`src/fragment.rs:94-99`). `Fragment.Normalize` follows the code. The discrepancy is recorded under "## Findings", and `Fragment.NormalizeAndMark` is the corrected operation.

## Model

| member | source | states |
|---|---|---|
| UriFragment.FragmentCharRowEntry | src/fragment.rs:20-38 | each table entry is its own index for a fragment character and 0 otherwise |
| Utility.IsUnreserved | src/fragment.rs:212 | the unreserved set of RFC 3986, section 2.3 (ALPHA, DIGIT, `-`, `.`, `_`, `~`), which `UNRESERVED_CHAR_MAP` marks with nonzero entries |
| UriFragment.InvalidFragment | src/fragment.rs:242-248 | the two error kinds, `InvalidCharacter` and `InvalidPercentEncoding` |
| UriFragment.CharClass | src/fragment.rs:20-38 | a lookup returns 0 or the byte itself; it is nonzero exactly for unreserved, sub-delims, `:`, `@`, `/`, `?` and `%`; every nonzero entry is below 0x80 |
| UriFragment.Peek | src/fragment.rs:206 | the byte iterator yields the byte at a position, or nothing past the end |
| UriFragment.Scan | src/fragment.rs:203-221 | the scan as a function over the rest of the input; a flag that has been cleared is never set again |
| UriFragment.Validate | src/fragment.rs:202-221 | what `try_from` yields: success exactly on the grammar, with the flag true exactly when the input is canonical |
| UriFragment.ScanStep | src/fragment.rs:206-220 | one step of the scan: a 0 entry fails with `InvalidCharacter`; a `%` without two hex digits fails with `InvalidPercentEncoding`; a well-formed escape skips three bytes and keeps the flag only if the escape is canonical; any other byte skips one |
| UriFragment.ScanAccepts | src/fragment.rs:203-221 | the scan succeeds if and only if the input satisfies the fragment grammar position by position |
| UriFragment.ScanFirstError | src/fragment.rs:206-216 | a rejected input gets the error of its first offending position from the left |
| UriFragment.ScanFlag | src/fragment.rs:204-214 | on a valid input the final flag is the initial flag and "every escape is canonical" |
| UriFragment.ValidateCharacterization | src/fragment.rs:202-229 | validation succeeds exactly on the grammar; the flag is true if and only if no escape uses a lower-case digit or names an unreserved octet; a failure reports the first offending position |
| UriFragment.CheckFragment | src/fragment.rs:203-221 | the loop with early returns and the iterator that advances three bytes per escape computes exactly `Validate` |
| UriFragment.FragmentIsAscii | src/fragment.rs:223-226 | every accepted input is ASCII, so reading it as UTF-8 text without checking is sound |
| UriFragment.FragmentEscapesWellFormed | src/fragment.rs:94-97 | every escape in a fragment is followed by two hex digits, which is what the in-place rewrite needs |
| UriFragment.NormalizedIsCanonical | src/fragment.rs:94-97 | normalizing a fragment gives a canonical fragment |
| UriFragment.NormalizedOfCanonical | src/fragment.rs:94-95 | the rewrite leaves a fragment that is already canonical unchanged |
| UriFragment.NormalizedIdempotent | src/fragment.rs:94-97 | normalizing twice gives the same bytes as normalizing once |
| UriFragment.Fragment.constructor | src/fragment.rs:51-54 | a fragment holds exactly the given bytes and flag; only valid contents are accepted, as only `try_from` and `into_owned` build one, so every fragment satisfies `Valid` |
| UriFragment.Fragment.AsStr | src/fragment.rs:71-73 | `as_str` is text, one character per stored byte, whose UTF-8 encoding is exactly the stored bytes |
| UriFragment.Fragment.IsNormalized | src/fragment.rs:90-92 | when the answer is true, the stored bytes are canonical |
| UriFragment.Fragment.IntoOwned | src/fragment.rs:83-88 | the copy is a new object with the same bytes and the same flag |
| UriFragment.Fragment.Normalize | src/fragment.rs:94-99 | with the flag set, the bytes stay unchanged; otherwise they become their normal form; the flag never changes; afterwards the bytes are canonical and decode as before |
| UriFragment.Fragment.NormalizeAndMark | src/fragment.rs:94-99 | the same rewrite, and afterwards the flag is true and equal to what validating the new bytes reports |
| UriFragment.Fragment.Equals | src/fragment.rs:145-149 | two fragments are equal if and only if their decoded streams are equal |
| UriFragment.Fragment.EqualsBytes | src/fragment.rs:151-155 | fragment equals byte string if and only if the decoded streams are equal (also `&[u8]`, lines 163-167) |
| UriFragment.Fragment.EqualsStr | src/fragment.rs:175-179 | fragment equals text if and only if the decoded streams of the fragment and the text's UTF-8 bytes are equal (also `&str`, lines 187-191) |
| UriFragment.Fragment.Hash | src/fragment.rs:136-143 | the hash is the hasher fed the decoded stream, byte by byte |
| UriFragment.BytesEqualsFragment | src/fragment.rs:157-161 | byte string equals fragment if and only if the decoded streams are equal (also `&[u8]`, lines 169-173) |
| UriFragment.StrEqualsFragment | src/fragment.rs:181-185 | text equals fragment if and only if the decoded streams are equal (also `&str`, lines 193-197) |
| UriFragment.EqualityIsEquivalence | src/fragment.rs:128 | fragment equality is reflexive, symmetric and transitive, as `Eq` requires |
| UriFragment.HashAgreesWithEquality | src/fragment.rs:136-149 | equal fragments hash equally, whatever the hasher |
| UriFragment.MixedComparisonsAgree | src/fragment.rs:151-197 | the comparisons with byte strings and text agree in both directions, and agree with fragment equality on the same bytes |
| UriFragment.NormalizeLeavesFlagStale | src/fragment.rs:94-99 | for a fragment that is not canonical, construction gives a false flag, yet validating the normalized bytes gives true |
| UriFragment.TryFromBytes | src/fragment.rs:199-229 | the result is an error exactly when the input breaks the grammar, and it is the scan's error; on success a new fragment holds the input verbatim, with the flag true exactly when the input is canonical |
| UriFragment.TryFromStr | src/fragment.rs:232-238 | construction from text is construction from its UTF-8 bytes |
| Utility.ToAsciiUppercase | src/fragment.rs:97 | lower-case ASCII letters are folded to upper case; every other byte is unchanged |
| Utility.HexDigitToDecimal | src/fragment.rs:210 | a hex digit has a value below 16 and a flag saying whether it is in upper case; any other byte is an error |
| Utility.HexDigitValue | src/fragment.rs:210 | the value of a hex digit, spelled in upper case, is the digit folded to upper case, which pins the value of every digit |
| Utility.UppercaseHexDigit | src/fragment.rs:97 | the upper-case hex digit of a value below 16 decodes back to that value, flagged upper case |
| Utility.GetPercentEncodedValue | src/fragment.rs:210-216 | decoding succeeds if and only if both bytes exist and are hex digits; the flag says both are upper case; the upper-case encoding of the value is the two digits folded to upper case |
| Utility.PercentEncodeDecode | src/fragment.rs:210-214 | decoding the canonical escape of an octet gives that octet, flagged upper case |
| Utility.DecodeEncode | src/fragment.rs:210-214 | an escape is flagged upper case if and only if it is the canonical escape of the octet it names |
| Utility.DecodeUnit | src/fragment.rs:147 | a stream unit is a well-formed three-byte escape, which gives the octet it names, or else a single byte that stands for itself |
| Utility.PercentEncodedEquality | src/fragment.rs:147 | the lock-step comparison answers true if and only if the two decoded streams are equal |
| Utility.PercentEncodedHash | src/fragment.rs:141 | the hash feeds the hasher the decoded stream |
| Utility.PlainBytes | src/fragment.rs:43-49 | bytes without `%` decode to themselves and are their own normal form |
| Utility.NormalizedPreservesDecode | src/fragment.rs:94-97 | when every escape is well formed, normalization does not change the decoded stream, so a fragment equals its normalized copy |
| Utility.NormalizeBytes | src/fragment.rs:97 | the in-place single-pass rewrite leaves the normal form of the original bytes in a prefix of the buffer |
| Utf8.EncodeChar | src/fragment.rs:236 | a character encodes to 1 to 4 bytes; an ASCII character to its own code, any other only to bytes of 0x80 and above |
| Utf8.DecodeAscii | src/fragment.rs:223-226 | an ASCII byte string is the UTF-8 encoding of text of the same length |
| Utf8.EncodeIsAscii | src/fragment.rs:236 | the encoding of a text is ASCII if and only if every character is |
| FragmentExamples.LetterWord | src/fragment.rs:68-69 | a word of letters is accepted with a true flag |
| FragmentExamples.LetterWordDecodes | src/fragment.rs:43-45 | a word of letters decodes to itself |
| FragmentExamples.EscapedWordIsFragment | src/fragment.rs:43-49 | "fr%61gment" is a fragment but is not canonical |
| FragmentExamples.EscapedWordDecodes | src/fragment.rs:43-45 | "fr%61gment" decodes to, and normalizes to, "fragment" |
| FragmentExamples.EscapedWordExample | src/fragment.rs:43-49 | "fr%61gment" is accepted with a false flag and equals "fragment", which is accepted with a true flag |
| FragmentExamples.CaseSensitiveExample | src/fragment.rs:43 | "Fragment" does not equal "fragment" |
| FragmentExamples.InvalidExamples | src/fragment.rs:206-216 | "fr%6" and "fr%zzgment" fail with `InvalidPercentEncoding`; "frag ment" fails with `InvalidCharacter` |
| FragmentExamples.ReservedEscapeExample | src/fragment.rs:210-214 | "%2f" is accepted with a false flag and normalizes to "%2F", which is accepted with a true flag; both equal "/" |
| FragmentExamples.StaleFlagScenario | src/fragment.rs:94-99 | construct from "fr%61gment" and normalize: the bytes are the canonical "fragment", yet `is_normalized` answers false |

## Left out

- The borrowed or owned storage (`Cow`) and the lifetimes are not modelled. The content is one byte sequence, so `into_owned` copies the bytes and the flag.
- `str::from_utf8_unchecked` and `as_mut_vec` are not modelled, because they are unchecked conversions. `FragmentIsAscii` and `Utf8.DecodeAscii` take their place. `Normalize` copies the bytes into an array, rewrites it in place with `NormalizeBytes`, and keeps the rewritten prefix.
- `Display`, `Error::description`, `Deref`, both `AsRef` impls, `From<Fragment> for String`, `From<!>` and the derived `Clone` and `Debug` are not modelled. They are formatting and conversion glue with no logic.
- The generic `Hasher` is not modelled. The model takes a state and a `write` function for one byte, and the hash is a left fold of `write` over the decoded stream; no concrete hash algorithm is modelled.
- The `case_sensitive` argument of the equality and hash helpers is not modelled, because `fragment.rs` always passes `true`.
- The `PartialEq` impls for `&[u8]` and `&str` have no separate members. They forward to the same comparison as `[u8]` and `str`.
- `src/utility.rs` is not part of this model. Its helpers are written from their uses in `fragment.rs` and from RFC 3986, and need not match its code.
- The equality and hash helpers' handling of a malformed `%` is not known. It matters only when comparing with a byte string or a text, which may hold one (such as "%zz"). There, `Decode` lets such a `%` stand for itself.
- UriFragment.Fragment.IsNormalized: states only that a true answer means canonical bytes. The converse does not hold after `Normalize` (see "## Findings").

## Findings

| source | as written | input that shows it | evidently intended | confidence | as-written member | corrected member |
|---|---|---|---|---|---|---|
| src/fragment.rs:94-99 | `normalize` rewrites the bytes to canonical form but leaves `normalized` false | "fr%61gment": after `normalize` the bytes are "fragment", yet `is_normalized()` is false, and a later `normalize` repeats the rewrite | set `normalized` to true after the rewrite, so the flag matches the content | medium, not executed | UriFragment.NormalizeLeavesFlagStale | UriFragment.Fragment.NormalizeAndMark |
