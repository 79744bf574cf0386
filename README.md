# Prefix.Id in Dafny

A verified model of the two components of the Prefix.Id library:

- **Base32** (`src/Prefix.Id/Base32.cs`): the lowercase RFC 4648 section 6 alphabet
  `abcdefghijklmnopqrstuvwxyz234567`. `Encode` is a bit-accumulator loop over a C# `int`
  buffer, with optional `=` padding. `Decode` first cleans its input (trim, drop every
  `-`, strip trailing `=`, lower-case), then runs the mirror-image loop, 5 bits in and
  8 bits out. The static constructor derives `Mask` as `Digits.Length - 1` and `Shift` with
  `NumberOfTrailingZeros`.
- **PrefixId** (`src/Prefix.Id/PrefixId.cs`): an identifier made of a type's prefix and
  a GUID. Its text is `prefix + "_" + Base32.Encode(guid bytes)`, computed lazily and cached.
  `TryParse`/`Parse` read the text back, and equality compares hash codes.

Files:

| file | module | contents |
|---|---|---|
| `wrappers.dfy` | `Wrappers` | `Option` and `Result` |
| `csharp_int.dfy` | `CSharp` | a C# `int` as its 32-bit pattern (`Word`); `<<`, arithmetic `>>`, `\|`, `&`, the `(byte)` cast, 32-bit wrap-around and division rounding toward zero; lemmas on the low bits these operations preserve |
| `bit_stream.dfy` | `BitStream` | bytes as a most-significant-bit-first bit stream and back |
| `text.dfy` | `Text` | the .NET string operations used: `Char.IsWhiteSpace`, `Trim`, `Replace(c, "")`, the `[=]*$` regular expression, `ToLower`, `Split` |
| `base32.dfy` | `Base32` | the alphabet and static constructor, `NumberOfTrailingZeros` on `bv32`, and `Encode`/`Decode` as imperative methods proved against the functions `EncodeSpec`/`DecodeSpec` |
| `base32_properties.dfy` | `Base32Properties` | lengths, alphabet, 5-bit groups, padding, Decode's leniency, the round trip |
| `prefix_id.dfy` | `PrefixIds` | the class `PrefixId`, `CreatePrefixId`, `Create`, `TryParse`, `Parse`, and the lemmas about the pure parse function `TryParseGuid` |

How the model works:

- **The buffer register.** In `Encode` and `Decode` the buffer is a C# `int` whose `<<=`
  wraps. The model keeps the whole 32-bit pattern: `Shl` is multiplication modulo 2^32 and
  `Sar` is an arithmetic shift.
  - The loop invariant `Holds(buffer, pending)` says the low `bitsLeft` bits of the buffer
    spell the pending bits.
  - `ShiftIn`, `ShlLowBits` and `ExtractTop` show that every symbol index and every byte the
    loops extract is unaffected by the bits that have overflowed.
- **The reference functions.** `EncodeSpec` and `DecodeSpec` are stated on bit streams.
  - `EncodeSpec` reads the bytes most significant bit first, cuts the stream into groups of
    five, fills the last group with zero bits, and maps each group to a symbol of `Digits`.
  - `DecodeSpec` cleans the text first. It then reports the first character that is not a
    symbol, or concatenates the 5-bit groups of the symbols and keeps the whole bytes.
- **Identifiers.** A GUID is the 16 bytes of `ToByteArray()`. `new Guid(bytes)` is the
  identity on 16 bytes and fails on any other length.
  - The generic type `T` becomes a `Kind` value, which carries the name of the type (what
    `obj is PrefixId<T>` tests) and what `T.Prefix` returns (`None` for `null`).
  - `HashCode.Combine` becomes the parameter `combine`.
  - The class `PrefixId` has the source's three fields, and `CreatePrefixId` and `Value`
    update them in place. The stored prefix is an `Option`: it is `None` (null) in a fresh
    `new T()` until `CreatePrefixId` sets it, and `HasPrefix` on such an object raises
    NullReferenceException.
  - `PrefixId.Valid()` is the state every factory leaves: the stored prefix is T's usable
    prefix. `CreatePrefixId`, `Create`, `TryParse` and `Parse` ensure it, the constructor does
    not, and `HasPrefix` gives its simpler answer under it.
  - What `TryParse` accepts is the pure function `TryParseGuid`, and the `TryParse` method is
    proved against it.

Four behaviours of the code that are easy to miss:

- **Create and the cache.** `Create` stores no text (`formattedValue` is null), and `Value`
  computes the text on its first read (`PrefixId.Value`).
- **The padding pattern.** The regular expression `[=]*$` does more than strip the trailing
  `=`: .NET's `$` also matches just before a final `\n`, so a run of `=` in front of a final
  newline is removed as well. `Text.StripPadding` models this.
- **Prefixes containing `_`.** Nothing stops a prefix from containing `_`, and then
  `Parse(Create(g).Value)` fails (`PrefixIds.PrefixWithSeparator`). The round trip
  `PrefixIds.ParseFormat` therefore assumes a prefix without `_`.
- **Cleaning order.** Decode trims whitespace from the raw text before it removes `-` and
  strips the trailing `=`. Whitespace after a `-` or `=` is at the end of the text, so it is
  trimmed first, and the `-` or `=` is then ignored as usual: "aa- " and "aa= " decode like "aa"
  (`Base32Properties.WhiteSpaceAfterSeparatorTrimmed`). Whitespace that a `-` or a trailing run
  of `=` shields from the end stays, and is then illegal: "aa -" and "aa =" fail on the space
  (`Base32Properties.SeparatorBesideWhiteSpace`, `Base32Properties.PaddingBesideWhiteSpace`).
  This is why `Base32Properties.DecodeIgnoresSeparator` and `DecodeIgnoresPadding` require
  texts without whitespace.

The reference definitions in whose terms the contracts below are stated, with the code each
one stands for:

- `Base32.Clean` (src/Prefix.Id/Base32.cs:26-28): `Trim`, `Replace("-", "")`, the `[=]*$`
  replacement and `ToLower`, in that order.
- `Text.StripPadding` (src/Prefix.Id/Base32.cs:27): what `Regex.Replace(encoded, "[=]*$", "")`
  removes.
- `PrefixIds.TryParseGuid` (src/Prefix.Id/PrefixId.cs:25-50): the GUID `TryParse` accepts, or
  `None` for each of its rejections.
- `PrefixIds.Format` (src/Prefix.Id/PrefixId.cs:21): the interpolated text `Value` caches.
- `PrefixIds.PrefixId.GetHashCode` (src/Prefix.Id/PrefixId.cs:76): `HashCode.Combine` of the
  stored prefix and GUID, with the combining function a parameter.

## Model

| member | source | states |
|---|---|---|
| `CSharp.Wrap32` | src/Prefix.Id/Base32.cs:32 | the 32-bit signed result of C# `int` arithmetic: in [-2^31, 2^31) and congruent to the exact value modulo 2^32 |
| `CSharp.TruncDiv` | src/Prefix.Id/Base32.cs:32 | C# `/` on ints rounds toward zero: q times the divisor is the nearest multiple on zero's side of the dividend, within one divisor of it, for a dividend of either sign |
| `CSharp.ShiftIn` | src/Prefix.Id/Base32.cs:40-41 | `(buffer << k) \| v` with v below 2^k stays a 32-bit pattern, and its low b+k bits are the low b bits of the old buffer followed by v, however much has wrapped out at the top |
| `CSharp.ShlLowBits` | src/Prefix.Id/Base32.cs:80 | a wrapping `buffer <<= pad` keeps the low bits of the buffer, moved up by pad places |
| `CSharp.SarLowBits` | src/Prefix.Id/Base32.cs:45 | the low j bits of an arithmetic `buffer >> s` are bits s..s+j-1 of the buffer, whatever its sign |
| `CSharp.ExtractTop` | src/Prefix.Id/Base32.cs:85 | `buffer >> (b - j)` masked to j bits is the top j of the low b bits of the buffer |
| `BitStream.BitsToBytes` | src/Prefix.Id/Base32.cs:43-47 | a bit stream of length n gives n/8 whole bytes; fewer than 8 leftover bits give no byte |
| `BitStream.BytesRoundTrip` | src/Prefix.Id/Base32.cs:24-97 | reading bytes back off the bit stream of data gives data, followed by the bytes of whatever bits come after it |
| `Text.Split` | src/Prefix.Id/PrefixId.cs:32 | `Split` gives at least one part, and no part contains the separator |
| `Text.JoinSplit` | src/Prefix.Id/PrefixId.cs:32 | joining the parts with the separator gives the text back, so `Split` cuts at every separator and nowhere else |
| `Text.SplitCount` | src/Prefix.Id/PrefixId.cs:32-36 | the number of parts is the number of separators plus one |
| `Text.SplitOnce` | src/Prefix.Id/PrefixId.cs:32-38 | a text with exactly one separator splits into the text before it and the text after it |
| `Text.TrimStartSpec` | src/Prefix.Id/Base32.cs:26 | `Trim` removes a leading run of whitespace, all of it, and stops at the first other character |
| `Text.TrimEndSpec` | src/Prefix.Id/Base32.cs:26 | `Trim` removes a trailing run of whitespace, all of it, and stops at the last other character |
| `Text.RemoveAllSpec` | src/Prefix.Id/Base32.cs:26 | `Replace("-", "")` leaves no `-` and keeps every other character that occurs |
| `Text.StripTrailingSpec` | src/Prefix.Id/Base32.cs:27 | stripping the trailing `=` removes the longest run of `=` at the end and no more |
| `Text.StripPaddingRun` | src/Prefix.Id/Base32.cs:27 | any number of `=` appended to a text that does not end in `=` or `\n` is removed exactly |
| `Text.RemoveAllTwice` | src/Prefix.Id/Base32.cs:26 | removing `-` is idempotent |
| `Text.TrimSurrounded` | src/Prefix.Id/Base32.cs:26 | whitespace added around any text does not change what `Trim` gives |
| `Text.ToLowerAsciiCase` | src/Prefix.Id/Base32.cs:28 | two texts that differ only in the case of ASCII letters lower-case to the same text |
| `Text.StripPaddingCase` | src/Prefix.Id/Base32.cs:27-28 | texts that differ only in ASCII letter case still do after the padding is stripped |
| `Text.ToUpperAsciiSameUpToCase` | src/Prefix.Id/Base32.cs:28 | upper-casing a text changes only the case of its letters |
| `Base32.DigitsDistinct` | src/Prefix.Id/Base32.cs:18 | the 32 symbols are pairwise distinct, and none of them is whitespace, upper case, `=`, `-` or `_` |
| `Base32.CharMapInverse` | src/Prefix.Id/Base32.cs:18-21 | `CharMap` holds exactly the symbols; it maps `Digits[i]` to i, and every value v it holds is below 32 with `Digits[v]` its key |
| `Base32.IndexMapIsCharMap` | src/Prefix.Id/Base32.cs:21 | the map the constructor's loop builds, one `CharMap[Digits[i]] = i` at a time, is the closed-form `CharMap` |
| `Base32.NumberOfTrailingZeros` | src/Prefix.Id/Base32.cs:99-133 | the Hacker's Delight steps return the number of trailing zero bits of a nonzero int, and 32 for 0 |
| `Base32.TrailingZerosUnique` | src/Prefix.Id/Base32.cs:99-133 | the trailing-zero count is unique, so any correct count agrees with `NumberOfTrailingZeros` |
| `Base32.TrailingZerosOfPower` | src/Prefix.Id/Base32.cs:20 | 2^k has k trailing zeros, so `Shift` is 5 for the 32-symbol alphabet |
| `Base32.StaticConstructor` | src/Prefix.Id/Base32.cs:16-22 | the static constructor yields `Digits`, `Mask` 31, `Shift` 5 and the `CharMap` that maps each symbol to its index and holds nothing else |
| `Base32.ShiftInByte` | src/Prefix.Id/Base32.cs:73-74 | shifting a byte into the buffer appends its 8 bits to the pending bits |
| `Base32.TakeSymbol` | src/Prefix.Id/Base32.cs:85 | `Mask & (buffer >> (bitsLeft - 5))` is the value of the first five pending bits, below 32 |
| `Base32.EncodeByteStep` | src/Prefix.Id/Base32.cs:71-75 | reading the next byte keeps the loop invariant: the emitted symbols and the pending bits together still encode the bytes read so far |
| `Base32.EncodePadStep` | src/Prefix.Id/Base32.cs:77-82 | after the last byte, `buffer <<= pad` fills the runt group with zero bits and keeps the invariant |
| `Base32.EncodeSymbolStep` | src/Prefix.Id/Base32.cs:85-87 | emitting `Digits[index]` keeps the invariant, and index is within the alphabet |
| `Base32.EncodeLoopEnd` | src/Prefix.Id/Base32.cs:67-88 | when the loop ends, the output is the symbols of the bit stream of the data, and its length is `outputLength` |
| `Base32.EncodeFinish` | src/Prefix.Id/Base32.cs:90-94 | the padding code appends `8 - length % 8` `=` characters, and none when that count is 8 |
| `Base32.Encode` | src/Prefix.Id/Base32.cs:53-97 | ArgumentOutOfRange("data") for 2^28 bytes or more; otherwise exactly `EncodeSpec(data, padOutput)`, with "" for no bytes |
| `Base32.FirstIllegal` | src/Prefix.Id/Base32.cs:37-39 | the first character Decode's loop rejects: none exactly when every character is a symbol, and otherwise a character of the text that is not a symbol |
| `Base32.SymbolBits` | src/Prefix.Id/Base32.cs:40-42 | a text of symbols gives five bits per symbol |
| `Base32.ShiftInSymbol` | src/Prefix.Id/Base32.cs:40-42 | shifting a symbol value into the buffer appends its 5 bits to the pending bits |
| `Base32.TakeByte` | src/Prefix.Id/Base32.cs:45 | `(byte)(buffer >> (bitsLeft - 8))` is the value of the first eight pending bits |
| `Base32.DecodeSymbolByteStep` | src/Prefix.Id/Base32.cs:40-47 | a symbol that completes a byte keeps the invariant, and `result[next++]` is within the array of `outLength` bytes |
| `Base32.DecodeByteStep` | src/Prefix.Id/Base32.cs:43-47 | taking a byte keeps the invariant, and the index is below `outLength` |
| `Base32.DecodeFailsAt` | src/Prefix.Id/Base32.cs:39 | a non-symbol preceded only by symbols makes Decode fail with that character and no partial result |
| `Base32.DecodeLoopEnd` | src/Prefix.Id/Base32.cs:37-50 | after the last symbol, the bytes written are the whole bytes of the symbols' bit stream, exactly `m * 5 / 8` of them, with fewer than 8 bits left over |
| `Base32.DecodeSymbols` | src/Prefix.Id/Base32.cs:30-50 | Decode on cleaned text is exactly `SymbolsSpec`: an empty array for no symbols, the illegal character, or the bytes |
| `Base32.Decode` | src/Prefix.Id/Base32.cs:24-51 | Decode is exactly `DecodeSpec`: clean the text, then decode the symbols |
| `Base32.OutLengthAsWritten` | src/Prefix.Id/Base32.cs:32 | the C# `encodedLength * Shift / 8` agrees with floor(5m/8) while 5m fits in an `int` |
| `Base32.OutLengthOverflows` | src/Prefix.Id/Base32.cs:32-33 | at 429496730 symbols the C# length is -268435455 where 268435456 bytes are meant |
| `Base32Properties.Filled` | src/Prefix.Id/Base32.cs:77-82 | the bit stream with its runt group zero-filled: a multiple of five bits long, with fewer than five zeros added and the stream unchanged in front |
| `Base32Properties.EncodeBitsGroups` | src/Prefix.Id/Base32.cs:64-88 | symbol k of the output is `Digits` at the value of the k-th 5-bit group of the zero-filled stream |
| `Base32Properties.EncodeBitsAlphabet` | src/Prefix.Id/Base32.cs:87 | every output character is one of the 32 symbols |
| `Base32Properties.EncodeLength` | src/Prefix.Id/Base32.cs:55-61 | the unpadded output has `(8n + 4) / 5` characters (ceil(8n/5)): "" for no bytes, 26 for 16 bytes, 32 once padded |
| `Base32Properties.PaddingLength` | src/Prefix.Id/Base32.cs:92-93 | the padding is fewer than 8 `=` characters, brings the length to a multiple of 8, and is empty exactly when the length already is one |
| `Base32Properties.EncodePadding` | src/Prefix.Id/Base32.cs:90-94 | the padded output is the unpadded output followed only by `=`, with a length that is a multiple of 8, and is the same as the unpadded output when that length is already a multiple of 8 |
| `Base32Properties.FirstIllegalIsFirst` | src/Prefix.Id/Base32.cs:37-39 | the reported character is a non-symbol, and every character before it is a symbol (both directions) |
| `Base32Properties.DecodeLength` | src/Prefix.Id/Base32.cs:30-39 | Decode succeeds exactly when the cleaned text is all symbols; it then gives floor(5m/8) bytes for m cleaned symbols; a failure names a character of the cleaned text that is not a symbol |
| `Base32Properties.GuidPayloadLengths` | src/Prefix.Id/Base32.cs:32 | 26 and 27 symbols both decode to 16 bytes |
| `Base32Properties.OneSymbol` | src/Prefix.Id/Base32.cs:30-50 | a single symbol decodes to no bytes rather than being rejected |
| `Base32Properties.TwoSymbols` | src/Prefix.Id/Base32.cs:40-47 | two symbols x, y decode to the one byte `8*x + y/4` |
| `Base32Properties.TwoGroups` | src/Prefix.Id/Base32.cs:40-47 | the 10 bits of two groups give the one byte `8*x + y/4` |
| `Base32Properties.LeftoverBitsIgnored` | src/Prefix.Id/Base32.cs:43-50 | the two discarded low bits of a second symbol do not matter: Decode does not check that they are zero |
| `Base32Properties.CleanSymbols` | src/Prefix.Id/Base32.cs:26-28 | text made only of symbols passes the cleaning step unchanged |
| `Base32Properties.DecodeIgnoresWhiteSpace` | src/Prefix.Id/Base32.cs:26 | whitespace around the text does not change what Decode gives |
| `Base32Properties.DecodeIgnoresSeparator` | src/Prefix.Id/Base32.cs:26 | a `-` between two whitespace-free texts does not change what Decode gives |
| `Base32Properties.DecodeIgnoresPadding` | src/Prefix.Id/Base32.cs:27 | trailing `=` after whitespace-free text does not change what Decode gives |
| `Base32Properties.DecodeIgnoresCase` | src/Prefix.Id/Base32.cs:28 | texts that differ only in ASCII letter case decode alike |
| `Base32Properties.DecodeUpperCase` | src/Prefix.Id/Base32.cs:28 | upper-cased text decodes like the original |
| `Base32Properties.SeparatorBesideWhiteSpace` | src/Prefix.Id/Base32.cs:26 | `Trim` runs before `-` is removed: "aa -" fails on its space, while "aa" decodes to one byte |
| `Base32Properties.PaddingBesideWhiteSpace` | src/Prefix.Id/Base32.cs:26-27 | `Trim` runs before the `=` is stripped: "aa =" fails on its space |
| `Base32Properties.WhiteSpaceAfterSeparatorTrimmed` | src/Prefix.Id/Base32.cs:26-27 | whitespace after a `-` or a trailing `=` is trimmed first, so "aa- " and "aa= " decode to the one byte of "aa" |
| `Base32Properties.InnerPaddingIllegal` | src/Prefix.Id/Base32.cs:27-39 | a `=` with symbols after it is not stripped and fails as an illegal character |
| `Base32Properties.CleanUnchanged` | src/Prefix.Id/Base32.cs:26-28 | text without whitespace, `-` or upper case, and not ending in `=`, is unchanged by cleaning |
| `Base32Properties.SymbolBitsOfEncode` | src/Prefix.Id/Base32.cs:37-88 | decoding the symbols of a bit stream gives back the zero-filled stream |
| `Base32Properties.CleanEncoded` | src/Prefix.Id/Base32.cs:26-94 | cleaning a (padded or unpadded) encoding gives the unpadded encoding |
| `Base32Properties.CleanPadded` | src/Prefix.Id/Base32.cs:26-28 | symbols followed by any number of `=` clean to the symbols |
| `Base32Properties.RoundTrip` | src/Prefix.Id/Base32.cs:24-97 | `Decode(Encode(data, padOutput)) == data` for every data and both padding choices |
| `PrefixIds.NewGuid` | src/Prefix.Id/PrefixId.cs:42 | `new Guid(bytes)` succeeds exactly on 16 bytes and keeps them; otherwise it raises an ArgumentException |
| `PrefixIds.PrefixId.constructor` | src/Prefix.Id/PrefixId.cs:8-10 | `new T()`: the fields at their defaults (a null prefix, the empty GUID, no cached text), so not yet `Valid()` |
| `PrefixIds.PrefixId.Equals` | src/Prefix.Id/PrefixId.cs:72-76 | null is never equal; the same object, or one with the same prefix and GUID, always is, whatever the hash function |
| `PrefixIds.PrefixId.EqualsObject` | src/Prefix.Id/PrefixId.cs:74 | true only for an id whose type has T's name, and then exactly `Equals` |
| `PrefixIds.PrefixId.ToGuid` | src/Prefix.Id/PrefixId.cs:68 | the stored GUID |
| `PrefixIds.PrefixId.HasPrefix` | src/Prefix.Id/PrefixId.cs:70 | NullReferenceException exactly when no prefix is stored; otherwise true exactly when the argument is non-null and equal, character for character, to the stored prefix; for a `Valid()` id, whether the argument is T's prefix |
| `PrefixIds.PrefixId.Value` | src/Prefix.Id/PrefixId.cs:21 | the cached text if there is one; otherwise `prefix + "_" + Encode(guid)` (with "" for a null prefix), which is cached; afterwards the cache holds the text returned and nothing else changes, so later reads give the same text |
| `PrefixIds.CreatePrefixId` | src/Prefix.Id/PrefixId.cs:84-98 | ArgumentException("Prefix") exactly when T's prefix is null, empty or whitespace; otherwise a fresh id holding T's prefix, the GUID unchanged and the given cached text |
| `PrefixIds.Create` | src/Prefix.Id/PrefixId.cs:19 | `Create(g)`: a fresh, `Valid()` id whose `ToGuid()` is g, whose `HasPrefix(T.Prefix)` is true, and which has no cached text yet |
| `PrefixIds.TryParse` | src/Prefix.Id/PrefixId.cs:23-51 | true exactly when `TryParseGuid` accepts the text, and false with a null id otherwise; on success, a fresh id with T's prefix, the decoded GUID, and the input itself as its cached text |
| `PrefixIds.Parse` | src/Prefix.Id/PrefixId.cs:53-66 | ArgumentNullException("value") for null or whitespace; ArgumentNullException("id") for any other text TryParse rejects; otherwise the id TryParse gives |
| `PrefixIds.PayloadOfGuid` | src/Prefix.Id/PrefixId.cs:21 | the payload of a GUID is 26 symbols, none of them `_` |
| `PrefixIds.FormatLength` | src/Prefix.Id/PrefixId.cs:21 | the canonical text is the prefix plus 27 characters: 31 for "test" |
| `PrefixIds.ParseFormat` | src/Prefix.Id/PrefixId.cs:21-51 | parsing `prefix + "_" + Encode(g)` gives g back, for a usable prefix without `_` |
| `PrefixIds.PrefixWithSeparator` | src/Prefix.Id/PrefixId.cs:21-36 | with `_` inside the prefix, the canonical text splits into three or more parts and is rejected |
| `PrefixIds.PayloadAccepted` | src/Prefix.Id/PrefixId.cs:32-43 | for "p_e" with e all symbols, TryParse accepts exactly when e has 26 or 27 symbols, whatever p is (the first part is never compared with the prefix); the GUID is the decoded payload |
| `PrefixIds.RejectedInputs` | src/Prefix.Id/PrefixId.cs:27-36 | null, "" and "test" are rejected |
| `PrefixIds.RejectedShortPayload` | src/Prefix.Id/PrefixId.cs:38-50 | "test_notvalidtestid" is rejected: its 14 symbols decode to 8 bytes, not 16 |
| `PrefixIds.HasPrefixCaseSensitive` | src/Prefix.Id/PrefixId.cs:70 | HasPrefix holds for the id's own prefix and fails for it upper-cased: the comparison is case-sensitive |
| `PrefixIds.HashOfEqualFields` | src/Prefix.Id/PrefixId.cs:76 | `GetHashCode` depends only on the prefix and the GUID: ids that agree on both hash alike, whatever the hash function |
| `PrefixIds.VariantPayload` | src/Prefix.Id/Base32.cs:24-97 | the padded or upper-cased payload of a GUID has no `_` and still decodes to that GUID |
| `PrefixIds.ParseVariant` | src/Prefix.Id/PrefixId.cs:21-51 | a padded, upper-cased, or padded and upper-cased form of the canonical text parses to the same GUID as the canonical text |
| `PrefixIds.ParseVariantEqualsCreate` | src/Prefix.Id/PrefixId.cs:19-76 | `Parse` of such a form reads back g, keeps the text it was given, and is Equals to `Create(g)` in both directions, typed and as objects, whatever the source text |
| `PrefixIds.CreateTwice` | src/Prefix.Id/PrefixId.cs:19-76 | two `Create(g)` calls give distinct objects of T that are Equals in both directions, typed and as objects (`Equals(object)`, which `Should().Be` calls), and both read back g |
| `PrefixIds.ParseValue` | src/Prefix.Id/PrefixId.cs:19-76 | `Parse(Create(g).Value)` gives an id of T that reads back g, keeps the same text, and is Equals to the created id in both directions, typed and as objects |

## Left out

- `Text.ToLowerAscii`: the culture-sensitive `ToLower` is modelled on ASCII letters only, and this can change what Decode accepts, not only which character it reports. .NET lower-cases U+212A KELVIN SIGN to `k`, so the source accepts it as a symbol and the model rejects it; under the tr-TR culture `I` lower-cases to U+0131 DOTLESS I, so the source rejects it and the model accepts it as `i`.
- Strings: a Dafny `char` is a Unicode scalar value, while a C# string is a sequence of UTF-16 code units. A character outside the Basic Multilingual Plane is one `char` here and two code units there, so a failure report names a different character, and a lone surrogate cannot be written here at all.
- `Trim`, `IsNullOrWhiteSpace`: whitespace is the fixed list of Unicode White_Space characters that `Char.IsWhiteSpace` accepts.
- The .NET regular-expression engine: `[=]*$` is modelled directly by what it removes (`Text.StripPadding`).
- `Guid.NewGuid()` is randomness. `Create()` is `Create(g)` for a GUID g supplied by the caller, and the tests that two new ids differ are not modelled.
- `HashCode.Combine` is a per-process seeded hash. It is the parameter `combine`, so no contract says that `Equals` implies equal prefix and GUID.
- `Guid.ToByteArray()` and `new Guid(byte[])` are the identity on 16 bytes. The byte order inside a `Guid` is not modelled.
- `ToString` and the two string conversion operators are left out: they only call `Value` and `Parse`. The implicit conversion throws ArgumentNullException on a null id.
- Exceptions are `Result` values: `DecodingException`, ArgumentOutOfRange in `Encode`, and ArgumentException/ArgumentNullException in `PrefixIds.Error`. ArgumentNullException is a subclass of ArgumentException in .NET, so every `Parse` failure is an ArgumentException.
- `Decode(null)` and `Encode(null)` throw NullReferenceException in the source (at `encoded.Trim()` and at `data.Length`) and are not modelled: a Dafny `string` or `seq<byte>` cannot be null. `TryParse` only ever decodes the part after `_`, which is never null, and `Value` only ever encodes `ToByteArray()`, which is never null.
- `Base32.Decode`, `Base32.DecodeSymbols`: Decode allocates its result with unbounded arithmetic, as the corrected row under "## Findings" records. With 429496730 or more cleaned symbols, the C# code overflows instead (see `Base32.OutLengthOverflows`). `TryParse` is not affected, because it rejects every length other than 26 or 27 symbols.
- The thread-safety of static initialisation: there is no concurrency to model.
- `StringBuilder` and `byte[]` are sequences. `Decode` writes its bytes into a Dafny `array` as the source does, while `Encode` appends to a `string`.

## Findings

| source | as written | input that shows it | evidently intended | confidence | as-written member | corrected member |
|---|---|---|---|---|---|---|
| src/Prefix.Id/Base32.cs:32 | `int outLength = encodedLength * Shift / 8` is computed in 32-bit `int` arithmetic, so the product wraps for encodedLength >= 429496730 | a cleaned text of 429496730 symbols: 5 * 429496730 wraps to -2147483646, outLength is -268435455, and `new byte[outLength]` throws | floor(5m/8) bytes, here 268435456, as for every shorter text | not executed | `Base32.OutLengthAsWritten`, `Base32.OutLengthOverflows` | `Base32.DecodeSymbols` |
