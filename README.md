# koval_yp_codec: the cipher library and the operation history, in Dafny

This project models two parts of the `koval_yp_codec` desktop codec:

- `Ciphers`, the static library of text transforms:
  - the Caesar shift over the Latin and Russian alphabets;
  - ROT-n over printable ASCII;
  - Morse code, with its transliteration of Russian letters;
  - 8-bit binary, A1Z26 and decimal ASCII codes;
  - the hand-written Base32 packer `Base32.ToBase32String` / `Base32.FromBase32String`.
- `RadioHistory`, the in-memory list of operations: add an entry with its preview, remove by index, clear, count.

The model follows the code as written. Every loop of the source is a Dafny `method` with a `while` loop that is proved against a specification function. Round trips, ranges and error conditions are then proved as lemmas about those functions. Where the code does not do what it evidently means to do, the project also has a corrected definition with the intended property proved (see "## Findings").

Modules, one per file:

| module | file | what it holds |
|---|---|---|
| `Failures` | failures.dfy | `Result`, `Option` and the error kinds. `EmptyInput` is the `ArgumentException`; `InvalidFormat` is the `FormatException`; `Overflow` is the `OverflowException` of `byte.Parse`; `KeyNotFound` is the dictionary's `KeyNotFoundException`. |
| `CSharpInt` | csharp_int.dfy | C# `int` arithmetic: 32-bit wrap-around of `*`, `%` truncating toward zero, and the `byte` type. |
| `Text` | text.dfy | `Trim`, `ToUpperInvariant` for Latin and Cyrillic, `string.Split` with and without `RemoveEmptyEntries`, `string.Join`, `Replace`. |
| `Decimal` | decimal.dfy | `int.ToString`, `int.TryParse` and `byte.Parse` over `NumberStyles.Integer`. |
| `Bits` | bits.dfy | bitwise and, bitwise or, `<<` and `>>` on values that are not negative. |
| `Tables` | tables.dfy | `MorseMap`, its reverse dictionary, and `TranslitMap`. |
| `CaesarCipher`, `RotCipher`, `Morse`, `BinaryCodec`, `A1Z26Cipher`, `AsciiCodec` | caesar.dfy, rot.dfy, morse.dfy, binary_codec.dfy, a1z26.dfy, ascii_codec.dfy | one transform each |
| `Base32Blocks` | base32_blocks.dfy | the alphabet and the arithmetic of 40-bit groups |
| `Base32Rfc` | base32_rfc.dfy | the codec of section 6 of RFC 4648, without padding, with its round trip |
| `Base32` | base32.dfy | the source's Base32 encoder and decoder |
| `RadioHistory` | radio_history.dfy | `RadioEntry`, `Preview` and the class `History` |

Exceptions become `Fail(...)` results. The static class `RadioHistory` becomes a class `History` whose field `entries` is the static `_history` list.

Some behaviours of the code are easy to misread; the model follows the code:

- A1Z26 decoding appends an out-of-range token with no separator: `1-99` gives `A99` (`DecodeOutOfRangeExample`).
- An ASCII code above 255 makes `byte.Parse` throw `OverflowException`. The `catch (FormatException)` at Ciphers.cs:399 does not catch it (`OverflowExample`).
- The Base32 encoder writes no `=`, and the decoder rejects `=`. Decoding does not undo encoding (`EncodingIsRfcPlusA`, `PaddingRejected`, `RoundTripFails`).

## Model

| member | source | states |
|---|---|---|
| CSharpInt.Wrap | Ciphers.cs:29 | `shift * direction` in 32-bit `int`: the result is congruent to the exact product modulo 2^32, and equal to it when it fits |
| CSharpInt.Rem | Ciphers.cs:29 | C# `%`: the remainder lies strictly between `-m` and `m`, has the sign of the dividend, and differs from it by a multiple of `m` |
| CSharpInt.Normalize | Ciphers.cs:29-30 | `%` followed by `if (r < 0) r += m` gives the Euclidean residue, in `[0, m)` |
| CSharpInt.Directed | Ciphers.cs:28-29 | `shift * direction`: the shift itself for encryption, its negation for decryption, except that `int.MinValue` negates to itself |
| CaesarCipher.EffectiveShift | Ciphers.cs:28-30 | the effective shift lies in `[0, 32)` |
| CaesarCipher.Caesar | Ciphers.cs:24-83 | the loop's output is `CaesarText`: each character mapped by `ShiftChar` with the effective shift |
| CaesarCipher.ShiftOne | Ciphers.cs:36-80 | one iteration of the loop appends `ShiftChar(c, effectiveShift)` |
| CaesarCipher.CaesarKeepsOthers | Ciphers.cs:68-80 | the length is kept; `ё`, `Ё` and every character outside `a..z`, `A..Z`, `а..я`, `А..Я` are unchanged |
| CaesarCipher.CaesarKeepsAlphabet | Ciphers.cs:37-66 | every letter stays in its own alphabet and case |
| CaesarCipher.ShiftsCancel | Ciphers.cs:28-30 | the encrypting and decrypting effective shifts add up to a multiple of 32 for every key, `int.MinValue` included |
| CaesarCipher.CaesarRoundTripCyrillic | Ciphers.cs:53-80 | encrypting and then decrypting restores every Russian letter and every untouched character |
| CaesarCipher.CaesarRoundTripNonLatin | Ciphers.cs:24-83 | for a text without Latin letters, decryption undoes encryption for every key |
| CaesarCipher.CaesarLatinDrift | Ciphers.cs:37-51 | when the effective shift is not 0, a small or capital Latin letter comes back 6 places further on in its own alphabet (32 mod 26) |
| CaesarCipher.CaesarLatinCounterexample | Ciphers.cs:37-42 | `"a"` encrypted and decrypted with key 1 gives `"g"` |
| CaesarCipher.CaesarFixedRoundTrip | Ciphers.cs:24-83 | the corrected cipher reduces the key by each alphabet's own size; decryption then undoes encryption for every text and key |
| CaesarCipher.FixedShiftCharUndo | Ciphers.cs:36-80 | with the corrected shift, undoing the shift of one character restores it |
| RotCipher.EffectiveShift | Ciphers.cs:96-103 | the effective shift lies in `[0, 95)` |
| RotCipher.Rot | Ciphers.cs:92-124 | the loop's output is `RotText`: each character mapped by `RotChar` |
| RotCipher.RotKeepsClasses | Ciphers.cs:107-121 | the length is kept; a character is printable (32..126) after the shift exactly when it was before; every other character is unchanged |
| RotCipher.ShiftsCancel | Ciphers.cs:102-103 | for every key except `int.MinValue`, the two effective shifts add up to a multiple of 95 |
| RotCipher.RotRoundTrip | Ciphers.cs:92-124 | for every key except `int.MinValue`, encryption and decryption undo each other, in both orders |
| RotCipher.RotMinValueCounterexample | Ciphers.cs:102-103 | for `int.MinValue` both effective shifts are 92, and `"A"` comes back as `";"` |
| RotCipher.RotFixedRoundTrip | Ciphers.cs:92-124 | the corrected cipher negates the key without wrap-around, and decryption undoes encryption for every key |
| RotCipher.RotFixedAgrees | Ciphers.cs:92-124 | the corrected cipher agrees with the source for every key except `int.MinValue` |
| Tables.Code | Ciphers.cs:127-140 | `MorseMap`, entry by entry, as a lookup that gives `None` where `ContainsKey` fails; every key lies between `' '` and `'Z'` |
| Tables.KeysInRange | Ciphers.cs:127-140 | the keys of `MorseMap` are exactly `A..Z`, `0..9`, the space and `.,?!@` |
| Tables.CodesDistinct | Ciphers.cs:127-140 | the codes of `MorseMap` are pairwise distinct, so the reverse dictionary built with `ToDictionary` at line 210 is defined |
| Tables.CodeShape | Ciphers.cs:127-140 | each code is non-empty and has no space; `' '` has `"/"` and every other key a string of dots and dashes |
| Tables.Decode | Ciphers.cs:210 | a character found in the reverse dictionary has exactly that code |
| Tables.DecodeCode | Ciphers.cs:210 | the reverse dictionary gives back the key of every code |
| Tables.DecodeMissing | Ciphers.cs:220-223 | a lookup fails exactly when no key has that code |
| Tables.DecodeExamples | Ciphers.cs:129-138 | `...` is `S`, `---` is `O`, and `/` is the space |
| Tables.DecodeUnknownExample | Ciphers.cs:220-223 | `-.-.-` is not a code |
| Tables.Translit | Ciphers.cs:143-159 | `TranslitMap`, entry by entry; it has an entry exactly for `А..я`, `Ё` and `ё` |
| Tables.TranslitShape | Ciphers.cs:143-159 | `Ъ`, `Ь`, `ъ`, `ь` map to the apostrophe, other capitals to Latin capitals, and small letters to small Latin letters |
| Morse.EncodeChar | Ciphers.cs:173-186 | the token of one character: its code after upper-casing, else the code of its transliteration, else `?`; it fails, with `KeyNotFound`, exactly for `Ъ`, `Ь`, `ъ`, `ь` |
| Morse.TranslitCode | Ciphers.cs:178-181 | a transliteration has a Morse code exactly when the letter is not one of the four signs |
| Morse.MorseEncode | Ciphers.cs:164-189 | the loop's result is `MorseEncodeText`: the token of each character followed by a space, trimmed, or the first `KeyNotFound` |
| Morse.EncodedAll | Ciphers.cs:170-188 | when every character has a token, the result is the trimmed concatenation of the spaced tokens |
| Morse.EncodeCharShape | Ciphers.cs:173-186 | a character's token is `?` or a code of the table |
| Morse.SpacedTrim | Ciphers.cs:188 | trimming the space-terminated tokens gives the tokens joined by single spaces |
| Morse.EncodeExample | Ciphers.cs:164-189 | `SOS` encodes to `... --- ...` |
| Morse.EncodeHardSignCounterexample | Ciphers.cs:178-181 | `Ъ` throws `KeyNotFound`: its transliteration `'` has no code |
| Morse.EncodeCharFixed | Ciphers.cs:173-186 | the corrected per-character encoder agrees with the source wherever the source succeeds, and always gives `?` or a code |
| Morse.MorseEncodeFixedAgrees | Ciphers.cs:164-189 | the corrected encoder agrees with the source on every input the source accepts |
| Morse.EncodeSoftSignCounterexample | Ciphers.cs:175-181 | `ь` throws `KeyNotFound`: its capital `Ь` has no code, and neither has its transliteration `'` |
| Morse.MorseEncodeFixedHardSign | Ciphers.cs:178-186 | the corrected encoder maps `Ъ` to `?` |
| Morse.PassesCheckExact | Ciphers.cs:202-203 | the check after removing spaces and slashes passes exactly when every character is `.`, `-`, space or `/` |
| Morse.DecodeLetters | Ciphers.cs:218-224 | one output character per letter token |
| Morse.MorseDecode | Ciphers.cs:194-228 | the loops' result is `MorseDecodeText`: `EmptyInput` for blank input, `InvalidFormat` for a failed check, otherwise the decoded words, trimmed |
| Morse.DecodeAsLetters | Ciphers.cs:212-226 | splitting at `" / "` and decoding word by word equals decoding every space-separated token (with `/` as the space) and appending one space |
| Morse.EncodeEncodable | Ciphers.cs:170-188 | a text whose characters all have a code encodes to those codes joined by single spaces |
| Morse.CodesShape | Ciphers.cs:127-140 | the codes of such a text are non-empty, use only `.`, `-`, `/`, and decode to the upper-cased text |
| Morse.CodesAccepted | Ciphers.cs:196-207 | the encoding of such a text is not blank and passes the format check |
| Morse.MorseRoundTrip | Ciphers.cs:164-227 | decoding the encoding of such a text gives the text upper-cased and trimmed |
| Morse.RoundTripExample | Ciphers.cs:164-227 | `SOS` survives the round trip |
| Morse.DecodeErrorExamples | Ciphers.cs:196-207 | blank input is `EmptyInput`; `..x` is `InvalidFormat` |
| Decimal.DigitChar | Ciphers.cs:280 | a digit's character is a decimal digit with that value |
| Decimal.NatToString | Ciphers.cs:280 | `int.ToString` of a value that is not negative: decimal digits with that value, no leading zero |
| Decimal.IntToString | Ciphers.cs:285 | `int.ToString`: the digits of the magnitude, with a `-` for negative values |
| Decimal.TryParseInt32 | Ciphers.cs:304 | `int.TryParse` succeeds exactly when the token parses to a value in the 32-bit range, and returns that value |
| Decimal.ParseByte | Ciphers.cs:396 | `byte.Parse`: `InvalidFormat` exactly when the token does not parse; `Overflow` exactly when it parses outside 0..255; otherwise the value |
| Decimal.ParseToString | Ciphers.cs:280-304 | parsing what `int.ToString` prints gives the value back |
| Decimal.ParseNegative | Ciphers.cs:304 | `-` followed by digits parses to the negated value |
| Decimal.ParseRejects | Ciphers.cs:304 | a character that is not a digit, a sign or white space makes parsing fail |
| Decimal.SkipWhiteSkipsWhite | Ciphers.cs:304 | leading white space is skipped and nothing else |
| Decimal.DropWhiteDropsWhite | Ciphers.cs:304 | trailing white space is dropped and nothing else |
| BinaryCodec.BinaryValue | Ciphers.cs:264 | `Convert.ToByte(s, 2)`: the value of `k` bits is below `2^k` |
| BinaryCodec.ToBinary | Ciphers.cs:238 | `Convert.ToString(b, 2)`: the bits of the value, with no leading zero |
| BinaryCodec.PadLeft | Ciphers.cs:238 | `PadLeft` keeps the string as a suffix and fills up to the width with the pad character |
| BinaryCodec.ByteBits | Ciphers.cs:238 | the token of a byte has 8 bits and that value |
| BinaryCodec.BinaryEncode | Ciphers.cs:233-240 | the encoding of the bytes is empty exactly for no bytes, and otherwise splits at its spaces into the 8-bit groups, one per byte |
| BinaryCodec.BinaryDecode | Ciphers.cs:245-266 | the validation loop and conversion give `BinaryDecodeText`: `EmptyInput` for blank input, `InvalidFormat` if a token is not 8 bits, otherwise the bytes |
| BinaryCodec.BinaryRoundTrip | Ciphers.cs:233-266 | decoding the encoding of a non-empty byte sequence gives it back |
| BinaryCodec.GroupValues | Ciphers.cs:238-264 | the tokens of the bytes are valid and convert back to the bytes |
| BinaryCodec.GroupsSplit | Ciphers.cs:239-252 | the joined tokens are not blank and split back into the tokens |
| BinaryCodec.BinaryEncodeAlphabet | Ciphers.cs:238-239 | the encoding holds only `0`, `1` and spaces |
| BinaryCodec.RejectsLastGroup | Ciphers.cs:255-261 | a last token that is not 8 bits makes decoding fail with `InvalidFormat` |
| BinaryCodec.BinaryDecodeErrors | Ciphers.cs:247-261 | `0100 0001 001` is `InvalidFormat`; blank input is `EmptyInput` |
| BinaryCodec.BitsDetermined | Ciphers.cs:257-264 | two bit strings of the same length and value are equal |
| A1Z26Cipher.Token | Ciphers.cs:276-291 | every character gives a non-empty token |
| A1Z26Cipher.A1Z26Encode | Ciphers.cs:271-293 | the loop's result is `A1Z26EncodeText`: the tokens of the upper-cased text joined by `-` |
| A1Z26Cipher.EncodeChar | Ciphers.cs:278-290 | one iteration of the loop adds the token of its character |
| A1Z26Cipher.A1Z26Decode | Ciphers.cs:295-314 | the loop's result is `A1Z26DecodeText`: `""` for blank input, otherwise the pieces of the non-empty parts, concatenated |
| A1Z26Cipher.DecodeTurn | Ciphers.cs:304-311 | one iteration appends the letter of a number 1..26, or the part itself |
| A1Z26Cipher.LetterToken | Ciphers.cs:278-280 | a Latin capital's token is its position, which decodes back to it |
| A1Z26Cipher.PieceOfNumber | Ciphers.cs:304-306 | a part that parses to 1..26 becomes its letter |
| A1Z26Cipher.DecodeTokens | Ciphers.cs:302-312 | the tokens of a text of Latin capitals decode to that text |
| A1Z26Cipher.A1Z26RoundTrip | Ciphers.cs:271-314 | decoding the encoding of a text of Latin letters gives it upper-cased |
| A1Z26Cipher.TokensSplitBack | Ciphers.cs:292-299 | the joined tokens of Latin capitals are not blank and split back into those tokens |
| A1Z26Cipher.DecodeTwoParts | Ciphers.cs:299-312 | `a-b` decodes to the piece of `a` directly followed by the piece of `b` |
| A1Z26Cipher.EncodeExample | Ciphers.cs:271-293 | `AB` encodes to `1-2` |
| A1Z26Cipher.DecodeOutOfRangeExample | Ciphers.cs:304-311 | `1-99` decodes to `A99` |
| A1Z26Cipher.DecodeBlankExample | Ciphers.cs:297 | blank input decodes to `""` |
| A1Z26Cipher.HardSignEncodeExample | Ciphers.cs:282-286 | `Ъ` encodes to `-25`, since `'` - `A` + 1 is -25 |
| A1Z26Cipher.SoftSignEncodeExample | Ciphers.cs:276-286 | `ь` is upper-cased to `Ь` first and so also encodes to `-25` |
| A1Z26Cipher.HardSignDecodeExample | Ciphers.cs:299-306 | `-25` decodes to `Y`: the leading hyphen is a separator |
| A1Z26Cipher.LeadingHyphen | Ciphers.cs:299 | a leading `-` is dropped by the split |
| A1Z26Cipher.DigitsCollide | Ciphers.cs:287-290 | `A1` and `AA` have the same encoding `1-1`, so the encoding is not injective |
| AsciiCodec.AsciiByte | Ciphers.cs:381 | `Encoding.ASCII.GetBytes` per character: the code below 128, `?` (63) otherwise |
| AsciiCodec.AsciiChar | Ciphers.cs:397 | `Encoding.ASCII.GetString` per byte: the character below 128, `?` otherwise |
| AsciiCodec.AsciiEncode | Ciphers.cs:377-383 | the encoding is empty exactly for empty input, and otherwise splits at its spaces into the decimal codes, one per character |
| AsciiCodec.ParseBytes | Ciphers.cs:396 | parsing all tokens fails only with `InvalidFormat` or `Overflow`, and a success has one byte per token |
| AsciiCodec.ParseBytesOk | Ciphers.cs:396 | when every token parses, the result has one byte per token, each its parsed value |
| AsciiCodec.ParseBytesFail | Ciphers.cs:396-403 | the first token that fails decides the error |
| AsciiCodec.AsciiDecode | Ciphers.cs:385-404 | blank input is `EmptyInput`; a decoded text has one character per token, and every character is ASCII |
| AsciiCodec.StringOfBytes | Ciphers.cs:381-397 | decoding the ASCII bytes of a text gives the text with non-ASCII characters replaced by `?` |
| AsciiCodec.AsciiRoundTrip | Ciphers.cs:377-404 | decoding the encoding of a non-empty text gives that replacement of it |
| AsciiCodec.ParseCodes | Ciphers.cs:382-396 | the printed codes parse back to the bytes |
| AsciiCodec.CodesSplit | Ciphers.cs:382-392 | the joined codes are not blank and split back into the codes |
| AsciiCodec.AsciiEncodeAlphabet | Ciphers.cs:382 | the encoding holds only digits and spaces |
| AsciiCodec.AsciiDecodeErrors | Ciphers.cs:387-403 | `EmptyInput` exactly for blank input; any other failure is `InvalidFormat` or `Overflow` |
| AsciiCodec.DecodeFailsAt | Ciphers.cs:392-403 | the first token that fails to parse decides the error |
| AsciiCodec.OverflowExample | Ciphers.cs:396-403 | `300` fails with `Overflow`, which escapes the `catch (FormatException)` |
| AsciiCodec.FormatExample | Ciphers.cs:396-403 | `x` fails with `InvalidFormat` |
| AsciiCodec.EncodeExample | Ciphers.cs:377-383 | `AB` encodes to `65 66` |
| AsciiCodec.DecodeBlankExample | Ciphers.cs:387-390 | blank input is `EmptyInput` |
| Text.TrimStartSpec | Ciphers.cs:188 | `TrimStart` drops a prefix of white space and leaves a text that does not start with white space |
| Text.TrimEndSpec | Ciphers.cs:188 | `TrimEnd` drops a suffix of white space and leaves a text that does not end with white space |
| Text.TrimUntouched | Ciphers.cs:447 | a text with no white space at either end is its own trim |
| Text.ToUpperChar | Ciphers.cs:173 | `char.ToUpperInvariant`: small Latin and Russian letters (and `ё`) go to their capitals, other characters stay |
| Text.ToUpperIdempotent | Ciphers.cs:276 | upper-casing twice is upper-casing once |
| Text.Split | Ciphers.cs:212 | `string.Split` gives at least one part |
| Text.JoinSplit | Ciphers.cs:212 | joining the parts of a split with the separator restores the text |
| Text.RemoveEmpty | Ciphers.cs:217 | `RemoveEmptyEntries` keeps only non-empty parts |
| Text.SplitNonEmptyJoin | Ciphers.cs:252 | non-empty parts free of the separator, joined and split again, come back |
| Text.Remove | Ciphers.cs:202 | `Replace(c, "")` leaves no `c` |
| Text.RemoveChars | Ciphers.cs:202 | `Replace(c, "")` keeps exactly the other characters |
| Bits.AndLowBits | Ciphers.cs:475 | `x & ((1 << k) - 1)` is `x mod 2^k` |
| Bits.OrDisjoint | Ciphers.cs:467 | the bitwise or of a multiple of `2^k` and a value below `2^k` is their sum |
| Base32Blocks.Symbol | Ciphers.cs:409 | the character of a group value is in the alphabet |
| Base32Blocks.AlphabetContains | Ciphers.cs:452 | `Base32Chars.Contains(c)` holds exactly for `A..Z` and `2..7` |
| Base32Blocks.IndexOf | Ciphers.cs:464 | `Base32Chars.IndexOf(c)` is -1 exactly outside the alphabet, otherwise the group value whose character is `c` |
| Base32Blocks.IndexOfChar | Ciphers.cs:464 | `IndexOf` finds every group value back from its character |
| Base32Blocks.GroupCountBytes | Ciphers.cs:415 | the `ceil(8n / 5)` characters of `n` bytes hold exactly `n` whole bytes |
| Base32Rfc.RfcEncode | Ciphers.cs:411-441 | the corrected encoder emits exactly `ceil(8n / 5)` alphabet characters, no `=` |
| Base32Rfc.RfcRoundTrip | Ciphers.cs:411-480 | the corrected decoder undoes the corrected encoder for every byte sequence |
| Base32Rfc.RfcDecodeRejects | Ciphers.cs:447-454 | the corrected decoder keeps the source's rejection of characters outside the alphabet |
| Base32.Low8 | Ciphers.cs:422 | the `(byte)` cast keeps values below 256 |
| Base32.BitsRemaining | Ciphers.cs:417-431 | `bitsRemaining` after `i` bytes lies in 1..5, so the final `if (bitsRemaining > 0)` always fires |
| Base32.AsWrittenEncoding | Ciphers.cs:411-441 | the encoding holds only alphabet characters, never `=` |
| Base32.ToBase32String | Ciphers.cs:411-441 | the loop's result is `AsWrittenEncoding`: `""` for no bytes, otherwise the first `8n / 5 + 1` groups of the bit stream |
| Base32.AppendByte | Ciphers.cs:421-433 | one iteration appends the one or two groups that byte `i` completes, and leaves `nextChar` and `bitsRemaining` as the next byte expects |
| Base32.EncodeTurn | Ciphers.cs:422-432 | the values one iteration computes: every alphabet index is below 32, and the appended characters are the next groups |
| Base32.EncodeLast | Ciphers.cs:436-439 | after the loop `bitsRemaining > 0`, and the final character completes the encoding |
| Base32.EncodeStep | Ciphers.cs:420-434 | each of the five positions of a byte in a 40-bit block updates the state correctly |
| Base32.CheckAlphabet | Ciphers.cs:450-454 | the first loop accepts exactly when every character is in the alphabet |
| Base32.Decoded | Ciphers.cs:456-457 | the result array has `len * 5 / 8` bytes |
| Base32.FromBase32String | Ciphers.cs:443-480 | the method's result is `FromBase32Text`: no bytes for `""`; after trimming and upper-casing, `InvalidFormat` for any character outside the alphabet; otherwise the pair bytes |
| Base32.ShiftIn | Ciphers.cs:462-477 | one iteration: an even character fills the buffer; an odd one writes the byte of its pair to `result[k / 2]` and empties the buffer |
| Base32.DecodedStep | Ciphers.cs:462-478 | the array after `k + 1` characters is the array after `k`, plus the pair byte when `k` is odd |
| Base32.SecondOfPair | Ciphers.cs:472-476 | the second character of a pair makes ten bits, of which the byte keeps the low eight, and the buffer is emptied |
| Base32.Base32Encode | Ciphers.cs:348-354 | `Base32Encode` of the bytes is `AsWrittenEncoding` of them |
| Base32.Base32Decode | Ciphers.cs:356-372 | `Base32Decode` is `EmptyInput` for blank input, otherwise `FromBase32Text` |
| Base32.EncodingLength | Ciphers.cs:415-440 | for `n > 0` the output has `floor(8n / 5) + 1` characters: the `ceil(8n / 5)` of `charCount`, plus one when `n % 5 == 0` |
| Base32.EncodingIsRfcPlusA | Ciphers.cs:411-441 | for `n > 0` the output is the unpadded encoding of section 6 of RFC 4648, followed by an `A` when `n % 5 == 0` |
| Base32.PaddingRejected | Ciphers.cs:447-454 | text holding `=` after trimming is refused with `InvalidFormat` by `FromBase32String` and by `Base32Decode` |
| Base32.DecodedBytes | Ciphers.cs:456-479 | the decoding has `len * 5 / 8` bytes; byte `i` is `((v[2i] & 7) << 5)` or-ed with `v[2i+1]` for every complete pair, and the rest are 0 |
| Base32.PairBits | Ciphers.cs:472-475 | `((v & 7) << 5)` or-ed with `w` is `(v mod 8) * 32 + w` |
| Base32.EncodeLetterF | Ciphers.cs:411-441 | the byte `0x66` encodes to `MY` |
| Base32.DecodeMY | Ciphers.cs:443-480 | `MY` decodes to the byte `0x98` |
| Base32.RoundTripFails | Ciphers.cs:411-480 | decoding the encoding of `[0x66]` gives `[0x98]`, not `[0x66]` |
| RadioHistory.Preview | RadioHistory.cs:59 | the preview is the text when it has at most 30 characters, otherwise its first 30 characters followed by `...`; at most 33 characters |
| RadioHistory.PreviewIdempotent | RadioHistory.cs:59 | the preview of a preview is that preview |
| RadioHistory.Removed | RadioHistory.cs:92 | `RemoveAt(index)`: one element fewer; the elements before `index` unchanged; those after moved down by one |
| RadioHistory.RemovedRestore | RadioHistory.cs:92 | putting the removed element back at `index` restores the list |
| RadioHistory.History.constructor | RadioHistory.cs:41-44 | the static constructor starts from the list `Load` read (empty when there is no file) |
| RadioHistory.History.AddEntry | RadioHistory.cs:52-65 | exactly one entry, with the preview of the text, is appended at the end; the count grows by one and the earlier entries are unchanged |
| RadioHistory.History.ClearHistory | RadioHistory.cs:75-80 | the list is empty and the count is 0 |
| RadioHistory.History.RemoveEntry | RadioHistory.cs:87-98 | answers true exactly for an index in `[0, count)`; then exactly that entry is removed, the others keep their order, and the count drops by one; otherwise the list is unchanged |
| RadioHistory.History.GetEntryCount | RadioHistory.cs:124 | the count is the length of what `GetAll` returns |

## Left out

- Text encodings: `Encoding.UTF8.GetBytes` and `GetString` (Ciphers.cs:237, 265, 352, 366) are library calls. `BinaryEncode`, `BinaryDecode`, `Base32Encode` and `Base32Decode` are modelled over the bytes that `GetBytes` returns and that `GetString` receives.
- Strings are sequences of Unicode scalar values. C# strings are UTF-16, so text outside the Basic Multilingual Plane (surrogate pairs) is not modelled.
- Base64 (Ciphers.cs:319-343) is a wrapper over `Convert.ToBase64String` and `Convert.FromBase64String` and is not modelled.
- `ToUpperInvariant` is modelled for the Latin and Russian letters only; every other character is treated as having no upper-case form.
- `int.TryParse` and `byte.Parse` are modelled for `NumberStyles.Integer`: white space, an optional sign, then decimal digits. Culture-specific signs and trailing NUL characters are not modelled.
- Base32.ToBase32String: the `int` arithmetic `input.Length * 8` and the `StringBuilder` capacity are unbounded here. A byte array long enough to overflow them is not modelled.
- Base32.FromBase32String: `base32.Length * 5` is computed without 32-bit wrap-around, so strings of more than about 429 million characters are not modelled.
- RadioHistory: the random `Frequency` and `DateTime.Now` become parameters of `AddEntry`. `Save`, `Load` and `ExportToFile` (JSON files) and the `Logger` calls are I/O and are left out. `Load`'s effect is the constructor's parameter.
- RadioHistory.History.GetAll: it returns the list itself. `AsReadOnly` gives a live view of the same list, and that aliasing is not modelled. `GetAll` is a plain function of the state, with no contract of its own.
- Caesar with a layout mode: the 4-argument overloads called from the user interface do not exist in `Ciphers.cs`, so they are not modelled. MainForm.cs is not part of this model.
- Signature.cs, HotkeyManager.cs and Logger.cs are not part of this model: hashing, random numbers, operating-system hotkeys and file logging.

## Findings

| source | as written | input that shows it | evidently intended | confidence | as-written member | corrected member |
|---|---|---|---|---|---|---|
| Ciphers.cs:29-51 | the shift is reduced mod 32 for both alphabets, but Latin letters are rotated mod 26, so decryption does not undo encryption | `Caesar(Caesar("a", 1, true), 1, false)` gives `"g"` | reduce the key mod 26 for Latin letters and mod 32 for Russian ones, so decryption undoes encryption | high (proved; not executed) | CaesarCipher.CaesarLatinCounterexample | CaesarCipher.CaesarFixedRoundTrip |
| Ciphers.cs:96-103 | `shift * direction` wraps around: `int.MinValue * -1` is `int.MinValue`, and 2^31 mod 95 is not 0 | `Rot(Rot("A", int.MinValue, true), int.MinValue, false)` gives `";"` | negate the key without overflow, so that decryption undoes encryption for every key | high (proved; not executed) | RotCipher.RotMinValueCounterexample | RotCipher.RotFixedRoundTrip |
| Ciphers.cs:150, 157, 178-181 | `Ъ`, `Ь`, `ъ`, `ь` transliterate to `'`, which has no Morse code, so `MorseMap[...]` throws | `MorseEncode("Ъ")` throws `KeyNotFoundException` | emit `?`, as for any other character without a code | high (proved; not executed) | Morse.EncodeHardSignCounterexample | Morse.MorseEncodeFixedHardSign |
| Ciphers.cs:417-439 | `bitsRemaining` is never 0 after the loop, so a final group is always appended: one character more than the `charCount` capacity when the length is a multiple of 5, and no `=` padding | five bytes give 9 characters, where `charCount` is 8 | the unpadded encoding of section 6 of RFC 4648, with `ceil(8n / 5)` characters | high (proved; not executed) | Base32.EncodingIsRfcPlusA | Base32Rfc.RfcEncode |
| Ciphers.cs:462-477 | `bitsLeft` alternates between 8 and 3, so every pair of characters makes one byte `((v0 & 7) << 5)` or-ed with `v1` instead of the bit stream being cut into bytes | `FromBase32String(ToBase32String([0x66]))` is `FromBase32String("MY")`, which is `[0x98]` | repack the 5-bit values into a continuous bit stream, so that decoding undoes encoding | high (proved; not executed) | Base32.RoundTripFails | Base32Rfc.RfcRoundTrip |
