# NIP-19 key encoding and NIP-01 key checks of `key.go`, in Dafny

This project models the key handling of the Go nostr library `key.go`:

- **Bech32 encoders.** `EncodePrivateKey`, `EncodePublicKey` and `EncodeNote` turn hex into bytes with `hex.DecodeString`. They regroup the bytes from 8 to 5 bits with padding (`bech32.ConvertBits`), then bech32-encode them under the fixed prefix "nsec", "npub" or "note" (`bech32.Encode`).
- **`DecodeBech32`.** It decodes with no length limit (`bech32.DecodeNoLimit`) and regroups the 5-bit values into bytes without padding. Then it dispatches on the prefix:
  - "npub", "nsec" and "note" return the first 32 bytes as lower-case hex, or an error if there are fewer than 32;
  - "nprofile", "nevent" and "naddr" stop the process;
  - any other prefix returns an unknown-tag error together with the prefix and the raw bytes.
- **`IsValidPublicKeyHex`.** A lower-case check, then a check that `hex.DecodeString` yields 32 bytes, with its error ignored.
- **`GeneratePrivateKey`.** Maps a random integer into the secp256k1 scalar range with `k mod (N - 1) + 1` and writes the scalar as hex.

The bech32 package (btcutil's `bech32`) is not part of this model's source text. `ConvertBits`, `Encode` and `DecodeNoLimit` are modelled as BIP-173 specifies them:

- the charset `qpzry9x8gf2tvdw0s3jn54khce6mua7l`;
- the expansion of the human-readable part;
- the BCH checksum `polymod` with the five generators and six checksum groups;
- the reference `convertbits` routine.

Because `DecodeNoLimit` accepts the Bech32m constant of BIP-350 as well, both checksum variants are modelled. Go's `encoding/hex` is modelled with the behaviour `key.go` depends on:

- upper- and lower-case digits are accepted;
- decoding stops at the first bad pair and returns the bytes decoded so far together with the error;
- the odd-length error is reported only after all whole pairs have decoded.

Modules, one per file:

| file | module | contents |
|---|---|---|
| wrappers.dfy | `Wrappers` | `Option` and `Result` |
| bits.dfy | `Bits` | bit strings, `BitsOf`/`ValueOf`, `Flatten`, arithmetic helpers |
| ascii.dfy | `Ascii` | ASCII case classes and `ToLower` |
| hex.dfy | `Hex` | `hex.DecodeString`, `hex.EncodeToString` |
| regroup.dfy | `Regroup` | `bech32.ConvertBits` |
| checksum.dfy | `Checksum` | the BIP-173 checksum over a 30-bit register held as 30 booleans |
| bech32.dfy | `Bech32` | `bech32.Encode`, `EncodeM`, `DecodeNoLimit` |
| key.dfy | `Key`, `KeyProperties` | the functions of `key.go` and their round-trip properties |
| keygen.dfy | `KeyGen` | `GeneratePrivateKey`, with the random draw as a parameter |

Outcomes are values:

- `Result` carries an error tag that keeps its cause;
- `DecodeBech32` yields a `DecodeOutcome`, which is either `Returned(prefix, data, err)` or `Aborted(prefix)` for the `log.Fatalln` calls.

The bech32 rows below cite the `key.go` line that calls into the bech32 package, because the package's own text is not part of this model. The same holds for `encoding/hex`.

## Model

| member | source | states |
|---|---|---|
| Key.EncodePrivateKey | key.go:94-106 | succeeds exactly when the input is valid hex of either case and even length (no length limit); on success the result begins with "nsec1" |
| Key.EncodePublicKey | key.go:109-121 | succeeds exactly when the input is valid hex; on success the result begins with "npub1" |
| Key.EncodeNote | key.go:123-136 | succeeds exactly when the input is valid hex; on success the result begins with "note1" |
| Key.EncodeWithPrefix | key.go:94-106 | the shared encoder: fails exactly on invalid hex, with the hex decoder's own error wrapped, and otherwise returns a string starting with the prefix and "1" |
| Key.PaddedGroups | key.go:100 | padded 8-to-5 regrouping of bytes never fails and yields values below 32 |
| Key.Dispatch | key.go:76-90 | keeps the prefix; aborts exactly for a successful regrouping under nprofile/nevent/naddr; a result without error has a bare prefix and 64 lower-case hex digits |
| Key.DecodeBech32 | key.go:64-91 | a bech32 failure gives ("", "", that error); otherwise the prefix is the decoded human-readable part; an abort has a TLV prefix; a result without error is 64 lower-case hex digits under npub/nsec/note |
| Key.BytesAsString | key.go:90 | Go's `string(data)`: one character per byte with that byte as its code |
| Key.IsValidPublicKeyHex | key.go:55-61 | true exactly when the string has no upper-case letter and its leading run of hex digits is exactly 64 or 65 long, so the next character, if any, is not a hex digit; whatever comes after that is ignored |
| Key.IsValidPublicKeyHexStrict | key.go:55-61 | corrected check: true exactly when the string is 64 characters, all hex digits and none upper case |
| KeyProperties.DecodeOfGroups | key.go:66-76 | decoding the bech32 or bech32m string of any 5-bit groups under any printable prefix is the dispatch on the lower-cased prefix and the unpadded regrouping of those groups |
| KeyProperties.DecodedIsEncoding | key.go:64-91 | every string, of either case and either checksum variant, that passes the bech32 stage is in lower case the encoding of the prefix and groups it decodes to, and `DecodeBech32` treats it exactly as its lower-case form, so `DecodeOfGroups` describes its result |
| KeyProperties.DecodeBech32Lower | key.go:64-69 | a string that passes the bech32 stage, upper-case ones included, gets the same prefix, data and error as its lower-case form |
| KeyProperties.EncodedBytesDispatch | key.go:66-81 | under npub, nsec or note, the bech32 or bech32m string of the padded groups of any bytes decodes to the dispatch on exactly those bytes |
| KeyProperties.KeyRoundTrip | key.go:64-106 | for every valid hex under npub/nsec/note the encoder succeeds; decoding gives the prefix and the first 64 digits in lower case, or the length error carrying the byte count when there are fewer than 32 bytes |
| KeyProperties.LeadingBytes | key.go:81 | re-encoding the first 32 decoded bytes of a long hex string gives its first 64 digits in lower case |
| KeyProperties.PublicKeyRoundTrip | key.go:109-121 | for 64 hex digits, decoding the "npub" encoding returns "npub", the digits in lower case and no error |
| KeyProperties.PrivateKeyRoundTrip | key.go:94-106 | for 64 hex digits, decoding the "nsec" encoding returns "nsec", the digits in lower case and no error |
| KeyProperties.NoteRoundTrip | key.go:123-136 | for 64 hex digits, decoding the "note" encoding returns "note", the digits in lower case and no error |
| KeyProperties.DecodeReencodes | key.go:64-81 | a successful decode is a fixed point: re-encoding its data under its prefix decodes to the same triple |
| KeyProperties.TlvKindAborts | key.go:82-87 | any payload that regroups under nprofile, nevent or naddr stops the process, with either checksum variant |
| KeyProperties.UnknownTagKeepsPayload | key.go:90 | any other prefix, with either checksum variant, returns the lower-cased prefix, the payload bytes as a string and the unknown-tag error |
| KeyProperties.RegroupFailureKeepsPrefix | key.go:71-74 | when the 5-to-8 regrouping fails, the prefix is still returned, with empty data and the regrouping error, with either checksum variant |
| KeyProperties.StrictImpliesLax | key.go:55-61 | every string the corrected check accepts, the check as written accepts |
| KeyProperties.StrictAcceptsEncodedKeys | key.go:55-61 | the lower-case hex of any 32 bytes passes the corrected check and decodes back to those bytes without error |
| KeyProperties.StrictIsEncoding | key.go:55-61 | every string the corrected check accepts is the hex encoding of the 32 bytes it decodes to |
| KeyProperties.TrailingJunkAccepted | key.go:59-60 | 64 '0' digits followed by 'x' pass the check as written and fail the corrected one |
| KeyGen.BigEndian | key.go:35 | `SetBytes`: the value of n bytes is below 256^n |
| KeyGen.Scalar | key.go:35-38 | `k mod (N - 1) + 1` lies in [1, N - 1] for every drawn k |
| KeyGen.ScalarOnto | key.go:36-38 | every value in [1, N - 1] is the scalar of some draw, so the range is covered exactly |
| KeyGen.MinimalBytes | key.go:40 | `big.Int.Bytes`: big-endian bytes whose value is k; empty exactly for 0; no leading zero byte |
| KeyGen.MinimalOfBigEndian | key.go:40 | a byte string without a leading zero byte is the minimal encoding of its own value |
| KeyGen.MinimalLength | key.go:40 | a value below 256^n has at most n minimal bytes |
| KeyGen.GeneratePrivateKey | key.go:26-41 | a failed read gives ""; otherwise lower-case hex of 2 to 64 digits whose bytes have a non-zero first byte and denote the scalar of the draw |
| KeyGen.ZeroDrawGivesShortKey | key.go:35-40 | the all-zero draw of 40 bytes gives the key "01" |
| KeyGen.ShortKeyRejected | key.go:77-79 | "01" encodes as an nsec string, but that string decodes to the length error for 1 byte |
| KeyGen.GeneratePrivateKeyFixed | key.go:26-41 | corrected generator: 64 lower-case hex digits denoting the same scalar |
| KeyGen.FixedPadsMinimal | key.go:40 | the corrected generator's output is the output as written with '0' digits in front up to 64 |
| KeyGen.ZeroDrawFixedKey | key.go:35-40 | for the all-zero draw the corrected generator gives 62 '0' digits then "01" |
| KeyGen.FixedKeyRoundTrip | key.go:94-106 | every key from the corrected generator survives nsec encoding and decoding unchanged |
| Hex.DigitRun | key.go:59 | the length of the leading run of hex digits: every character before it is a digit, the one at it is not |
| Hex.EncodeToString | key.go:81 | two characters per byte, each a digit that is not upper case |
| Hex.EncodeConcat | key.go:81 | encoding distributes over concatenation of byte strings |
| Hex.EncodeInjective | key.go:81 | different byte strings have different encodings |
| Hex.DecodeString | key.go:95 | yields half the leading digit run, rounded down, as bytes that re-encode to that prefix in lower case; no error exactly for valid hex; the length error exactly for an odd all-digit string; otherwise the error names the first non-digit |
| Hex.DecodeEncode | key.go:40 | decoding an encoding gives the bytes back with no error |
| Hex.EncodeDecode | key.go:95 | valid hex is the encoding of its decoding, up to case |
| Regroup.ConvertBits | key.go:100 | widths outside 1..8 fail; padded: succeeds exactly when every input fits, and the output bits are the input bits plus the fewest zero bits that fill a group; unpadded: succeeds exactly when the inputs fit and the dropped tail is shorter than one input unit and all zero, and the output bits are the input bits up to the last whole group |
| Regroup.Feed | key.go:100 | feeding units through the accumulator succeeds exactly when all fit, and the emitted and pending bits are the input bits in order |
| Regroup.PadBits | key.go:100 | the padding is below one group and completes a whole number of groups |
| Regroup.BytesRoundTrip | key.go:100 | bytes regrouped 8-to-5 with padding regroup 5-to-8 without padding into the same bytes |
| Regroup.DroppedTail | key.go:71 | an unpadded 5-to-8 regrouping drops fewer than five bits, all zero |
| Regroup.GroupsRoundTrip | key.go:71 | 5-bit groups that regroup unpadded into some bytes are exactly the padded regrouping of those bytes |
| Checksum.HrpExpand | key.go:105 | the expanded prefix has 2n + 1 values, all below 32 |
| Checksum.CreateChecksum | key.go:105 | six values below 32 |
| Checksum.VerifyChecksum | key.go:66 | names the variant whose constant the register ends at, and none exactly when it ends at neither |
| Checksum.PolymodFromConcat | key.go:105 | the register after two runs of values is the register after the first, continued by the second |
| Checksum.FoldDiff | key.go:105 | up to six values fed after a register differ from as many zeros fed after it by exactly their bits |
| Checksum.ChecksumVerifies | key.go:105 | data followed by its created checksum verifies, as the variant it was created for |
| Checksum.ChecksumUnique | key.go:66 | the created checksum is the only six values that make the data verify as that variant |
| Bech32.CharValue | key.go:66 | a character has a value exactly when it is in the charset, and that value indexes it |
| Bech32.ToValues | key.go:66 | succeeds exactly when every character is in the charset, with values that spell the string back; otherwise the error names a character outside the charset |
| Bech32.ValuesOfChars | key.go:105 | reading back the characters of any values below 32 gives the values |
| Bech32.ScanFrom | key.go:66 | the scan succeeds exactly when every character is printable and the case is not mixed, and reports whether an upper-case letter occurs |
| Bech32.LastIndex | key.go:66 | the last position holding the character, or -1 when there is none |
| Bech32.FirstWide | key.go:105 | the first value of 32 or more, or none exactly when all are below 32 |
| Bech32.EncodeWith | key.go:105 | succeeds exactly when every value is below 32, else names the first that is not; the result is the lower-cased prefix, '1', one charset character per value and six checksum characters |
| Bech32.DecodeNoLimit | key.go:66 | fewer than 8 characters fail with the length error; success implies printable characters without mixed case |
| Bech32.DecodeLowered | key.go:66 | success splits the string at a '1' after a non-empty prefix, with values below 32 and six checksum characters after them |
| Bech32.EncodeDecode | key.go:105 | decoding an encoding gives the lower-cased prefix and the data, with either checksum variant |
| Bech32.DecodeNoLimitLower | key.go:66 | a printable string without mixed case, an all-upper-case one in particular, decodes exactly as its lower-case form |
| Bech32.DecodeEncode | key.go:66 | a string that decodes is, in lower case, the Bech32 or Bech32m encoding of what it decodes to |

## Left out

- `GetPublicKey` (key.go:44-52): scalar multiplication on secp256k1 and x-only serialization are library calls outside this model.
- The random source: `GeneratePrivateKey` takes the draw as an `Option<seq<byte>>`, with `None` for a failed `io.ReadFull`. Contracts hold for draws of any length; the source always draws 40 bytes (`DrawLength`).
- `log.Fatalln`: the logging and process exit are the outcome `Aborted(prefix)`, with no message.
- Error messages: errors are tags (`KeyError`, `HexError`, `RegroupError`, `Bech32Error`) that keep the value the message would print, not the text. The bech32 checksum error does not carry the expected checksum.
- The constants `Prefix`, `UriPub`, `UriProfile` and `UriEvent` (key.go:17-23) are not used by the modelled functions.
- Key.IsValidPublicKeyHex: requires an ASCII string, because `strings.ToLower` is modelled for ASCII letters only; Unicode case mapping is not modelled.
- Strings are sequences of characters, not UTF-8 bytes. For non-ASCII input, the byte length Go checks and the byte it names in `InvalidCharacter` or `InvalidByteError` differ from the character counts and characters here.
- Regroup.ConvertBits: follows the BIP-173 reference routine, which refuses an input unit wider than `from` bits. btcutil's version may treat such units differently. Both call shapes in `key.go` only pass units that fit: bytes 8-to-5, and decoded values below 32 5-to-8.
- The five generator constants and the Bech32m constant are written out bit by bit, each beside its hexadecimal value; no lemma ties the bits to the numbers.
- Key.EncodeWithPrefix, Key.EncodePrivateKey, Key.EncodePublicKey, Key.EncodeNote: the success case states the prefix and separator at the head of the output and not the whole string. The full output is stated by KeyProperties.KeyRoundTrip and Bech32.EncodeWith.
- Bech32.DecodeNoLimit: its own contract states only the length error and the character conditions of success. The full behaviour is stated by Bech32.DecodeEncode and Bech32.EncodeDecode.
- Composite identifiers (TLV payloads): the code has no encoder or decoder for them. Their prefixes only stop the process, and that is what is modelled.

## Behaviour of the code

- The encoders accept hex of any even length. No 32-byte check is made, so a short payload is only rejected when it is decoded (KeyProperties.KeyRoundTrip).
- The composite prefixes call `log.Fatalln` instead of returning an error.
- `IsValidPublicKeyHex` does not require exactly 64 characters (first finding below).
- The generated private key is not always 32 bytes (second finding below).

## Findings

| source | as written | input that shows it | evidently intended | confidence | as-written member | corrected member |
|---|---|---|---|---|---|---|
| key.go:59-60 | the error of `hex.DecodeString` is discarded, so a string with no upper-case letter whose leading run of hex digits is exactly 64 or 65 long passes, whatever follows the first non-digit | 64 '0' digits followed by "x" | exactly 64 lower-case hex digits, that is, 32 bytes | not executed | KeyProperties.TrailingJunkAccepted | Key.IsValidPublicKeyHexStrict |
| key.go:40 | `k.Bytes()` drops leading zero bytes, so a scalar below 256^31 is written with fewer than 64 digits, and its nsec encoding decodes to the too-short error | the all-zero 40-byte draw, giving "01" | always 32 bytes, 64 digits | not executed | KeyGen.ZeroDrawGivesShortKey | KeyGen.GeneratePrivateKeyFixed |
