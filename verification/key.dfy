/**
 * NIP-19 bech32 encoding of keys and note ids, and the public-key hex check
 * of NIP-01, as `key.go` implements them.
 */
module Key {
  import opened Wrappers
  import opened Bits
  import opened Ascii
  import opened Hex
  import opened Regroup
  import opened Bech32

  /** The prefixes whose payload is a bare 32-byte value. */
  predicate IsBareKind(prefix: string) {
    prefix == "npub" || prefix == "nsec" || prefix == "note"
  }

  /** The prefixes whose TLV payload `DecodeBech32` does not implement. */
  predicate IsTlvKind(prefix: string) {
    prefix == "nprofile" || prefix == "nevent" || prefix == "naddr"
  }

  /** The errors `key.go` returns, as tags; each keeps what caused it. */
  datatype KeyError =
    | HexFailed(hexCause: HexError)           // "failed to decode ... hex"
    | Bech32Failed(bech32Cause: Bech32Error)   // the bech32 package's own error
    | RegroupFailed(regroupCause: RegroupError)   // "failed translating data into 8 bits"
    | DataTooShort(length: nat)            // "data is less than 32 bytes (%d)"
    | UnknownTag(prefix: string)           // "unknown tag %s"

  /**
   * What `DecodeBech32` does: return its three results, or stop the process
   * through `log.Fatalln`.
   */
  datatype DecodeOutcome =
    | Returned(prefix: string, data: string, err: Option<KeyError>)
    | Aborted(prefix: string)

  /** Go's `string(data)`: each byte as the character with that code. */
  function BytesAsString(bytes: seq<byte>): (s: string)
    ensures |s| == |bytes| && forall i :: 0 <= i < |s| ==> s[i] as int == bytes[i]
  {
    seq(|bytes|, i requires 0 <= i < |bytes| => bytes[i] as char)
  }

  /** The dispatch of `DecodeBech32` on the prefix, once the 5-to-8 regrouping is known. */
  function Dispatch(prefix: string, regrouped: Result<seq<byte>, RegroupError>): (r: DecodeOutcome)
    ensures r.prefix == prefix
    ensures r.Aborted? <==> regrouped.Success? && IsTlvKind(prefix)
    ensures r.Returned? && r.err == None ==>
              IsBareKind(prefix) && |r.data| == 64 && IsHexString(r.data) && !HasUpper(r.data)
  {
    match regrouped
    case Failure(e) => Returned(prefix, "", Some(RegroupFailed(e)))
    case Success(data) =>
      if IsBareKind(prefix) then
        if |data| < 32 then Returned(prefix, "", Some(DataTooShort(|data|)))
        else
          var h := EncodeToString(data[..32]);
          assert forall i :: 0 <= i < |h| ==> !IsUpper(h[i]);
          Returned(prefix, h, None)
      else if IsTlvKind(prefix) then Aborted(prefix)
      else Returned(prefix, BytesAsString(data), Some(UnknownTag(prefix)))
  }

  /**
   * `DecodeBech32`: decode with no length limit, regroup the 5-bit values
   * into bytes without padding, then dispatch on the prefix. A bech32 error
   * loses the prefix; a regrouping error keeps it.
   */
  function DecodeBech32(s: string): (r: DecodeOutcome)
    ensures DecodeNoLimit(s).Failure? ==> r == Returned("", "", Some(Bech32Failed(DecodeNoLimit(s).error)))
    ensures DecodeNoLimit(s).Success? ==> r.prefix == DecodeNoLimit(s).value.0
    ensures r.Aborted? ==> IsTlvKind(r.prefix)
    ensures r.Returned? && r.err == None ==>
              IsBareKind(r.prefix) && |r.data| == 64 && IsHexString(r.data) && !HasUpper(r.data)
  {
    match DecodeNoLimit(s)
    case Failure(e) => Returned("", "", Some(Bech32Failed(e)))
    case Success((prefix, bits5)) => Dispatch(prefix, ConvertBits(bits5, 5, 8, false))
  }

  /** The bare prefixes are already lower case, so bech32 keeps them as they are. */
  lemma BareKindLower(hrp: string)
    requires IsBareKind(hrp)
    ensures IsAscii(hrp) && ToLower(hrp) == hrp
  {
    assert forall i :: 0 <= i < |hrp| ==> 'a' <= hrp[i] <= 'z';
    ToLowerFixed(hrp);
  }

  /** Regrouping bytes into padded 5-bit groups cannot fail, and every group is below 32. */
  lemma PaddedGroups(bytes: seq<byte>)
    ensures ConvertBits(bytes, 8, 5, true).Success?
    ensures Below(ConvertBits(bytes, 8, 5, true).value, 32)
  {
    BytesRoundTrip(bytes);
    Pow2Widths();
  }

  /**
   * The shared body of the three encoders: hex to bytes, bytes to padded
   * 5-bit groups, bech32 under `hrp`.
   */
  function EncodeWithPrefix(hrp: string, hex: string): (r: Result<string, KeyError>)
    requires IsBareKind(hrp)
    ensures r.Success? <==> IsHexString(hex)
    ensures r.Failure? ==> r.error == HexFailed(DecodeString(hex).err.value)
    ensures r.Success? ==> hrp + "1" <= r.value
  {
    var decoded := DecodeString(hex);
    if decoded.err.Some? then Failure(HexFailed(decoded.err.value))
    else
      BareKindLower(hrp);
      PaddedGroups(decoded.bytes);
      match ConvertBits(decoded.bytes, 8, 5, true)
      case Failure(e) => Failure(RegroupFailed(e))
      case Success(bits5) =>
        match Encode(hrp, bits5)
        case Failure(e) => Failure(Bech32Failed(e))
        case Success(s) => Success(s)
  }

  /** `EncodePrivateKey`: a hex private key as an "nsec1…" string. */
  function EncodePrivateKey(privateKeyHex: string): (r: Result<string, KeyError>)
    ensures r.Success? <==> IsHexString(privateKeyHex)
    ensures r.Success? ==> "nsec1" <= r.value
  {
    EncodeWithPrefix("nsec", privateKeyHex)
  }

  /** `EncodePublicKey`: a hex public key as an "npub1…" string. */
  function EncodePublicKey(publicKeyHex: string): (r: Result<string, KeyError>)
    ensures r.Success? <==> IsHexString(publicKeyHex)
    ensures r.Success? ==> "npub1" <= r.value
  {
    EncodeWithPrefix("npub", publicKeyHex)
  }

  /** `EncodeNote`: a hex event id as a "note1…" string. */
  function EncodeNote(eventIdHex: string): (r: Result<string, KeyError>)
    ensures r.Success? <==> IsHexString(eventIdHex)
    ensures r.Success? ==> "note1" <= r.value
  {
    EncodeWithPrefix("note", eventIdHex)
  }

  /**
   * `IsValidPublicKeyHex`: no upper-case letter, and the bytes
   * `hex.DecodeString` yields before any error number 32; that is, the
   * string opens with 64 or 65 hexadecimal digits, whatever follows.
   */
  function IsValidPublicKeyHex(pk: string): (r: bool)
    requires IsAscii(pk)
    ensures r <==> !HasUpper(pk) && (DigitRun(pk) == 64 || DigitRun(pk) == 65)
  {
    ToLowerFixed(pk);
    if ToLower(pk) != pk then false
    else |DecodeString(pk).bytes| == 32
  }
  /**
   * The check `IsValidPublicKeyHex` evidently means, with the decoding error
   * taken into account: exactly 64 lower-case hexadecimal digits.
   */
  function IsValidPublicKeyHexStrict(pk: string): (r: bool)
    ensures r <==> |pk| == 64 && forall i :: 0 <= i < |pk| ==> IsDigit(pk[i]) && !IsUpper(pk[i])
  {
    ToLowerFixed(pk);
    if ToLower(pk) != pk then false
    else
      var decoded := DecodeString(pk);
      decoded.err == None && |decoded.bytes| == 32
  }
}

/** Properties of the NIP-19 and NIP-01 key functions. */
module KeyProperties {
  import opened Wrappers
  import opened Bits
  import opened Ascii
  import opened Hex
  import opened Regroup
  import opened Bech32
  import opened Key
  import Checksum

  /**
   * Decoding a bech32 or bech32m string built from any groups under any
   * prefix reduces to the prefix dispatch on the unpadded regrouping of
   * those groups.
   */
  lemma DecodeOfGroups(hrp: string, groups: seq<byte>, v: Checksum.Version)
    requires 1 <= |hrp| && AllPrintable(hrp) && Below(groups, 32)
    ensures IsAscii(hrp) && EncodeWith(hrp, groups, v).Success?
    ensures DecodeBech32(EncodeWith(hrp, groups, v).value) == Dispatch(ToLower(hrp), ConvertBits(groups, 5, 8, false))
  {
    PrintableAscii(hrp);
    Bech32.EncodeDecode(hrp, groups, v);
  }

  /**
   * Every string `DecodeBech32` gets past the bech32 stage with is, in lower
   * case, the bech32 or bech32m encoding of its prefix and groups, and is
   * decoded exactly as that encoding is; so `DecodeOfGroups` describes it.
   */
  lemma DecodedIsEncoding(s: string) returns (v: Checksum.Version)
    requires DecodeNoLimit(s).Success?
    ensures var (hrp, groups) := DecodeNoLimit(s).value;
            && 1 <= |hrp| && AllPrintable(hrp) && Below(groups, 32) && IsAscii(hrp)
            && EncodeWith(hrp, groups, v) == Success(ToLower(s))
            && DecodeBech32(s) == DecodeBech32(ToLower(s))
  {
    DecodedPrefix(s);
    DecodeBech32Lower(s);
    Bech32.DecodeEncode(s);
    if Encode(DecodeNoLimit(s).value.0, DecodeNoLimit(s).value.1) == Success(ToLower(s)) {
      v := Checksum.Version0;
    } else {
      v := Checksum.Version0m;
    }
  }

  /** `DecodeBech32` does not tell a string that decodes from its lower-case form. */
  lemma DecodeBech32Lower(s: string)
    requires DecodeNoLimit(s).Success?
    ensures DecodeBech32(s) == DecodeBech32(ToLower(s))
  {
    DecodeNoLimitLower(s);
  }

  /** An encoder's output is the bech32 string of the padded regrouping of the hex's bytes. */
  lemma EncoderOutput(hrp: string, hex: string)
    requires IsBareKind(hrp) && IsHexString(hex)
    ensures IsAscii(hrp) && ConvertBits(DecodeString(hex).bytes, 8, 5, true).Success?
    ensures Encode(hrp, ConvertBits(DecodeString(hex).bytes, 8, 5, true).value).Success?
    ensures EncodeWithPrefix(hrp, hex) == Success(Encode(hrp, ConvertBits(DecodeString(hex).bytes, 8, 5, true).value).value)
  {
    BareKindLower(hrp);
    PaddedGroups(DecodeString(hex).bytes);
  }

  /**
   * The bytes behind an encoder's output, or behind the bech32m string of the
   * same groups, come back from `DecodeBech32`'s regrouping.
   */
  lemma EncodedBytesDispatch(hrp: string, bytes: seq<byte>, v: Checksum.Version)
    requires IsBareKind(hrp)
    ensures IsAscii(hrp) && ConvertBits(bytes, 8, 5, true).Success?
    ensures EncodeWith(hrp, ConvertBits(bytes, 8, 5, true).value, v).Success?
    ensures DecodeBech32(EncodeWith(hrp, ConvertBits(bytes, 8, 5, true).value, v).value) == Dispatch(hrp, Success(bytes))
  {
    BareKindLower(hrp);
    PaddedGroups(bytes);
    assert forall i :: 0 <= i < |hrp| ==> Printable(hrp[i]);
    DecodeOfGroups(hrp, ConvertBits(bytes, 8, 5, true).value, v);
    BytesRoundTrip(bytes);
  }

  /** The first 32 bytes of a long hex string, re-encoded, are its first 64 digits in lower case. */
  lemma LeadingBytes(hex: string)
    requires IsHexString(hex) && |hex| >= 64
    ensures |DecodeString(hex).bytes| >= 32
    ensures EncodeToString(DecodeString(hex).bytes[..32]) == ToLower(hex[..64])
  {
    var bytes := DecodeString(hex).bytes;
    Hex.EncodeDecode(hex);
    EncodeConcat(bytes[..32], bytes[32..]);
    assert bytes == bytes[..32] + bytes[32..];
    ToLowerConcat(hex[..64], hex[64..]);
    assert hex == hex[..64] + hex[64..];
    var left := EncodeToString(bytes[..32]);
    assert EncodeToString(bytes) == left + EncodeToString(bytes[32..]);
    assert ToLower(hex) == ToLower(hex[..64]) + ToLower(hex[64..]);
    assert left == EncodeToString(bytes)[..64];
  }

  /**
   * Every encoder output decodes back to the same prefix: to the first 32
   * bytes in lower-case hex, or to a length error when fewer bytes were
   * encoded.
   */
  lemma KeyRoundTrip(hrp: string, hex: string)
    requires IsBareKind(hrp) && IsHexString(hex)
    ensures EncodeWithPrefix(hrp, hex).Success?
    ensures DecodeBech32(EncodeWithPrefix(hrp, hex).value) ==
              if |hex| < 64 then Returned(hrp, "", Some(DataTooShort(|hex| / 2)))
              else Returned(hrp, ToLower(hex[..64]), None)
  {
    var bytes := DecodeString(hex).bytes;
    EncoderOutput(hrp, hex);
    EncodedBytesDispatch(hrp, bytes, Checksum.Version0);
    HexLength(hex);
    DispatchBare(hrp, bytes);
    if |hex| >= 64 {
      LeadingBytes(hex);
    }
  }

  /** A bare prefix returns the first 32 bytes as hex, or a length error. */
  lemma DispatchBare(hrp: string, bytes: seq<byte>)
    requires IsBareKind(hrp)
    ensures Dispatch(hrp, Success(bytes)) ==
              if |bytes| < 32 then Returned(hrp, "", Some(DataTooShort(|bytes|)))
              else Returned(hrp, EncodeToString(bytes[..32]), None)
  {
  }

  lemma HexLength(hex: string)
    requires IsHexString(hex)
    ensures |DecodeString(hex).bytes| == |hex| / 2
  {
    assert DecodeString(hex).err == None;
  }

  /** A 64-digit hex string comes back whole, in lower case. */
  lemma FullKeyRoundTrip(hrp: string, hex: string)
    requires IsBareKind(hrp) && IsHexString(hex) && |hex| == 64
    ensures EncodeWithPrefix(hrp, hex).Success?
    ensures DecodeBech32(EncodeWithPrefix(hrp, hex).value) == Returned(hrp, ToLower(hex), None)
  {
    KeyRoundTrip(hrp, hex);
    assert hex[..64] == hex;
  }

  /** NIP-19 round trip for public keys: "npub" and the key in lower-case hex. */
  lemma PublicKeyRoundTrip(publicKeyHex: string)
    requires IsHexString(publicKeyHex) && |publicKeyHex| == 64
    ensures EncodePublicKey(publicKeyHex).Success?
    ensures DecodeBech32(EncodePublicKey(publicKeyHex).value) == Returned("npub", ToLower(publicKeyHex), None)
  {
    FullKeyRoundTrip("npub", publicKeyHex);
    assert EncodePublicKey(publicKeyHex) == EncodeWithPrefix("npub", publicKeyHex);
  }

  /** NIP-19 round trip for private keys: "nsec" and the key in lower-case hex. */
  lemma PrivateKeyRoundTrip(privateKeyHex: string)
    requires IsHexString(privateKeyHex) && |privateKeyHex| == 64
    ensures EncodePrivateKey(privateKeyHex).Success?
    ensures DecodeBech32(EncodePrivateKey(privateKeyHex).value) == Returned("nsec", ToLower(privateKeyHex), None)
  {
    FullKeyRoundTrip("nsec", privateKeyHex);
    assert EncodePrivateKey(privateKeyHex) == EncodeWithPrefix("nsec", privateKeyHex);
  }

  /** NIP-19 round trip for event ids: "note" and the id in lower-case hex. */
  lemma NoteRoundTrip(eventIdHex: string)
    requires IsHexString(eventIdHex) && |eventIdHex| == 64
    ensures EncodeNote(eventIdHex).Success?
    ensures DecodeBech32(EncodeNote(eventIdHex).value) == Returned("note", ToLower(eventIdHex), None)
  {
    FullKeyRoundTrip("note", eventIdHex);
    assert EncodeNote(eventIdHex) == EncodeWithPrefix("note", eventIdHex);
  }

  /**
   * A successful decode is a fixed point: encoding the decoded hex under the
   * decoded prefix and decoding again gives the same answer.
   */
  lemma DecodeReencodes(s: string, prefix: string, data: string)
    requires DecodeBech32(s) == Returned(prefix, data, None)
    ensures IsBareKind(prefix) && EncodeWithPrefix(prefix, data).Success?
    ensures DecodeBech32(EncodeWithPrefix(prefix, data).value) == Returned(prefix, data, None)
  {
    ReencodeValid(prefix, data);
  }

  lemma ReencodeValid(prefix: string, data: string)
    requires IsBareKind(prefix) && |data| == 64 && IsHexString(data) && !HasUpper(data)
    ensures EncodeWithPrefix(prefix, data).Success?
    ensures DecodeBech32(EncodeWithPrefix(prefix, data).value) == Returned(prefix, data, None)
  {
    FullKeyRoundTrip(prefix, data);
    ToLowerFixed(data);
  }

  lemma TlvKindLower(hrp: string)
    requires IsTlvKind(hrp)
    ensures 1 <= |hrp| && AllPrintable(hrp) && ToLower(hrp) == hrp
  {
    assert forall i :: 0 <= i < |hrp| ==> Printable(hrp[i]) && 'a' <= hrp[i] <= 'z';
    ToLowerFixed(hrp);
  }

  /** The TLV prefixes stop the process whenever their payload regroups into bytes. */
  lemma TlvKindAborts(hrp: string, bytes: seq<byte>, v: Checksum.Version)
    requires IsTlvKind(hrp)
    ensures IsAscii(hrp) && ConvertBits(bytes, 8, 5, true).Success?
    ensures EncodeWith(hrp, ConvertBits(bytes, 8, 5, true).value, v).Success?
    ensures DecodeBech32(EncodeWith(hrp, ConvertBits(bytes, 8, 5, true).value, v).value) == Aborted(hrp)
  {
    TlvKindLower(hrp);
    PaddedGroups(bytes);
    BytesRoundTrip(bytes);
    DecodeOfGroups(hrp, ConvertBits(bytes, 8, 5, true).value, v);
  }

  /**
   * Any other prefix yields an unknown-tag error together with the prefix
   * and the payload bytes as a string.
   */
  lemma UnknownTagKeepsPayload(hrp: string, bytes: seq<byte>, v: Checksum.Version)
    requires 1 <= |hrp| && AllPrintable(hrp)
    requires !IsBareKind(ToLower(hrp)) && !IsTlvKind(ToLower(hrp))
    ensures IsAscii(hrp) && ConvertBits(bytes, 8, 5, true).Success?
    ensures EncodeWith(hrp, ConvertBits(bytes, 8, 5, true).value, v).Success?
    ensures DecodeBech32(EncodeWith(hrp, ConvertBits(bytes, 8, 5, true).value, v).value) ==
              Returned(ToLower(hrp), BytesAsString(bytes), Some(UnknownTag(ToLower(hrp))))
  {
    PaddedGroups(bytes);
    BytesRoundTrip(bytes);
    DecodeOfGroups(hrp, ConvertBits(bytes, 8, 5, true).value, v);
  }

  /** A payload that does not regroup cleanly into bytes still reports its prefix. */
  lemma RegroupFailureKeepsPrefix(hrp: string, groups: seq<byte>, v: Checksum.Version)
    requires 1 <= |hrp| && AllPrintable(hrp) && Below(groups, 32)
    requires ConvertBits(groups, 5, 8, false).Failure?
    ensures IsAscii(hrp) && EncodeWith(hrp, groups, v).Success?
    ensures DecodeBech32(EncodeWith(hrp, groups, v).value) ==
              Returned(ToLower(hrp), "", Some(RegroupFailed(ConvertBits(groups, 5, 8, false).error)))
  {
    DecodeOfGroups(hrp, groups, v);
  }

  /** Every string the strict check accepts, the check as written accepts too. */
  lemma StrictImpliesLax(pk: string)
    requires IsValidPublicKeyHexStrict(pk)
    ensures IsAscii(pk) && IsValidPublicKeyHex(pk)
  {
    assert forall i :: 0 <= i < |pk| ==> (pk[i] as int) < 128 by {
      forall i | 0 <= i < |pk|
        ensures (pk[i] as int) < 128
      {
        LowerOfDigitValue(pk[i]);
      }
    }
  }

  /**
   * The strict check accepts exactly the lower-case hex of 32 bytes: every
   * such encoding passes and decodes back to its bytes, and every string that
   * passes is the encoding of what it decodes to.
   */
  lemma StrictAcceptsEncodedKeys(bytes: seq<byte>)
    requires |bytes| == 32
    ensures IsValidPublicKeyHexStrict(EncodeToString(bytes))
    ensures DecodeString(EncodeToString(bytes)) == Decoded(bytes, None)
  {
    Hex.DecodeEncode(bytes);
  }

  lemma StrictIsEncoding(pk: string)
    requires IsValidPublicKeyHexStrict(pk)
    ensures |DecodeString(pk).bytes| == 32 && EncodeToString(DecodeString(pk).bytes) == pk
  {
    Hex.EncodeDecode(pk);
    ToLowerFixed(pk);
  }

  /**
   * As written, the check accepts 64 zero digits followed by 'x', because the
   * error `hex.DecodeString` reports for the 'x' is dropped; the strict
   * check refuses it.
   */
  lemma TrailingJunkAccepted()
    ensures var pk := seq(64, i => '0') + "x";
            IsAscii(pk) && IsValidPublicKeyHex(pk) && !IsValidPublicKeyHexStrict(pk)
  {
    var pk := seq(64, i => '0') + "x";
    assert IsDigit('0') && !IsDigit('x');
    assert forall i :: 0 <= i < 64 ==> pk[i] == '0';
    assert pk[64] == 'x';
    var n := DigitRun(pk);
    assert n == 64;
    assert !HasUpper(pk) by {
      assert forall i :: 0 <= i < |pk| ==> !IsUpper(pk[i]);
    }
  }
}
