/**
 * Bech32 strings (BIP-173, and BIP-350 for the Bech32m checksum) as btcutil's
 * bech32 package writes and reads them: `Encode`, `EncodeM` and
 * `DecodeNoLimit`, the variant of `Decode` without the 90-character limit.
 */
module Bech32 {
  import opened Wrappers
  import opened Bits
  import opened Ascii
  import opened Checksum

  /** The 32 data characters; a character stands for its position. */
  const Charset: string := "qpzry9x8gf2tvdw0s3jn54khce6mua7l"

  datatype Bech32Error =
    | InvalidLength(length: nat)         // fewer than eight characters
    | InvalidCharacter(c: char)          // a character outside '!'..'~'
    | MixedCase                          // both upper- and lower-case letters
    | InvalidSeparatorIndex(index: int)  // the last '1' leaves no prefix or too short a tail
    | NonCharsetChar(c: char)            // a data character outside the charset
    | InvalidChecksum                    // neither checksum variant holds
    | InvalidDataByte(value: byte)       // a value to encode that needs more than five bits

  predicate Printable(c: char) {
    33 <= c as int <= 126
  }

  predicate AllPrintable(s: string) {
    forall i :: 0 <= i < |s| ==> Printable(s[i])
  }

  /** The position of each charset character, spelled out, as a proof device for distinctness. */
  function Rank(c: char): int {
    match c
    case 'q' => 0
    case 'p' => 1
    case 'z' => 2
    case 'r' => 3
    case 'y' => 4
    case '9' => 5
    case 'x' => 6
    case '8' => 7
    case 'g' => 8
    case 'f' => 9
    case '2' => 10
    case 't' => 11
    case 'v' => 12
    case 'd' => 13
    case 'w' => 14
    case '0' => 15
    case 's' => 16
    case '3' => 17
    case 'j' => 18
    case 'n' => 19
    case '5' => 20
    case '4' => 21
    case 'k' => 22
    case 'h' => 23
    case 'c' => 24
    case 'e' => 25
    case '6' => 26
    case 'm' => 27
    case 'u' => 28
    case 'a' => 29
    case '7' => 30
    case 'l' => 31
    case _ => -1
  }

  lemma RankOfCharset()
    ensures forall i :: 0 <= i < |Charset| ==> Rank(Charset[i]) == i
  {
  }

  lemma CharsetDistinct()
    ensures forall i, j :: 0 <= i < j < |Charset| ==> Charset[i] != Charset[j]
  {
    RankOfCharset();
  }

  /** Every ranked character is printable, not upper case and not the separator. */
  lemma RankedChar(c: char)
    requires Rank(c) >= 0
    ensures Printable(c) && !IsUpper(c) && c != '1'
  {
  }

  lemma CharsetPrintable()
    ensures AllPrintable(Charset)
  {
    RankOfCharset();
    forall i | 0 <= i < |Charset| ensures Printable(Charset[i]) {
      RankedChar(Charset[i]);
    }
  }

  lemma CharsetLower()
    ensures '1' !in Charset && forall i :: 0 <= i < |Charset| ==> !IsUpper(Charset[i])
  {
    RankOfCharset();
    forall i | 0 <= i < |Charset| ensures !IsUpper(Charset[i]) && Charset[i] != '1' {
      RankedChar(Charset[i]);
    }
  }

  function IndexFrom(c: char, i: nat): (r: Option<nat>)
    requires i <= 32
    ensures r.Some? ==> i <= r.value < 32 && Charset[r.value] == c
    ensures r.None? ==> forall j :: i <= j < 32 ==> Charset[j] != c
    decreases 32 - i
  {
    if i == 32 then None else if Charset[i] == c then Some(i) else IndexFrom(c, i + 1)
  }

  /** The 5-bit value a data character stands for, if it is one. */
  function CharValue(c: char): (v: Option<nat>)
    ensures v.Some? ==> v.value < 32 && Charset[v.value] == c
    ensures v.None? <==> c !in Charset
  {
    IndexFrom(c, 0)
  }

  lemma CharValueOf(v: nat)
    requires v < 32
    ensures CharValue(Charset[v]) == Some(v)
  {
    CharsetDistinct();
  }

  /** The data characters for 5-bit values. */
  function Chars(values: seq<nat>): (s: string)
    requires Below(values, 32)
    ensures |s| == |values| && forall i :: 0 <= i < |s| ==> s[i] == Charset[values[i]]
  {
    seq(|values|, i requires 0 <= i < |values| => Charset[values[i]])
  }

  lemma CharsFacts(values: seq<nat>)
    requires Below(values, 32)
    ensures AllPrintable(Chars(values)) && '1' !in Chars(values) && !HasUpper(Chars(values))
  {
    CharsetPrintable();
    CharsetLower();
  }

  /** `toBytes`: each data character replaced by its value, failing on the first that is not one. */
  function ToValues(chars: string): (r: Result<seq<byte>, Bech32Error>)
    ensures r.Success? <==> forall i :: 0 <= i < |chars| ==> chars[i] in Charset
    ensures r.Success? ==> Below(r.value, 32) && Chars(r.value) == chars
    ensures r.Failure? ==> r.error.NonCharsetChar? && r.error.c in chars && r.error.c !in Charset
  {
    if |chars| == 0 then Success([])
    else match CharValue(chars[0])
      case None => Failure(NonCharsetChar(chars[0]))
      case Some(v) =>
        var rest := ToValues(chars[1..]);
        assert forall i :: 1 <= i < |chars| ==> chars[i] == chars[1..][i - 1];
        if rest.Failure? then rest
        else
          var b: byte := v;
          assert Chars([b] + rest.value) == chars;
          Success([b] + rest.value)
  }

  lemma ValuesOfChars(values: seq<nat>)
    requires Below(values, 32)
    ensures ToValues(Chars(values)).Success? && ToValues(Chars(values)).value == values
  {
    CharsetDistinct();
    var r := ToValues(Chars(values)).value;
    assert forall i :: 0 <= i < |values| ==> Charset[r[i]] == Charset[values[i]];
  }

  /**
   * The scan of `DecodeNoLimit` from position `i` on, with whether a lower-
   * and an upper-case letter have been seen so far.
   */
  function ScanFrom(s: string, i: nat, lower: bool, upper: bool): (r: Result<bool, Bech32Error>)
    requires i <= |s| && AllPrintable(s[..i])
    requires lower == HasLower(s[..i]) && upper == HasUpper(s[..i]) && !(lower && upper)
    ensures r.Success? <==> AllPrintable(s) && !(HasLower(s) && HasUpper(s))
    ensures r.Success? ==> r.value == HasUpper(s)
    ensures r.Failure? ==> r.error == MixedCase || (r.error.InvalidCharacter? && !Printable(r.error.c))
    decreases |s| - i
  {
    if i == |s| then
      assert s[..i] == s;
      Success(upper)
    else if !Printable(s[i]) then
      Failure(InvalidCharacter(s[i]))
    else
      var lower' := lower || IsLower(s[i]);
      var upper' := upper || IsUpper(s[i]);
      HasLowerStep(s, i);
      HasUpperStep(s, i);
      ScanMonotone(s, i + 1);
      if lower' && upper' then Failure(MixedCase)
      else ScanFrom(s, i + 1, lower', upper')
  }

  /** What a prefix shows of printability and mixed case holds of the whole string. */
  lemma ScanMonotone(s: string, i: nat)
    requires i <= |s|
    ensures AllPrintable(s) ==> AllPrintable(s[..i])
    ensures HasLower(s[..i]) ==> HasLower(s)
    ensures HasUpper(s[..i]) ==> HasUpper(s)
  {
    if HasLower(s[..i]) {
      var j :| 0 <= j < i && IsLower(s[..i][j]);
      assert IsLower(s[j]);
    }
    if HasUpper(s[..i]) {
      var j :| 0 <= j < i && IsUpper(s[..i][j]);
      assert IsUpper(s[j]);
    }
  }

  /** The index of the last `c` in `s[..k]`, or -1. */
  function LastIndexIn(s: string, c: char, k: nat): (r: int)
    requires k <= |s|
    ensures -1 <= r < k
    ensures r >= 0 ==> s[r] == c
    ensures forall j :: r < j < k ==> s[j] != c
  {
    if k == 0 then -1 else if s[k - 1] == c then k - 1 else LastIndexIn(s, c, k - 1)
  }

  /** `strings.LastIndexByte`. */
  function LastIndex(s: string, c: char): (r: int)
    ensures -1 <= r < |s|
    ensures r >= 0 ==> s[r] == c
    ensures forall j :: r < j < |s| ==> s[j] != c
  {
    LastIndexIn(s, c, |s|)
  }

  /** The index of the first value that needs more than five bits, if any. */
  function FirstWide(data: seq<byte>): (r: Option<nat>)
    ensures r.None? <==> Below(data, 32)
    ensures r.Some? ==> r.value < |data| && data[r.value] >= 32 && Below(data[..r.value], 32)
  {
    if |data| == 0 then None
    else if data[0] >= 32 then Some(0)
    else match FirstWide(data[1..])
      case None =>
        assert forall i :: 1 <= i < |data| ==> data[i] == data[1..][i - 1];
        None
      case Some(i) =>
        assert data[..i + 1] == [data[0]] + data[1..][..i];
        Some(i + 1)
  }

  /**
   * `Encode` (`Version0`) and `EncodeM` (`Version0m`): the lower-cased
   * human-readable part, the separator '1', one character per value and six
   * checksum characters. A value needing more than five bits is refused, the
   * first such value named in the error.
   */
  function EncodeWith(hrp: string, data: seq<byte>, v: Version): (r: Result<string, Bech32Error>)
    requires IsAscii(hrp)
    ensures r.Success? <==> Below(data, 32)
    ensures r.Failure? ==> exists i :: 0 <= i < |data| && data[i] >= 32 && Below(data[..i], 32)
                                       && r.error == InvalidDataByte(data[i])
    ensures r.Success? ==> |r.value| == |hrp| + 1 + |data| + 6
    ensures r.Success? ==> r.value[..|hrp|] == ToLower(hrp) && r.value[|hrp|] == '1'
    ensures r.Success? ==> forall i :: |hrp| < i < |r.value| ==> r.value[i] in Charset
  {
    var lower := ToLower(hrp);
    ToLowerAscii(hrp);
    match FirstWide(data)
    case Some(i) => Failure(InvalidDataByte(data[i]))
    case None =>
      var values := data + CreateChecksum(lower, data, v);
      var s := lower + "1" + Chars(values);
      Concat3Parts(lower, "1", Chars(values));
      assert forall i :: |hrp| < i < |s| ==> s[i] == s[|hrp| + 1..][i - |hrp| - 1];
      Success(s)
  }

  function Encode(hrp: string, data: seq<byte>): (r: Result<string, Bech32Error>)
    requires IsAscii(hrp)
    ensures r == EncodeWith(hrp, data, Version0)
  {
    EncodeWith(hrp, data, Version0)
  }

  function EncodeM(hrp: string, data: seq<byte>): (r: Result<string, Bech32Error>)
    requires IsAscii(hrp)
    ensures r == EncodeWith(hrp, data, Version0m)
  {
    EncodeWith(hrp, data, Version0m)
  }

  lemma PrintableAscii(s: string)
    requires AllPrintable(s)
    ensures IsAscii(s) && AllPrintable(ToLower(s))
  {
  }

  /**
   * `DecodeNoLimit`: the human-readable part, lower-cased, and the data
   * values without the checksum. Checks run in the source's order: length,
   * character range, mixed case, then the checks of `DecodeLowered` on the
   * lower-cased string.
   */
  function DecodeNoLimit(s: string): (r: Result<(string, seq<byte>), Bech32Error>)
    ensures |s| < 8 ==> r == Failure(InvalidLength(|s|))
    ensures r.Success? ==> |s| >= 8 && AllPrintable(s) && !(HasLower(s) && HasUpper(s))
  {
    if |s| < 8 then Failure(InvalidLength(|s|))
    else
      assert s[..0] == [];
      var hasUpper :- ScanFrom(s, 0, false, false);
      PrintableAscii(s);
      DecodeLowered(if hasUpper then ToLower(s) else s)
  }

  /**
   * The rest of `DecodeNoLimit` once the string is printable and lower-case:
   * split at the last '1', which must leave a non-empty prefix and at least
   * six characters after it; read the data characters; check the checksum.
   */
  function DecodeLowered(bech: string): (r: Result<(string, seq<byte>), Bech32Error>)
    requires AllPrintable(bech)
    ensures r.Success? ==> 1 <= |r.value.0| && |r.value.0| + 1 + |r.value.1| + 6 == |bech|
    ensures r.Success? ==> r.value.0 == bech[..|r.value.0|] && bech[|r.value.0|] == '1'
    ensures r.Success? ==> Below(r.value.1, 32)
  {
    var one := LastIndex(bech, '1');
    if one < 1 || one + 7 > |bech| then Failure(InvalidSeparatorIndex(one))
    else
      var hrp := bech[..one];
      var decoded :- ToValues(bech[one + 1..]);
      assert IsAscii(hrp);
      if VerifyChecksum(hrp, decoded).None? then Failure(InvalidChecksum)
      else Success((hrp, decoded[..|decoded| - 6]))
  }

  /** Where the last '1' of an encoding is: right after the human-readable part. */
  lemma SeparatorOfEncoding(lower: string, values: seq<nat>)
    requires Below(values, 32)
    ensures LastIndex(lower + "1" + Chars(values), '1') == |lower|
  {
    var s := lower + "1" + Chars(values);
    CharsFacts(values);
    assert s[|lower|] == '1';
    assert forall j :: |lower| < j < |s| ==> s[j] == Chars(values)[j - |lower| - 1];
  }

  /** An encoding is printable and has no upper-case letter. */
  lemma EncodingIsLower(hrp: string, values: seq<nat>)
    requires AllPrintable(hrp) && Below(values, 32)
    ensures AllPrintable(ToLower(hrp) + "1" + Chars(values))
    ensures !HasUpper(ToLower(hrp) + "1" + Chars(values))
  {
    var lower := ToLower(hrp);
    var s := lower + "1" + Chars(values);
    PrintableAscii(hrp);
    CharsFacts(values);
    forall i | 0 <= i < |s|
      ensures Printable(s[i]) && !IsUpper(s[i])
    {
      if i < |lower| {
        assert s[i] == lower[i];
      } else if i > |lower| {
        assert s[i] == Chars(values)[i - |lower| - 1];
      }
    }
  }

  /**
   * Decoding an encoding gives back the lower-cased human-readable part and
   * the data, whichever checksum variant it was written with.
   */
  lemma EncodeDecode(hrp: string, data: seq<byte>, v: Version)
    requires 1 <= |hrp| && AllPrintable(hrp) && Below(data, 32)
    ensures EncodeWith(hrp, data, v).Success?
    ensures DecodeNoLimit(EncodeWith(hrp, data, v).value) == Success((ToLower(hrp), data))
  {
    PrintableAscii(hrp);
    var lower := ToLower(hrp);
    ToLowerAscii(hrp);
    var values := data + CreateChecksum(lower, data, v);
    var s := lower + "1" + Chars(values);
    assert EncodeWith(hrp, data, v) == Success(s);
    EncodingIsLower(hrp, values);
    assert s[..0] == [];
    assert ScanFrom(s, 0, false, false) == Success(false);
    SeparatorOfEncoding(lower, values);
    assert s[..|lower|] == lower && s[|lower| + 1..] == Chars(values);
    ValuesOfChars(values);
    ChecksumVerifies(lower, data, v);
    assert values[..|values| - 6] == data;
  }

  /** An encoding of lower-case, checksummed values. */
  lemma EncodeOfChecksummed(hrp: string, data: seq<byte>, c: seq<nat>, v: Version)
    requires IsAscii(hrp) && !HasUpper(hrp) && Below(data, 32)
    requires c == CreateChecksum(hrp, data, v)
    ensures EncodeWith(hrp, data, v) == Success(hrp + "1" + Chars(data + c))
  {
    ToLowerFixed(hrp);
  }

  /** The pieces a successful `DecodeLowered` finds. */
  lemma DecodedParts(bech: string) returns (hrp: string, decoded: seq<byte>, v: Version)
    requires AllPrintable(bech) && DecodeLowered(bech).Success?
    ensures IsAscii(hrp) && Below(decoded, 32) && |decoded| >= 6
    ensures bech == hrp + "1" + Chars(decoded)
    ensures VerifyChecksum(hrp, decoded) == Some(v)
    ensures DecodeLowered(bech).value == (hrp, decoded[..|decoded| - 6])
  {
    var one := LastIndex(bech, '1');
    hrp := bech[..one];
    decoded := ToValues(bech[one + 1..]).value;
    PrintableAscii(hrp);
    v := VerifyChecksum(hrp, decoded).value;
    SplitAround(bech, one);
  }

  /** Checksummed values behind a lower-case prefix re-encode to the same string. */
  lemma Reencode(bech: string, hrp: string, decoded: seq<byte>, v: Version)
    requires IsAscii(hrp) && Below(decoded, 32) && |decoded| >= 6
    requires bech == hrp + "1" + Chars(decoded) && !HasUpper(bech)
    requires VerifyChecksum(hrp, decoded) == Some(v)
    ensures EncodeWith(hrp, decoded[..|decoded| - 6], v) == Success(bech)
  {
    var data := decoded[..|decoded| - 6];
    var c := decoded[|decoded| - 6..];
    assert decoded == data + c;
    ChecksumUnique(hrp, data, c, v);
    assert forall j :: 0 <= j < |hrp| ==> hrp[j] == bech[j];
    assert !HasUpper(hrp);
    EncodeOfChecksummed(hrp, data, c, v);
  }

  /** A lower-case string that decodes is the encoding of what it decodes to. */
  lemma DecodeLoweredEncode(bech: string) returns (v: Version)
    requires AllPrintable(bech) && !HasUpper(bech) && DecodeLowered(bech).Success?
    ensures EncodeWith(DecodeLowered(bech).value.0, DecodeLowered(bech).value.1, v) == Success(bech)
  {
    var hrp, decoded, v' := DecodedParts(bech);
    v := v';
    Reencode(bech, hrp, decoded, v);
  }

  /**
   * A string that decodes is, in lower case, the encoding of what it decodes
   * to, with one of the two checksum variants.
   */
  lemma DecodeEncode(s: string)
    requires DecodeNoLimit(s).Success?
    ensures var (hrp, data) := DecodeNoLimit(s).value;
            Encode(hrp, data) == Success(ToLower(s)) || EncodeM(hrp, data) == Success(ToLower(s))
  {
    assert s[..0] == [];
    var hasUpper := ScanFrom(s, 0, false, false).value;
    PrintableAscii(s);
    ToLowerFixed(s);
    var bech := if hasUpper then ToLower(s) else s;
    assert bech == ToLower(s);
    assert DecodeNoLimit(s) == DecodeLowered(bech);
    var v := DecodeLoweredEncode(bech);
  }

  /**
   * Lower-casing does not change what `DecodeNoLimit` makes of a printable
   * string without mixed case: an all-upper-case string decodes exactly as
   * its lower-case form.
   */
  lemma DecodeNoLimitLower(s: string)
    requires AllPrintable(s) && !(HasLower(s) && HasUpper(s))
    ensures DecodeNoLimit(s) == DecodeNoLimit(ToLower(s))
  {
    if |s| >= 8 {
      var t := ToLower(s);
      PrintableAscii(s);
      ToLowerFixed(s);
      ToLowerFixed(t);
      assert s[..0] == [] && t[..0] == [];
      assert ScanFrom(s, 0, false, false) == Success(HasUpper(s));
      assert ScanFrom(t, 0, false, false) == Success(false);
    }
  }

  /** The prefix a successful decode finds is non-empty and printable, and the groups are 5-bit. */
  lemma DecodedPrefix(s: string)
    requires DecodeNoLimit(s).Success?
    ensures var (hrp, groups) := DecodeNoLimit(s).value;
            1 <= |hrp| && AllPrintable(hrp) && IsAscii(hrp) && Below(groups, 32)
  {
    var (hrp, groups) := DecodeNoLimit(s).value;
    PrintableAscii(s);
    var t := ToLower(s);
    DecodeNoLimitLower(s);
    DecodeNoLimitLowered(t);
    assert hrp == t[..|hrp|];
    forall i | 0 <= i < |hrp|
      ensures Printable(hrp[i])
    {
      assert hrp[i] == t[i];
    }
    PrintableAscii(hrp);
  }

  /** A lower-case printable string is decoded by `DecodeLowered` alone. */
  lemma DecodeNoLimitLowered(t: string)
    requires AllPrintable(t) && !HasUpper(t) && |t| >= 8
    ensures DecodeNoLimit(t) == DecodeLowered(t)
  {
    assert t[..0] == [];
    assert ScanFrom(t, 0, false, false) == Success(false);
  }
}
