/**
 * Go's `encoding/hex`: `DecodeString` and `EncodeToString`.
 * Decoding reads pairs of digits left to right and stops at the first bad
 * pair, returning the bytes decoded so far together with the error.
 */
module Hex {
  import opened Wrappers
  import opened Bits
  import opened Ascii

  /** `InvalidByteError(c)` and `ErrLength`. */
  datatype HexError = InvalidByte(c: char) | ErrLength

  /** The two results of `DecodeString`: the bytes decoded and the error, if any. */
  datatype Decoded = Decoded(bytes: seq<byte>, err: Option<HexError>)

  const LowerDigits: string := "0123456789abcdef"

  /** The value of a hexadecimal digit of either case. */
  function DigitValue(c: char): (v: Option<nat>)
    ensures v.Some? ==> v.value < 16
  {
    if '0' <= c <= '9' then Some(c as int - '0' as int)
    else if 'a' <= c <= 'f' then Some(c as int - 'a' as int + 10)
    else if 'A' <= c <= 'F' then Some(c as int - 'A' as int + 10)
    else None
  }

  predicate IsDigit(c: char) {
    DigitValue(c).Some?
  }

  /** The length of the longest prefix of `s` made of hexadecimal digits. */
  function DigitRun(s: string): (n: nat)
    ensures n <= |s|
    ensures forall i :: 0 <= i < n ==> IsDigit(s[i])
    ensures n < |s| ==> !IsDigit(s[n])
  {
    if |s| == 0 || !IsDigit(s[0]) then 0 else 1 + DigitRun(s[1..])
  }

  predicate IsHexString(s: string) {
    |s| % 2 == 0 && forall i :: 0 <= i < |s| ==> IsDigit(s[i])
  }

  lemma DigitValueOfLower(v: nat)
    requires v < 16
    ensures DigitValue(LowerDigits[v]) == Some(v)
  {
  }

  lemma LowerOfDigitValue(c: char)
    requires IsDigit(c)
    ensures LowerDigits[DigitValue(c).value] == LowerChar(c)
  {
  }

  /** The two lower-case digits of one byte. */
  function EncodeByte(b: byte): (s: string)
    ensures |s| == 2
  {
    [LowerDigits[b / 16], LowerDigits[b % 16]]
  }

  /** `hex.EncodeToString`: two lower-case digits per byte. */
  function EncodeToString(bytes: seq<byte>): (s: string)
    ensures |s| == 2 * |bytes|
    ensures forall i :: 0 <= i < |s| ==> IsDigit(s[i]) && !IsUpper(s[i])
  {
    if |bytes| == 0 then [] else EncodeByte(bytes[0]) + EncodeToString(bytes[1..])
  }

  lemma {:induction false} EncodeConcat(a: seq<byte>, b: seq<byte>)
    ensures EncodeToString(a + b) == EncodeToString(a) + EncodeToString(b)
    decreases |a|
  {
    if |a| == 0 {
      assert a + b == b;
    } else {
      assert (a + b)[0] == a[0] && (a + b)[1..] == a[1..] + b;
      EncodeConcat(a[1..], b);
    }
  }

  /** One pair of digits decodes to the byte whose encoding is that pair in lower case. */
  lemma PairRoundTrip(c0: char, c1: char)
    requires IsDigit(c0) && IsDigit(c1)
    ensures DigitValue(c0).value * 16 + DigitValue(c1).value < 256
    ensures EncodeByte(DigitValue(c0).value * 16 + DigitValue(c1).value) == ToLower([c0, c1])
  {
    var a, b := DigitValue(c0).value, DigitValue(c1).value;
    DivModUnique(a * 16 + b, 16, a, b);
    LowerOfDigitValue(c0);
    LowerOfDigitValue(c1);
  }

  /** What `DecodeString` promises about its result `r` for input `s`. */
  predicate Describes(s: string, r: Decoded) {
    && |r.bytes| == DigitRun(s) / 2
    && 2 * |r.bytes| <= |s|
    && EncodeToString(r.bytes) == ToLower(s[..2 * |r.bytes|])
    && (r.err == None <==> IsHexString(s))
    && (r.err == Some(ErrLength) <==> DigitRun(s) == |s| && |s| % 2 == 1)
    && (r.err.Some? && r.err.value.InvalidByte? ==>
          DigitRun(s) < |s| && r.err.value.c == s[DigitRun(s)])
  }

  lemma PairDigitRun(s: string)
    requires |s| >= 2 && IsDigit(s[0]) && IsDigit(s[1])
    ensures DigitRun(s) == 2 + DigitRun(s[2..])
  {
    assert s[1..][1..] == s[2..];
  }

  lemma PairHexString(s: string)
    requires |s| >= 2 && IsDigit(s[0]) && IsDigit(s[1])
    ensures IsHexString(s) <==> IsHexString(s[2..])
  {
    if IsHexString(s[2..]) {
      assert forall i :: 2 <= i < |s| ==> s[i] == s[2..][i - 2];
    }
  }

  /** The byte a pair of hexadecimal digits denotes, high digit first. */
  function PairByte(c0: char, c1: char): (b: byte)
    requires IsDigit(c0) && IsDigit(c1)
    ensures EncodeByte(b) == ToLower([c0, c1])
  {
    PairRoundTrip(c0, c1);
    DigitValue(c0).value * 16 + DigitValue(c1).value
  }

  lemma SplitPair(s: string, n: nat)
    requires n + 2 <= |s|
    ensures s[..n + 2] == [s[0], s[1]] + s[2..][..n]
  {
  }

  lemma EncodeSingle(b: byte)
    ensures EncodeToString([b]) == EncodeByte(b)
  {
    assert [b][1..] == [];
  }

  lemma PairEncode(s: string, bytes: seq<byte>)
    requires |s| >= 2 && IsDigit(s[0]) && IsDigit(s[1]) && 2 * |bytes| <= |s| - 2
    requires EncodeToString(bytes) == ToLower(s[2..][..2 * |bytes|])
    ensures EncodeToString([PairByte(s[0], s[1])] + bytes)
            == ToLower(s[..2 * |bytes| + 2])
  {
    var b := PairByte(s[0], s[1]);
    var n := 2 * |bytes|;
    var head, tail := [s[0], s[1]], s[2..][..n];
    assert EncodeToString(bytes) == ToLower(tail);
    EncodeSingle(b);
    assert EncodeToString([b]) == ToLower(head);
    calc {
      EncodeToString([b] + bytes);
      { EncodeConcat([b], bytes); }
      EncodeToString([b]) + EncodeToString(bytes);
      ToLower(head) + ToLower(tail);
      { ToLowerConcat(head, tail); }
      ToLower(head + tail);
      { SplitPair(s, n); }
      ToLower(s[..n + 2]);
    }
  }

  /** Prefixing a valid pair of digits extends a described decoding by one byte. */
  lemma PairStep(s: string, rest: Decoded)
    requires |s| >= 2 && IsDigit(s[0]) && IsDigit(s[1]) && Describes(s[2..], rest)
    ensures Describes(s, Decoded([PairByte(s[0], s[1])] + rest.bytes, rest.err))
  {
    PairDigitRun(s);
    PairHexString(s);
    PairEncode(s, rest.bytes);
  }

  /**
   * `hex.DecodeString`. The result holds exactly half the leading run of
   * digits, rounded down, and that much of the input is what it encodes; the
   * error is reported on the first character that is not a digit, or as
   * `ErrLength` when every character is a digit but their number is odd.
   */
  function DecodeString(s: string): (r: Decoded)
    ensures |r.bytes| == DigitRun(s) / 2
    ensures EncodeToString(r.bytes) == ToLower(s[..2 * |r.bytes|])
    ensures r.err == None <==> IsHexString(s)
    ensures r.err == Some(ErrLength) <==> DigitRun(s) == |s| && |s| % 2 == 1
    ensures r.err.Some? && r.err.value.InvalidByte? ==>
              DigitRun(s) < |s| && r.err.value.c == s[DigitRun(s)]
    decreases |s|
  {
    DecodeFrom(s)
  }

  function DecodeFrom(s: string): (r: Decoded)
    ensures Describes(s, r)
    decreases |s|
  {
    if |s| == 0 then Decoded([], None)
    else if |s| == 1 then
      if IsDigit(s[0]) then Decoded([], Some(ErrLength)) else Decoded([], Some(InvalidByte(s[0])))
    else if !IsDigit(s[0]) then Decoded([], Some(InvalidByte(s[0])))
    else if !IsDigit(s[1]) then Decoded([], Some(InvalidByte(s[1])))
    else
      var rest := DecodeFrom(s[2..]);
      PairStep(s, rest);
      Decoded([PairByte(s[0], s[1])] + rest.bytes, rest.err)
  }

  /** Decoding an encoding gives the bytes back with no error. */
  lemma {:induction false} DecodeEncode(bytes: seq<byte>)
    ensures DecodeString(EncodeToString(bytes)) == Decoded(bytes, None)
  {
    var s := EncodeToString(bytes);
    EncodedIsLowerHex(bytes);
    ToLowerFixed(s);
    EncodeDecode(s);
    EncodeInjective(DecodeString(s).bytes, bytes);
  }

  lemma EncodedIsLowerHex(bytes: seq<byte>)
    ensures IsHexString(EncodeToString(bytes)) && !HasUpper(EncodeToString(bytes))
  {
  }

  lemma {:induction false} EncodeInjective(a: seq<byte>, b: seq<byte>)
    requires EncodeToString(a) == EncodeToString(b)
    ensures a == b
    decreases |a|
  {
    if |a| > 0 {
      var x, y := a[0], b[0];
      assert EncodeByte(x) == EncodeToString(a)[..2] == EncodeByte(y);
      DigitValueOfLower(x / 16);
      DigitValueOfLower(x % 16);
      DigitValueOfLower(y / 16);
      DigitValueOfLower(y % 16);
      assert x == (x / 16) * 16 + x % 16;
      assert EncodeToString(a[1..]) == EncodeToString(a)[2..] == EncodeToString(b[1..]);
      EncodeInjective(a[1..], b[1..]);
    }
  }

  /** A valid hexadecimal string is the encoding of its decoding, up to case. */
  lemma EncodeDecode(s: string)
    requires IsHexString(s)
    ensures EncodeToString(DecodeString(s).bytes) == ToLower(s)
  {
    assert s[..|s|] == s;
  }
}
