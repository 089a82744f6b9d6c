/**
 * NIP-01 private key generation: `GeneratePrivateKey` in `key.go` draws
 * random bytes, reduces them into the secp256k1 scalar range and writes the
 * scalar as hex. The random draw is a parameter here.
 */
module KeyGen {
  import opened Wrappers
  import opened Bits
  import opened Ascii
  import opened Hex
  import opened Key
  import KeyProperties

  /** The order N of the secp256k1 group (SEC 2, section 2.4.1). */
  const CurveOrder: nat := 0xFFFFFFFF_FFFFFFFF_FFFFFFFF_FFFFFFFE_BAAEDCE6_AF48A03B_BFD25E8C_D0364141

  /** The curve's bit size in bytes plus 8: the number of random bytes drawn. */
  const DrawLength: nat := 256 / 8 + 8

  /** 256 to the power `n`: one more than the largest `n`-byte value. */
  function Pow256(n: nat): (p: nat)
    ensures p >= 1
  {
    if n == 0 then 1 else 256 * Pow256(n - 1)
  }

  lemma {:induction false} Pow256Add(a: nat, b: nat)
    ensures Pow256(a + b) == Pow256(a) * Pow256(b)
  {
    if a > 0 {
      Pow256Add(a - 1, b);
      assert Pow256(a + b) == 256 * Pow256(a - 1 + b);
    }
  }

  /** Every scalar fits in 32 bytes. */
  lemma CurveOrderFits()
    ensures CurveOrder < Pow256(32)
  {
    assert Pow256(1) == 0x100;
    Pow256Add(1, 1);
    assert Pow256(2) == 0x1_0000;
    Pow256Add(2, 2);
    assert Pow256(4) == 0x1_0000_0000;
    Pow256Add(4, 4);
    assert Pow256(8) == 0x1_00000000_00000000;
    Pow256Add(8, 8);
    assert Pow256(16) == 0x1_00000000_00000000_00000000_00000000;
    Pow256Add(16, 16);
    assert Pow256(32) == 0x1_00000000_00000000_00000000_00000000_00000000_00000000_00000000_00000000;
  }

  /** Dropping the last byte of a value below 256^n leaves one below 256^(n-1). */
  lemma ShiftDown(k: nat, n: nat)
    requires n >= 1 && k < Pow256(n)
    ensures k / 256 < Pow256(n - 1)
  {
  }

  /** `big.Int.SetBytes`: the unsigned big-endian value of a byte string. */
  function BigEndian(bytes: seq<byte>): (k: nat)
    ensures k < Pow256(|bytes|)
  {
    if |bytes| == 0 then 0
    else
      var front := BigEndian(bytes[..|bytes| - 1]);
      MulMonotone(front, Pow256(|bytes| - 1) - 1, 256);
      front * 256 + bytes[|bytes| - 1]
  }

  /** The scalar derived from the drawn integer `k`: k mod (N - 1), plus 1. */
  function Scalar(k: nat): (s: nat)
    ensures 1 <= s <= CurveOrder - 1
  {
    k % (CurveOrder - 1) + 1
  }

  /** Every scalar in [1, N - 1] is reached, by the draw one below it. */
  lemma ScalarOnto(s: nat)
    requires 1 <= s <= CurveOrder - 1
    ensures Scalar(s - 1) == s
  {
    DivModUnique(s - 1, CurveOrder - 1, 0, s - 1);
  }

  /** `big.Int.Bytes`: the big-endian bytes of `k` with no leading zero byte. */
  function MinimalBytes(k: nat): (bytes: seq<byte>)
    ensures BigEndian(bytes) == k
    ensures |bytes| == 0 <==> k == 0
    ensures |bytes| > 0 ==> bytes[0] != 0
    decreases k
  {
    if k == 0 then []
    else
      var front := MinimalBytes(k / 256);
      var bytes := front + [k % 256];
      assert bytes[..|bytes| - 1] == front;
      bytes
  }

  /** A value below 256^n needs at most n minimal bytes. */
  lemma {:induction false} MinimalLength(k: nat, n: nat)
    requires k < Pow256(n)
    ensures |MinimalBytes(k)| <= n
    decreases k
  {
    if k > 0 {
      ShiftDown(k, n);
      MinimalLength(k / 256, n - 1);
    }
  }

  /** Byte strings without a leading zero are exactly the minimal encodings of their values. */
  lemma {:induction false} MinimalOfBigEndian(bytes: seq<byte>)
    requires |bytes| == 0 || bytes[0] != 0
    ensures MinimalBytes(BigEndian(bytes)) == bytes
    decreases |bytes|
  {
    if |bytes| > 0 {
      var front := bytes[..|bytes| - 1];
      var last := bytes[|bytes| - 1];
      var k := BigEndian(bytes);
      MinimalOfBigEndian(front);
      DivModUnique(k, 256, BigEndian(front), last);
      assert bytes == front + [last];
    }
  }

  /**
   * `GeneratePrivateKey`: `None` stands for a failed read of the random
   * source and yields the empty string; otherwise the scalar of the drawn
   * bytes in minimal big-endian hex, so at most 64 digits and possibly fewer.
   */
  function GeneratePrivateKey(draw: Option<seq<byte>>): (r: string)
    ensures draw.None? ==> r == ""
    ensures draw.Some? ==> IsHexString(r) && !HasUpper(r) && 2 <= |r| <= 64
    ensures draw.Some? ==>
              var bytes := DecodeString(r).bytes;
              |bytes| >= 1 && bytes[0] != 0 && BigEndian(bytes) == Scalar(BigEndian(draw.value))
  {
    match draw
    case None => ""
    case Some(drawn) =>
      var k := Scalar(BigEndian(drawn));
      var bytes := MinimalBytes(k);
      CurveOrderFits();
      MinimalLength(k, 32);
      Hex.DecodeEncode(bytes);
      var r := EncodeToString(bytes);
      assert forall i :: 0 <= i < |r| ==> !IsUpper(r[i]);
      r
  }

  /** The `n`-byte big-endian encoding of `k`, zero-filled on the left. */
  function FixedBytes(k: nat, n: nat): (bytes: seq<byte>)
    requires k < Pow256(n)
    ensures |bytes| == n && BigEndian(bytes) == k
  {
    if n == 0 then []
    else
      ShiftDown(k, n);
      var front := FixedBytes(k / 256, n - 1);
      var bytes := front + [k % 256];
      assert bytes[..|bytes| - 1] == front;
      bytes
  }

  /** `n` zero bytes. */
  function ZeroBytes(n: nat): (bytes: seq<byte>)
    ensures |bytes| == n && forall i :: 0 <= i < n ==> bytes[i] == 0
  {
    seq(n, i => 0)
  }

  lemma {:induction false} FixedZero(n: nat)
    ensures FixedBytes(0, n) == ZeroBytes(n)
  {
    if n > 0 {
      FixedZero(n - 1);
      assert FixedBytes(0, n) == FixedBytes(0, n - 1) + [0];
    }
  }

  lemma MinimalSnoc(k: nat)
    requires k > 0
    ensures MinimalBytes(k) == MinimalBytes(k / 256) + [k % 256]
  {
  }

  lemma FixedSnoc(k: nat, n: nat)
    requires n > 0 && k < Pow256(n) && k / 256 < Pow256(n - 1)
    ensures FixedBytes(k, n) == FixedBytes(k / 256, n - 1) + [k % 256]
  {
  }

  /** One more low byte: the step shared by the fixed and minimal encodings. */
  lemma PaddedStep(k: nat, n: nat)
    requires 0 < k < Pow256(n) && k / 256 < Pow256(n - 1)
    requires |MinimalBytes(k / 256)| <= n - 1
    requires FixedBytes(k / 256, n - 1) == ZeroBytes(n - 1 - |MinimalBytes(k / 256)|) + MinimalBytes(k / 256)
    ensures |MinimalBytes(k)| <= n
    ensures FixedBytes(k, n) == ZeroBytes(n - |MinimalBytes(k)|) + MinimalBytes(k)
  {
    MinimalSnoc(k);
    FixedSnoc(k, n);
    var front := MinimalBytes(k / 256);
    Concat3(ZeroBytes(n - 1 - |front|), front, [k % 256]);
  }

  /** The fixed-width encoding is the minimal one behind the missing zero bytes. */
  lemma {:induction false} FixedIsPaddedMinimal(k: nat, n: nat)
    requires k < Pow256(n)
    ensures |MinimalBytes(k)| <= n
    ensures FixedBytes(k, n) == ZeroBytes(n - |MinimalBytes(k)|) + MinimalBytes(k)
  {
    if k == 0 {
      FixedZero(n);
    } else {
      ShiftDown(k, n);
      FixedIsPaddedMinimal(k / 256, n - 1);
      PaddedStep(k, n);
    }
  }

  /**
   * The generator `GeneratePrivateKey` evidently intends: the same scalar,
   * always as 32 bytes, so always 64 hex digits.
   */
  function GeneratePrivateKeyFixed(draw: Option<seq<byte>>): (r: string)
    ensures draw.None? ==> r == ""
    ensures draw.Some? ==> IsHexString(r) && !HasUpper(r) && |r| == 64
    ensures draw.Some? ==> BigEndian(DecodeString(r).bytes) == Scalar(BigEndian(draw.value))
  {
    match draw
    case None => ""
    case Some(drawn) =>
      var k := Scalar(BigEndian(drawn));
      CurveOrderFits();
      var bytes := FixedBytes(k, 32);
      Hex.DecodeEncode(bytes);
      var r := EncodeToString(bytes);
      assert forall i :: 0 <= i < |r| ==> !IsUpper(r[i]);
      r
  }

  /** `n` '0' digits. */
  function ZeroDigits(n: nat): (s: string)
    ensures |s| == n
  {
    seq(n, i => '0')
  }

  /** Two zero digits per zero byte. */
  lemma {:induction false} EncodeZeroBytes(n: nat)
    ensures EncodeToString(ZeroBytes(n)) == ZeroDigits(2 * n)
  {
    if n > 0 {
      EncodeZeroBytes(n - 1);
      assert ZeroBytes(n) == [0] + ZeroBytes(n - 1);
      assert EncodeByte(0) == "00";
    }
  }

  /** Hex of the fixed-width encoding: the minimal hex behind '0' digits. */
  lemma FixedHex(k: nat)
    requires k < Pow256(32)
    ensures var minimal := EncodeToString(MinimalBytes(k));
            |minimal| <= 64 && EncodeToString(FixedBytes(k, 32)) == ZeroDigits(64 - |minimal|) + minimal
  {
    FixedIsPaddedMinimal(k, 32);
    var m := MinimalBytes(k);
    var zeros := ZeroBytes(32 - |m|);
    var f := FixedBytes(k, 32);
    assert f == zeros + m;
    EncodeConcat(zeros, m);
    EncodeZeroBytes(32 - |m|);
    var hm := EncodeToString(m);
    assert |hm| == 2 * |m|;
    assert EncodeToString(f) == EncodeToString(zeros) + hm;
  }

  /** What both generators return for a successful draw, in terms of the scalar. */
  lemma GeneratedHex(drawn: seq<byte>)
    ensures Scalar(BigEndian(drawn)) < Pow256(32)
    ensures GeneratePrivateKey(Some(drawn)) == EncodeToString(MinimalBytes(Scalar(BigEndian(drawn))))
    ensures GeneratePrivateKeyFixed(Some(drawn)) == EncodeToString(FixedBytes(Scalar(BigEndian(drawn)), 32))
  {
    CurveOrderFits();
  }

  /**
   * The corrected generator returns what the one as written returns, with
   * '0' digits in front up to 64 digits.
   */
  lemma FixedPadsMinimal(drawn: seq<byte>)
    ensures var minimal := GeneratePrivateKey(Some(drawn));
            |minimal| <= 64 && GeneratePrivateKeyFixed(Some(drawn)) == ZeroDigits(64 - |minimal|) + minimal
  {
    var k := Scalar(BigEndian(drawn));
    GeneratedHex(drawn);
    FixedHex(k);
    PadRewrite(GeneratePrivateKey(Some(drawn)), EncodeToString(MinimalBytes(k)),
               GeneratePrivateKeyFixed(Some(drawn)), EncodeToString(FixedBytes(k, 32)));
  }

  lemma PadRewrite(g: string, m: string, f: string, e: string)
    requires g == m && f == e && |m| <= 64 && e == ZeroDigits(64 - |m|) + m
    ensures |g| <= 64 && f == ZeroDigits(64 - |g|) + g
  {
  }

  /** The value of zero bytes is zero. */
  lemma {:induction false} BigEndianZeros(n: nat)
    ensures BigEndian(ZeroBytes(n)) == 0
  {
    if n > 0 {
      BigEndianZeros(n - 1);
      assert ZeroBytes(n)[..n - 1] == ZeroBytes(n - 1);
    }
  }

  lemma MinimalOne()
    ensures MinimalBytes(1) == [1]
  {
    assert 1 / 256 == 0 && 1 % 256 == 1;
    assert MinimalBytes(1) == MinimalBytes(0) + [1];
  }

  /** An all-zero draw gives the scalar 1, written "01" by the generator as written. */
  lemma ZeroDrawGivesShortKey()
    ensures GeneratePrivateKey(Some(ZeroBytes(DrawLength))) == "01"
  {
    BigEndianZeros(DrawLength);
    assert Scalar(0) == 1;
    MinimalOne();
    EncodeOne();
  }

  lemma EncodeOne()
    ensures EncodeToString([1]) == "01"
  {
    assert EncodeToString([1]) == EncodeByte(1) + EncodeToString([]);
    assert 1 / 16 == 0 && 1 % 16 == 1;
  }

  /** The private key "01" encodes, but its encoding does not decode back to a key. */
  lemma ShortKeyRejected()
    ensures EncodePrivateKey("01").Success?
    ensures DecodeBech32(EncodePrivateKey("01").value) == Returned("nsec", "", Some(DataTooShort(1)))
  {
    assert IsDigit('0') && IsDigit('1');
    KeyProperties.KeyRoundTrip("nsec", "01");
  }

  /** For the all-zero draw the corrected generator writes the scalar 1 in 64 digits. */
  lemma ZeroDrawFixedKey()
    ensures GeneratePrivateKeyFixed(Some(ZeroBytes(DrawLength))) == ZeroDigits(62) + "01"
  {
    ZeroDrawGivesShortKey();
    FixedPadsMinimal(ZeroBytes(DrawLength));
  }

  /**
   * Every key the corrected generator produces survives the NIP-19 round
   * trip unchanged.
   */
  lemma FixedKeyRoundTrip(drawn: seq<byte>)
    ensures EncodePrivateKey(GeneratePrivateKeyFixed(Some(drawn))).Success?
    ensures DecodeBech32(EncodePrivateKey(GeneratePrivateKeyFixed(Some(drawn))).value) ==
              Returned("nsec", GeneratePrivateKeyFixed(Some(drawn)), None)
  {
    var r := GeneratePrivateKeyFixed(Some(drawn));
    KeyProperties.PrivateKeyRoundTrip(r);
    ToLowerFixed(r);
  }
}
