/**
 * The BCH checksum of BIP-173 (`bech32Polymod`, `bech32Checksum` and
 * `bech32VerifyChecksum` of btcutil's bech32 package).
 *
 * The checksum register is a 30-bit word, held here as 30 bits, most
 * significant first; the `^` of the source is `XorBits` and a shift by five
 * is dropping the top five bits and appending five new ones.
 */
module Checksum {
  import opened Wrappers
  import opened Bits
  import opened Ascii

  /** The 30-bit checksum register. */
  type Word = w: seq<bool> | |w| == 30 witness Zeros(30)

  /** The register holding 1: its initial value and its value on a valid string. */
  const One: Word := Zeros(29) + [true]

  /** The checksum variants btcutil tells apart: BIP-173 Bech32 and BIP-350 Bech32m. */
  datatype Version = Version0 | Version0m

  /** The Bech32m constant 0x2bc830a3. */
  const Bech32mConst: Word :=
    [I, O, I, O, I,
     I, I, I, O, O,
     I, O, O, O, O,
     O, I, I, O, O,
     O, O, I, O, I,
     O, O, O, I, I]

  /** The value the register must end at for each variant. */
  function Target(v: Version): Word {
    match v
    case Version0 => One
    case Version0m => Bech32mConst
  }

  /** A set bit and a clear bit, for writing words out. */
  const I: bool := true
  const O: bool := false

  /** The five generator constants of BIP-173, bit by bit in groups of five. */
  const Generators: seq<Word> := [
    // 0x3b6a57b2
    [I, I, I, O, I,
     I, O, I, I, O,
     I, O, I, O, O,
     I, O, I, O, I,
     I, I, I, O, I,
     I, O, O, I, O],
    // 0x26508e6d
    [I, O, O, I, I,
     O, O, I, O, I,
     O, O, O, O, I,
     O, O, O, I, I,
     I, O, O, I, I,
     O, I, I, O, I],
    // 0x1ea119fa
    [O, I, I, I, I,
     O, I, O, I, O,
     O, O, O, I, O,
     O, O, I, I, O,
     O, I, I, I, I,
     I, I, O, I, O],
    // 0x3d4233dd
    [I, I, I, I, O,
     I, O, I, O, O,
     O, O, I, O, O,
     O, I, I, O, O,
     I, I, I, I, O,
     I, I, I, O, I],
    // 0x2a1462b3
    [I, O, I, O, I,
     O, O, O, O, I,
     O, I, O, O, O,
     I, I, O, O, O,
     I, O, I, O, I,
     I, O, O, I, I]]

  function Pick(flag: bool, g: Word): Word {
    if flag then g else Zeros(30)
  }

  /**
   * The generators selected by the top five bits of the register: generator
   * `i` when bit `25 + i` is set. `top` is those five bits, most significant
   * first, so bit `25 + i` is `top[4 - i]`.
   */
  function GenMask(top: seq<bool>): Word
    requires |top| == 5
  {
    XorBits(XorBits(XorBits(XorBits(
      Pick(top[4], Generators[0]), Pick(top[3], Generators[1])),
      Pick(top[2], Generators[2])), Pick(top[1], Generators[3])),
      Pick(top[0], Generators[4]))
  }

  /** One round: shift the register five bits left, xor in `v`, then the selected generators. */
  function Step(chk: Word, v: nat): Word
    requires v < 32
  {
    XorBits(chk[5..] + BitsOf(v, 5), GenMask(chk[..5]))
  }

  function PolymodFrom(chk: Word, values: seq<nat>): Word
    requires Below(values, 32)
    decreases |values|
  {
    if |values| == 0 then chk else PolymodFrom(Step(chk, values[0]), values[1..])
  }

  /** `bech32Polymod`: the register after every value, starting from 1. */
  function Polymod(values: seq<nat>): Word
    requires Below(values, 32)
  {
    PolymodFrom(One, values)
  }

  /** The human-readable part expanded for checksumming: high bits, a zero, low bits. */
  function HrpExpand(hrp: string): (r: seq<nat>)
    requires IsAscii(hrp)
    ensures |r| == 2 * |hrp| + 1 && Below(r, 32)
  {
    seq(|hrp|, i requires 0 <= i < |hrp| => hrp[i] as int / 32) + [0]
      + seq(|hrp|, i requires 0 <= i < |hrp| => hrp[i] as int % 32)
  }

  function ZeroValues(n: nat): (z: seq<nat>)
    ensures |z| == n && Below(z, 32)
  {
    seq(n, _ => 0)
  }

  /** The six 5-bit groups of the register after `pre` and six zeros, xored with `target`. */
  function ChecksumOf(pre: seq<nat>, target: Word): (c: seq<nat>)
    requires Below(pre, 32)
    ensures |c| == 6 && Below(c, 32)
  {
    Pow2Widths();
    Chunk(XorBits(Polymod(pre + ZeroValues(6)), target), 5, 6)
  }

  /**
   * `bech32Checksum` (for `Version0`, as `Encode` uses; `Version0m` for
   * `EncodeM`): the checksum of the expanded human-readable part followed by
   * the data.
   */
  function CreateChecksum(hrp: string, data: seq<nat>, v: Version): (c: seq<nat>)
    requires IsAscii(hrp) && Below(data, 32)
    ensures |c| == 6 && Below(c, 32)
  {
    ChecksumOf(HrpExpand(hrp) + data, Target(v))
  }

  /** `bech32VerifyChecksum`: the variant whose constant the register ends at, if any. */
  function VerifyChecksum(hrp: string, values: seq<nat>): (r: Option<Version>)
    requires IsAscii(hrp) && Below(values, 32)
    ensures r.Some? ==> Polymod(HrpExpand(hrp) + values) == Target(r.value)
    ensures r.None? ==> forall v: Version :: Polymod(HrpExpand(hrp) + values) != Target(v)
  {
    var residue := Polymod(HrpExpand(hrp) + values);
    if residue == One then Some(Version0)
    else if residue == Bech32mConst then Some(Version0m)
    else None
  }

  lemma TargetsDiffer()
    ensures One != Bech32mConst
  {
    assert One[0] != Bech32mConst[0];
  }

  lemma XorCancel(a: seq<bool>, b: seq<bool>)
    requires |a| == |b|
    ensures XorBits(a, XorBits(a, b)) == b
  {
  }

  lemma XorZeros(a: seq<bool>)
    ensures XorBits(a, Zeros(|a|)) == a
  {
  }

  /**
   * A difference confined below the top five bits survives one round,
   * shifted left, with the new value in its low bits.
   */
  lemma StepDiff(b: Word, d: Word, v: nat)
    requires AllZero(d[..5]) && v < 32
    ensures Step(XorBits(b, d), v) == XorBits(Step(b, 0), d[5..] + BitsOf(v, 5))
  {
    var a := XorBits(b, d);
    assert a[..5] == b[..5];
    BitsOfZero(5);
  }

  lemma {:induction false} PolymodFromConcat(chk: Word, xs: seq<nat>, ys: seq<nat>)
    requires Below(xs, 32) && Below(ys, 32)
    ensures PolymodFrom(chk, xs + ys) == PolymodFrom(PolymodFrom(chk, xs), ys)
    decreases |xs|
  {
    if |xs| == 0 {
      assert xs + ys == ys;
    } else {
      assert (xs + ys)[0] == xs[0] && (xs + ys)[1..] == xs[1..] + ys;
      PolymodFromConcat(Step(chk, xs[0]), xs[1..], ys);
    }
  }

  /** Shifting a difference with at least five leading zeros by five bits. */
  lemma ShiftZeros(k: nat, e: seq<bool>, low: seq<bool>)
    requires k >= 5
    ensures (Zeros(k) + e)[5..] + low == Zeros(k - 5) + (e + low)
  {
  }

  lemma ZeroValuesTail(n: nat)
    requires n > 0
    ensures ZeroValues(n)[0] == 0 && ZeroValues(n)[1..] == ZeroValues(n - 1)
  {
  }

  lemma FlattenCons(vs: seq<nat>, e: seq<bool>, w: nat)
    requires |vs| > 0
    ensures (e + BitsOf(vs[0], w)) + Flatten(vs[1..], w) == e + Flatten(vs, w)
  {
  }

  /** Feeding the first of the values moves five bits of them into the difference. */
  lemma DiffStep(b: Word, e: seq<bool>, vs: seq<nat>)
    requires 0 < |vs| <= 6 && |e| == 30 - 5 * |vs| && Below(vs, 32)
    ensures |Zeros(5 * |vs[1..]|) + (e + BitsOf(vs[0], 5))| == 30
    ensures PolymodFrom(XorBits(b, Zeros(5 * |vs|) + e), vs)
              == PolymodFrom(XorBits(Step(b, 0), Zeros(5 * |vs[1..]|) + (e + BitsOf(vs[0], 5))), vs[1..])
  {
    var d: Word := Zeros(5 * |vs|) + e;
    StepDiff(b, d, vs[0]);
    ShiftZeros(5 * |vs|, e, BitsOf(vs[0], 5));
  }

  /** Feeding a zero is one round from the register. */
  lemma ZeroStep(b: Word, n: nat)
    requires n > 0
    ensures PolymodFrom(b, ZeroValues(n)) == PolymodFrom(Step(b, 0), ZeroValues(n - 1))
  {
    ZeroValuesTail(n);
  }

  /** The state `FoldDiff` describes after the values `vs` have been fed. */
  predicate FoldsTo(b: Word, e: seq<bool>, vs: seq<nat>)
    requires |vs| <= 6 && |e| == 30 - 5 * |vs| && Below(vs, 32)
  {
    PolymodFrom(XorBits(b, Zeros(5 * |vs|) + e), vs)
      == XorBits(PolymodFrom(b, ZeroValues(|vs|)), e + Flatten(vs, 5))
  }

  lemma FoldDiffBase(b: Word, e: seq<bool>)
    requires |e| == 30
    ensures FoldsTo(b, e, [])
  {
    XorZeros(b);
    assert Zeros(0) + e == e;
  }

  /** The state after the first value carries `FoldsTo` back to the whole sequence. */
  lemma FoldDiffInduct(b: Word, e: seq<bool>, vs: seq<nat>)
    requires 0 < |vs| <= 6 && |e| == 30 - 5 * |vs| && Below(vs, 32)
    requires FoldsTo(Step(b, 0), e + BitsOf(vs[0], 5), vs[1..])
    ensures FoldsTo(b, e, vs)
  {
    DiffStep(b, e, vs);
    ZeroStep(b, |vs|);
    FlattenCons(vs, e, 5);
  }

  /**
   * Up to six values fed after a register state differ from zeros fed after
   * it by exactly their bits, shifted in at the bottom.
   */
  lemma {:induction false} FoldDiff(b: Word, e: seq<bool>, vs: seq<nat>)
    requires |vs| <= 6 && |e| == 30 - 5 * |vs| && Below(vs, 32)
    ensures FoldsTo(b, e, vs)
    decreases |vs|
  {
    if |vs| == 0 {
      FoldDiffBase(b, e);
    } else {
      FoldDiff(Step(b, 0), e + BitsOf(vs[0], 5), vs[1..]);
      FoldDiffInduct(b, e, vs);
    }
  }

  lemma SixValues(b: Word, c: seq<nat>)
    requires |c| == 6 && Below(c, 32)
    ensures PolymodFrom(b, c) == XorBits(PolymodFrom(b, ZeroValues(6)), Flatten(c, 5))
  {
    var shifted := Zeros(5 * |c|) + [];
    assert shifted == Zeros(30);
    XorZeros(b);
    assert XorBits(b, shifted) == b;
    assert [] + Flatten(c, 5) == Flatten(c, 5);
    FoldDiff(b, [], c);
  }

  /** After any prefix, its checksum brings the register to the target. */
  lemma ChecksumOfCancels(pre: seq<nat>, target: Word)
    requires Below(pre, 32)
    ensures Polymod(pre + ChecksumOf(pre, target)) == target
  {
    var c := ChecksumOf(pre, target);
    var s := Polymod(pre);
    var residue := Polymod(pre + ZeroValues(6));
    PolymodFromConcat(One, pre, ZeroValues(6));
    FlattenChunk(XorBits(residue, target), 5, 6);
    SixValues(s, c);
    XorCancel(residue, target);
    PolymodFromConcat(One, pre, c);
  }

  /** Only the checksum of a prefix brings the register to the target after it. */
  lemma ChecksumOfUnique(pre: seq<nat>, target: Word, c: seq<nat>)
    requires Below(pre, 32) && |c| == 6 && Below(c, 32)
    requires Polymod(pre + c) == target
    ensures c == ChecksumOf(pre, target)
  {
    Pow2Widths();
    var s := Polymod(pre);
    var residue := Polymod(pre + ZeroValues(6));
    PolymodFromConcat(One, pre, ZeroValues(6));
    PolymodFromConcat(One, pre, c);
    SixValues(s, c);
    XorCancel(residue, Flatten(c, 5));
    FlattenChunk(XorBits(residue, target), 5, 6);
    FlattenInjective(c, ChecksumOf(pre, target), 5);
  }

  /** Ending at a variant's constant verifies as that variant. */
  lemma VerifyOfTarget(hrp: string, values: seq<nat>, v: Version)
    requires IsAscii(hrp) && Below(values, 32)
    requires Polymod(HrpExpand(hrp) + values) == Target(v)
    ensures VerifyChecksum(hrp, values) == Some(v)
  {
    TargetsDiffer();
  }

  /** The created checksum makes the data verify, as the variant it was created for. */
  lemma ChecksumVerifies(hrp: string, data: seq<nat>, v: Version)
    requires IsAscii(hrp) && Below(data, 32)
    ensures VerifyChecksum(hrp, data + CreateChecksum(hrp, data, v)) == Some(v)
  {
    var pre := HrpExpand(hrp) + data;
    var c := CreateChecksum(hrp, data, v);
    assert c == ChecksumOf(pre, Target(v));
    ChecksumOfCancels(pre, Target(v));
    Concat3(HrpExpand(hrp), data, c);
    VerifyOfTarget(hrp, data + c, v);
  }

  /** The created checksum is the only six values that make the data verify as that variant. */
  lemma ChecksumUnique(hrp: string, data: seq<nat>, c: seq<nat>, v: Version)
    requires IsAscii(hrp) && Below(data, 32) && |c| == 6 && Below(c, 32)
    requires VerifyChecksum(hrp, data + c) == Some(v)
    ensures c == CreateChecksum(hrp, data, v)
  {
    var pre := HrpExpand(hrp) + data;
    Concat3(HrpExpand(hrp), data, c);
    ChecksumOfUnique(pre, Target(v), c);
  }
}
