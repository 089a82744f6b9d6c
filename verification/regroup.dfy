/**
 * `bech32.ConvertBits`: regrouping a stream of `from`-bit units into
 * `to`-bit units through an accumulator, as in the reference implementation
 * of BIP-173.
 */
module Regroup {
  import opened Wrappers
  import opened Bits

  datatype RegroupError =
    | InvalidBitGroups             // a group width outside 1..8
    | ValueOutOfRange(value: byte) // an input unit wider than `from` bits
    | InvalidIncompleteGroup       // unpadded conversion left a partial or non-zero group

  /** The converter's state: groups emitted so far and `bits` pending bits held in `acc`. */
  datatype Acc = Acc(out: seq<byte>, acc: nat, bits: nat)

  /** Every unit is below 2^w, so it fits in `w` bits. */
  predicate Fits(xs: seq<byte>, w: nat) {
    forall i :: 0 <= i < |xs| ==> xs[i] < Pow2(w)
  }

  predicate WellFormed(a: Acc, to: nat) {
    a.acc < Pow2(a.bits) && Fits(a.out, to)
  }

  /** The bits a state accounts for: the emitted groups, then the pending bits. */
  function Emitted(a: Acc, to: nat): seq<bool> {
    Flatten(a.out, to) + BitsOf(a.acc, a.bits)
  }

  lemma Pow2Byte(w: nat)
    requires w <= 8
    ensures Pow2(w) <= 256
  {
    Pow2Monotone(w, 8);
  }

  lemma {:induction false} FlattenSnoc(xs: seq<nat>, x: nat, w: nat)
    ensures Flatten(xs + [x], w) == Flatten(xs, w) + BitsOf(x, w)
  {
    FlattenConcat(xs, [x], w);
  }

  lemma DrainFits(a: Acc, to: nat)
    requires 1 <= to <= 8 && WellFormed(a, to) && a.bits >= to
    ensures 0 <= a.acc / Pow2(a.bits - to) < Pow2(to) <= 256
    ensures WellFormed(Acc(a.out + [a.acc / Pow2(a.bits - to)], a.acc % Pow2(a.bits - to), a.bits - to), to)
  {
    var rest := a.bits - to;
    DivBound(a.acc, to, rest);
    DivNonNegative(a.acc, Pow2(rest));
    Pow2Byte(to);
    var group: byte := a.acc / Pow2(rest);
    AppendGroup(a.out, group, to);
    assert a.acc % Pow2(rest) < Pow2(rest);
  }

  lemma DrainBits(a: Acc, to: nat)
    requires 1 <= to <= 8 && a.bits >= to && a.acc < Pow2(a.bits)
    ensures 0 <= a.acc / Pow2(a.bits - to) < 256
    ensures Emitted(Acc(a.out + [a.acc / Pow2(a.bits - to)], a.acc % Pow2(a.bits - to), a.bits - to), to)
            == Emitted(a, to)
  {
    var rest := a.bits - to;
    DivBound(a.acc, to, rest);
    DivNonNegative(a.acc, Pow2(rest));
    Pow2Byte(to);
    var group := a.acc / Pow2(rest);
    BitsOfSplit(a.acc, to, rest);
    FlattenSnoc(a.out, group, to);
    Concat3(Flatten(a.out, to), BitsOf(group, to), BitsOf(a.acc % Pow2(rest), rest));
  }

  /** Emitting the top `to` of the pending bits keeps what the state accounts for. */
  lemma DrainStep(a: Acc, to: nat)
    requires 1 <= to <= 8 && WellFormed(a, to) && a.bits >= to
    ensures 0 <= a.acc / Pow2(a.bits - to) < Pow2(to) <= 256
    ensures WellFormed(Acc(a.out + [a.acc / Pow2(a.bits - to)], a.acc % Pow2(a.bits - to), a.bits - to), to)
    ensures Emitted(Acc(a.out + [a.acc / Pow2(a.bits - to)], a.acc % Pow2(a.bits - to), a.bits - to), to)
            == Emitted(a, to)
  {
    DrainFits(a, to);
    DrainBits(a, to);
  }

  /** Emit every complete `to`-bit group that is pending. */
  function Drain(a: Acc, to: nat): (r: Acc)
    requires 1 <= to <= 8 && WellFormed(a, to)
    ensures WellFormed(r, to) && r.bits < to
    ensures Emitted(r, to) == Emitted(a, to)
    decreases a.bits
  {
    if a.bits < to then a
    else
      var rest := a.bits - to;
      DrainStep(a, to);
      var group: byte := a.acc / Pow2(rest);
      Drain(Acc(a.out + [group], a.acc % Pow2(rest), rest), to)
  }

  lemma ShiftFits(a: Acc, v: nat, from: nat, to: nat)
    requires WellFormed(a, to) && v < Pow2(from)
    ensures 0 <= a.acc * Pow2(from)
    ensures WellFormed(Acc(a.out, a.acc * Pow2(from) + v, a.bits + from), to)
  {
    MulNonNegative(a.acc, Pow2(from));
    ShiftBound(a.acc, v, a.bits, from);
  }

  lemma ShiftBits(a: Acc, v: nat, from: nat, to: nat)
    requires v < Pow2(from)
    ensures 0 <= a.acc * Pow2(from)
    ensures Emitted(Acc(a.out, a.acc * Pow2(from) + v, a.bits + from), to) == Emitted(a, to) + BitsOf(v, from)
  {
    MulNonNegative(a.acc, Pow2(from));
    BitsOfConcat(a.acc, v, a.bits, from);
    Concat3(Flatten(a.out, to), BitsOf(a.acc, a.bits), BitsOf(v, from));
  }

  /** Shifting one unit into the accumulator appends its bits. */
  lemma ShiftIn(a: Acc, v: nat, from: nat, to: nat)
    requires WellFormed(a, to) && v < Pow2(from)
    ensures 0 <= a.acc * Pow2(from)
    ensures WellFormed(Acc(a.out, a.acc * Pow2(from) + v, a.bits + from), to)
    ensures Emitted(Acc(a.out, a.acc * Pow2(from) + v, a.bits + from), to) == Emitted(a, to) + BitsOf(v, from)
  {
    ShiftFits(a, v, from, to);
    ShiftBits(a, v, from, to);
  }

  lemma FeedStep(a: Acc, mid: Acc, r: Acc, data: seq<byte>, from: nat, to: nat)
    requires |data| > 0
    requires Emitted(mid, to) == Emitted(a, to) + BitsOf(data[0], from)
    requires Emitted(r, to) == Emitted(mid, to) + Flatten(data[1..], from)
    ensures Emitted(r, to) == Emitted(a, to) + Flatten(data, from)
  {
    assert Flatten(data, from) == BitsOf(data[0], from) + Flatten(data[1..], from);
    Concat3(Emitted(a, to), BitsOf(data[0], from), Flatten(data[1..], from));
  }

  lemma FitsTail(data: seq<byte>, from: nat)
    requires |data| > 0 && data[0] < Pow2(from)
    ensures Fits(data, from) <==> Fits(data[1..], from)
  {
    if Fits(data[1..], from) {
      assert forall i :: 1 <= i < |data| ==> data[i] == data[1..][i - 1];
    }
  }

  /** Feed every unit of `data` through the accumulator, failing on the first one wider than `from`. */
  function Feed(a: Acc, data: seq<byte>, from: nat, to: nat): (r: Result<Acc, RegroupError>)
    requires 1 <= to <= 8 && WellFormed(a, to) && a.bits < to
    ensures r.Success? <==> Fits(data, from)
    ensures r.Success? ==> WellFormed(r.value, to) && r.value.bits < to
    ensures r.Success? ==> Emitted(r.value, to) == Emitted(a, to) + Flatten(data, from)
    decreases |data|
  {
    if |data| == 0 then Success(a)
    else if data[0] >= Pow2(from) then Failure(ValueOutOfRange(data[0]))
    else
      ShiftIn(a, data[0], from, to);
      var mid := Drain(Acc(a.out, a.acc * Pow2(from) + data[0], a.bits + from), to);
      var r := Feed(mid, data[1..], from, to);
      FitsTail(data, from);
      if r.Success? then FeedStep(a, mid, r.value, data, from, to); r else r
  }

  /** Bits appended by padding a stream of `n` bits to a whole number of `to`-bit groups. */
  function PadBits(n: nat, to: nat): (p: nat)
    requires to > 0
    ensures p < to && (n + p) % to == 0
  {
    if n % to == 0 then 0
    else
      DivModUnique(n + (to - n % to), to, n / to + 1, 0);
      to - n % to
  }

  /** The bits of a stream of `n` bits that fill whole `to`-bit groups. */
  function WholeGroupBits(n: nat, to: nat): (m: nat)
    requires to > 0
    ensures m <= n && n - m == n % to
  {
    n - n % to
  }

  /** An unpadded conversion may drop at most `from - 1` trailing bits, all zero. */
  predicate CleanTail(data: seq<byte>, from: nat, to: nat)
    requires to > 0
  {
    var n := |data| * from;
    n % to < from && AllZero(Flatten(data, from)[WholeGroupBits(n, to)..])
  }

  /** The state after feeding: its groups and pending bits split the whole stream. */
  lemma Leftover(a: Acc, data: seq<byte>, from: nat, to: nat)
    requires 1 <= to && a.bits < to
    requires Emitted(a, to) == Flatten(data, from)
    ensures a.bits == (|data| * from) % to
    ensures |a.out| * to == |data| * from - a.bits
    ensures Flatten(a.out, to) == Flatten(data, from)[..|a.out| * to]
    ensures BitsOf(a.acc, a.bits) == Flatten(data, from)[|a.out| * to..]
  {
    DivModUnique(|data| * from, to, |a.out|, a.bits);
  }

  /**
   * `ConvertBits(data, from, to, pad)`. With padding the groups spell out the
   * input bits followed by just enough zero bits; without padding they spell
   * out the input bits up to the last whole group, and the call fails unless
   * what is dropped is shorter than one input unit and all zero.
   */
  function ConvertBits(data: seq<byte>, from: nat, to: nat, pad: bool): (r: Result<seq<byte>, RegroupError>)
    ensures !(1 <= from <= 8 && 1 <= to <= 8) ==> r == Failure(InvalidBitGroups)
    ensures 1 <= from <= 8 && 1 <= to <= 8 && pad ==>
              (r.Success? <==> Fits(data, from))
    ensures 1 <= from <= 8 && 1 <= to <= 8 && !pad ==>
              (r.Success? <==> Fits(data, from) && CleanTail(data, from, to))
    ensures r.Success? ==> Fits(r.value, to)
    ensures r.Success? && pad ==>
              Flatten(r.value, to) == Flatten(data, from) + Zeros(PadBits(|data| * from, to))
    ensures r.Success? && !pad ==>
              Flatten(r.value, to) == Flatten(data, from)[..WholeGroupBits(|data| * from, to)]
  {
    if !(1 <= from <= 8 && 1 <= to <= 8) then Failure(InvalidBitGroups)
    else
      var fed := Feed(Acc([], 0, 0), data, from, to);
      if fed.Failure? then Failure(fed.error)
      else
        var a := fed.value;
        Leftover(a, data, from, to);
        if pad then
          if a.bits > 0 then
            PadLast(a, to);
            assert PadBits(|data| * from, to) == to - a.bits;
            var last: byte := a.acc * Pow2(to - a.bits);
            Success(a.out + [last])
          else Success(a.out)
        else if a.bits >= from || a.acc != 0 then
          TailNotClean(a, data, from, to);
          Failure(InvalidIncompleteGroup)
        else
          TailClean(a, data, from, to);
          Success(a.out)
  }

  /** The zero-padded last group: the pending bits followed by zeros up to `to` bits. */
  lemma PadGroup(acc: nat, bits: nat, to: nat)
    requires acc < Pow2(bits) && bits <= to
    ensures 0 <= acc * Pow2(to - bits) < Pow2(to)
    ensures BitsOf(acc * Pow2(to - bits), to) == BitsOf(acc, bits) + Zeros(to - bits)
  {
    var k := to - bits;
    BitsOfConcat(acc, 0, bits, k);
    BitsOfZero(k);
    ShiftBound(acc, 0, bits, k);
  }

  /** Padding the pending bits with zeros completes one last group. */
  lemma PadLast(a: Acc, to: nat)
    requires 1 <= to <= 8 && 0 < a.bits < to && WellFormed(a, to)
    ensures 0 <= a.acc * Pow2(to - a.bits) < Pow2(to) <= 256
    ensures Fits(a.out + [a.acc * Pow2(to - a.bits)], to)
    ensures Flatten(a.out + [a.acc * Pow2(to - a.bits)], to) == Emitted(a, to) + Zeros(to - a.bits)
  {
    PadGroup(a.acc, a.bits, to);
    Pow2Byte(to);
    AppendGroup(a.out, a.acc * Pow2(to - a.bits), to);
  }

  lemma AppendGroup(out: seq<byte>, last: byte, to: nat)
    requires Fits(out, to) && last < Pow2(to)
    ensures Fits(out + [last], to)
    ensures Flatten(out + [last], to) == Flatten(out, to) + BitsOf(last, to)
  {
    FlattenSnoc(out, last, to);
  }

  lemma TailNotClean(a: Acc, data: seq<byte>, from: nat, to: nat)
    requires 1 <= to && a.bits < to && a.acc < Pow2(a.bits)
    requires Emitted(a, to) == Flatten(data, from)
    requires a.bits >= from || a.acc != 0
    ensures !CleanTail(data, from, to)
  {
    Leftover(a, data, from, to);
    if a.bits < from && AllZero(BitsOf(a.acc, a.bits)) {
      ZeroOfBits(BitsOf(a.acc, a.bits));
      ValueOfBitsOf(a.acc, a.bits);
    }
  }

  lemma TailClean(a: Acc, data: seq<byte>, from: nat, to: nat)
    requires 1 <= to && a.bits < to && a.bits < from && a.acc == 0
    requires Emitted(a, to) == Flatten(data, from)
    ensures CleanTail(data, from, to)
    ensures Flatten(a.out, to) == Flatten(data, from)[..WholeGroupBits(|data| * from, to)]
  {
    Leftover(a, data, from, to);
    BitsOfZero(a.bits);
    DivModUnique(|data| * from, to, |a.out|, a.bits);
  }

  /** Two amounts of padding below `to` that both complete a group are equal. */
  lemma PadUnique(n: nat, p: nat, to: nat)
    requires to > 0 && p < to && (n + p) % to == 0
    ensures PadBits(n, to) == p
  {
    var k := (n + p) / to;
    assert n + p == k * to;
    if p > 0 {
      assert n == (k - 1) * to + (to - p);
      DivModUnique(n, to, k - 1, to - p);
    } else {
      DivModUnique(n, to, k, 0);
    }
  }

  /**
   * Bytes regrouped into padded 5-bit groups regroup back, unpadded, into the
   * same bytes.
   */
  lemma BytesRoundTrip(bytes: seq<byte>)
    ensures ConvertBits(bytes, 8, 5, true).Success?
    ensures ConvertBits(ConvertBits(bytes, 8, 5, true).value, 5, 8, false) == Success(bytes)
  {
    Pow2Widths();
    assert Fits(bytes, 8);
    var groups := ConvertBits(bytes, 8, 5, true).value;
    var n := |bytes| * 8;
    var p := PadBits(n, 5);
    var m := |groups| * 5;
    assert m == n + p;
    DivModUnique(m, 8, |bytes|, p);
    assert Flatten(groups, 5)[m - m % 8..] == Zeros(p);
    assert CleanTail(groups, 5, 8);
    var back := ConvertBits(groups, 5, 8, false).value;
    assert Flatten(back, 8) == Flatten(bytes, 8);
    assert Below(back, Pow2(8)) && Below(bytes, Pow2(8));
    FlattenInjective(back, bytes, 8);
  }

  /** An unpadded 5-to-8 regrouping drops fewer than five zero bits. */
  lemma DroppedTail(groups: seq<byte>, bytes: seq<byte>) returns (t: nat)
    requires Fits(groups, 5)
    requires ConvertBits(groups, 5, 8, false) == Success(bytes)
    ensures t < 5 && |bytes| * 8 + t == |groups| * 5
    ensures Flatten(groups, 5) == Flatten(bytes, 8) + Zeros(t)
  {
    var m := |groups| * 5;
    var bits := Flatten(groups, 5);
    t := m % 8;
    assert Fits(groups, 5) && CleanTail(groups, 5, 8);
    DivModUnique(m, 8, m / 8, t);
    assert Flatten(bytes, 8) == bits[..m - t];
    var tail := bits[m - t..];
    assert AllZero(tail) && |tail| == t;
    assert tail == Zeros(t);
    assert bits == bits[..m - t] + tail;
  }

  /**
   * 5-bit groups that regroup, unpadded, into bytes are exactly the padded
   * regrouping of those bytes: no other group sequence decodes to them.
   */
  lemma GroupsRoundTrip(groups: seq<byte>, bytes: seq<byte>)
    requires Fits(groups, 5)
    requires ConvertBits(groups, 5, 8, false) == Success(bytes)
    ensures ConvertBits(bytes, 8, 5, true) == Success(groups)
  {
    Pow2Widths();
    var t := DroppedTail(groups, bytes);
    assert Fits(bytes, 8);
    DivModUnique(|groups| * 5, 5, |groups|, 0);
    PadUnique(|bytes| * 8, t, 5);
    var again := ConvertBits(bytes, 8, 5, true).value;
    var bits := Flatten(bytes, 8);
    assert Flatten(again, 5) == bits + Zeros(t);
    assert Flatten(groups, 5) == bits + Zeros(t);
    assert Below(again, Pow2(5)) && Below(groups, Pow2(5));
    FlattenInjective(again, groups, 5);
  }
}
