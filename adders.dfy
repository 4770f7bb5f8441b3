/** The in-place parallel-prefix adders and subtractors of src/core/arithmetic.hpp
    (Brent-Kung, Kogge-Stone, Han-Carlson) and the borrow-lookahead subtractor.

    All prefix generators share one shape: per-bit generate/propagate records, an optional
    fold of the incoming carry into record 0, a prefix schedule, then bit i of the result is
    (a[i] ^ b[i]) ^ bor[i] with bor[0] the incoming carry and bor[i + 1] the g of record i.
    `PrefixInPlace` is that shape once, parameterised by the operation, the schedule and
    whether the carry is folded; each source function is a call to it. */
module PrefixAdders {
  import opened Words
  import opened Gates
  import opened Ripple
  import opened Prefix

  /** The prefix schedules. */
  datatype Schedule = BrentKungTree | KoggeStoneTree | HanCarlsonTree

  /** The records as built by the generators: record i holds (gen[i], pro[i]) and covers bit i;
      with the fold, record 0 is combined with a record (carry, false) of its own position. */
  function LeafNodes(op: Op, a: seq<bool>, b: seq<bool>, c: bool, fold: bool): (r: seq<PG>)
    requires |a| == |b| >= 1
    ensures |r| == |a| && Leaves(r)
  {
    var r0 := seq(|a|, i requires 0 <= i < |a| => PG(Gen(op, a[i], b[i]), Pro(op, a[i], b[i]), i, i));
    if fold then r0[0 := r0[0].Combine(PG(c, false, 0, 0))] else r0
  }

  /** The prefix generate of bits 0..i is the ripple carry into bit i + 1, the carry-in being
      c with the fold and false without it. */
  lemma {:induction false} LeafCarry(op: Op, a: seq<bool>, b: seq<bool>, c: bool, fold: bool, i: nat)
    requires |a| == |b| >= 1 && i < |a|
    ensures GroupG(LeafNodes(op, a, b, c, fold), 0, i) == ChainInto(op, a, b, if fold then c else false, i + 1)
  {
    var leaves := LeafNodes(op, a, b, c, fold);
    if i > 0 {
      LeafCarry(op, a, b, c, fold, i - 1);
    }
  }

  /** Every generator's result bits, given fully reduced records. */
  lemma ReducedGivesChain(op: Op, a: seq<bool>, b: seq<bool>, c: bool, fold: bool, pg: seq<PG>)
    requires |a| == |b| >= 1 && Reduced(LeafNodes(op, a, b, c, fold), pg)
    ensures forall i :: 0 <= i < |a| ==> pg[i].g == ChainInto(op, a, b, if fold then c else false, i + 1)
  {
    forall i | 0 <= i < |a|
      ensures pg[i].g == ChainInto(op, a, b, if fold then c else false, i + 1)
    {
      LeafCarry(op, a, b, c, fold, i);
    }
  }

  /** The common body of the prefix generators. With the fold the result is the ripple chain
      with carry-in c; without it, carries are computed as if the carry-in were false. */
  method PrefixInPlace(op: Op, sched: Schedule, fold: bool, a: array<bool>, b: seq<bool>, c: bool)
    returns (cout: bool)
    requires a.Length == |b| >= 1
    requires sched == HanCarlsonTree ==> |b| > 4
    modifies a
    ensures a[..] == if fold then ResultBits(op, old(a[..]), b, c) else UnfoldedBits(op, old(a[..]), b, c)
    ensures cout == ChainOut(op, old(a[..]), b, if fold then c else false)
  {
    var a0 := a[..];
    var n := a.Length;
    var gen := seq(n, i requires 0 <= i < n => Gen(op, a0[i], b[i]));
    var pro := seq(n, i requires 0 <= i < n => Pro(op, a0[i], b[i]));
    var pro2 := seq(n, i requires 0 <= i < n => a0[i] != b[i]);
    var pg := seq(n, i requires 0 <= i < n => PG(gen[i], pro[i], i, i));
    if fold {
      pg := pg[0 := pg[0].Combine(PG(c, false, 0, 0))];
    }
    assert pg == LeafNodes(op, a0, b, c, fold);
    match sched {
      case BrentKungTree =>
        pg := BrentKungScan(pg);
      case KoggeStoneTree =>
        var rounds;
        pg, rounds := KoggeStoneScan(pg);
      case HanCarlsonTree =>
        pg := HanCarlsonScan(pg);
    }
    var bor := [c] + seq(n, i requires 0 <= i < n => pg[i].g);
    PrefixResult(op, a0, b, c, fold, pg, bor);
    forall i | 0 <= i < n {
      a[i] := pro2[i] != bor[i];
    }
    cout := bor[n];
  }

  /** The result bits pro2[i] ^ bor[i] and the final bor[n] of a fully reduced scan. */
  lemma PrefixResult(op: Op, a: seq<bool>, b: seq<bool>, c: bool, fold: bool, pg: seq<PG>, bor: seq<bool>)
    requires |a| == |b| >= 1 && Reduced(LeafNodes(op, a, b, c, fold), pg)
    requires bor == [c] + seq(|a|, i requires 0 <= i < |a| => pg[i].g)
    ensures seq(|a|, i requires 0 <= i < |a| => (a[i] != b[i]) != bor[i])
            == if fold then ResultBits(op, a, b, c) else UnfoldedBits(op, a, b, c)
    ensures bor[|a|] == ChainOut(op, a, b, if fold then c else false)
  {
    ReducedGivesChain(op, a, b, c, fold, pg);
    var n, c' := |a|, if fold then c else false;
    var r := seq(n, i requires 0 <= i < n => (a[i] != b[i]) != bor[i]);
    assert bor[0] == c;
    assert forall i :: 0 < i <= n ==> bor[i] == pg[i - 1].g;
    var expected := if fold then ResultBits(op, a, b, c) else UnfoldedBits(op, a, b, c);
    forall i | 0 <= i < n
      ensures r[i] == expected[i]
    {
      if i > 0 {
        assert bor[i] == ChainInto(op, a, b, c', i);
        assert expected[i] == ResultBits(op, a, b, c')[i];
      }
    }
    assert |r| == |expected|;
  }

  /** `brent_kung_subtractor_inplace`, as written: the borrow is not folded into record 0, so
      the borrow chain starts from false; the difference equation holds when the borrow-in
      is false. */
  method BrentKungSubtractorInPlace(a: array<bool>, b: seq<bool>, borrow: bool) returns (borrowOut: bool)
    requires a.Length == |b| >= 1
    modifies a
    ensures a[..] == UnfoldedBits(Sub, old(a[..]), b, borrow)
    ensures borrowOut == ChainOut(Sub, old(a[..]), b, false)
    ensures !borrow ==> Val(a[..]) - Pow2(|b|) * B(borrowOut) == Val(old(a[..])) - Val(b)
  {
    borrowOut := PrefixInPlace(Sub, BrentKungTree, false, a, b, borrow);
    UnfoldedWithoutCarryIn(Sub, old(a[..]), b);
    ChainValue(Sub, old(a[..]), b, false);
  }

  /** The Brent-Kung subtractor with the borrow folded into record 0 (the fold written for the
      adder): the difference equation holds for either borrow-in. */
  method BrentKungSubtractorFolded(a: array<bool>, b: seq<bool>, borrow: bool) returns (borrowOut: bool)
    requires a.Length == |b| >= 1
    modifies a
    ensures a[..] == ResultBits(Sub, old(a[..]), b, borrow)
    ensures borrowOut == ChainOut(Sub, old(a[..]), b, borrow)
    ensures Val(a[..]) - Pow2(|b|) * B(borrowOut) == Val(old(a[..])) - Val(b) - B(borrow)
  {
    borrowOut := PrefixInPlace(Sub, BrentKungTree, true, a, b, borrow);
    ChainValue(Sub, old(a[..]), b, borrow);
  }

  /** `brent_kung_adder_inplace`: the carry is folded into record 0, so
      val(a') + 2^n carry' == val(a) + val(b) + carry for either carry-in. */
  method BrentKungAdderInPlace(a: array<bool>, b: seq<bool>, carry: bool) returns (carryOut: bool)
    requires a.Length == |b| >= 1
    modifies a
    ensures a[..] == ResultBits(Add, old(a[..]), b, carry)
    ensures carryOut == ChainOut(Add, old(a[..]), b, carry)
    ensures Val(a[..]) + Pow2(|b|) * B(carryOut) == Val(old(a[..])) + Val(b) + B(carry)
  {
    carryOut := PrefixInPlace(Add, BrentKungTree, true, a, b, carry);
    ChainValue(Add, old(a[..]), b, carry);
  }

  /** `kogge_stone_subtractor_inplace`: borrow folded, Kogge-Stone rounds. */
  method KoggeStoneSubtractorInPlace(a: array<bool>, b: seq<bool>, borrow: bool) returns (borrowOut: bool)
    requires a.Length == |b| >= 1
    modifies a
    ensures a[..] == ResultBits(Sub, old(a[..]), b, borrow)
    ensures borrowOut == ChainOut(Sub, old(a[..]), b, borrow)
    ensures Val(a[..]) - Pow2(|b|) * B(borrowOut) == Val(old(a[..])) - Val(b) - B(borrow)
  {
    borrowOut := PrefixInPlace(Sub, KoggeStoneTree, true, a, b, borrow);
    ChainValue(Sub, old(a[..]), b, borrow);
  }

  /** `kogge_stone_adder_inplace`: carry folded, Kogge-Stone rounds. */
  method KoggeStoneAdderInPlace(a: array<bool>, b: seq<bool>, carry: bool) returns (carryOut: bool)
    requires a.Length == |b| >= 1
    modifies a
    ensures a[..] == ResultBits(Add, old(a[..]), b, carry)
    ensures carryOut == ChainOut(Add, old(a[..]), b, carry)
    ensures Val(a[..]) + Pow2(|b|) * B(carryOut) == Val(old(a[..])) + Val(b) + B(carry)
  {
    carryOut := PrefixInPlace(Add, KoggeStoneTree, true, a, b, carry);
    ChainValue(Add, old(a[..]), b, carry);
  }

  /** `han_carlson_subtractor_inplace`, as written: widths up to 4 use the Brent-Kung
      subtractor; wider ones use the Han-Carlson rounds; neither folds the borrow. */
  method HanCarlsonSubtractorInPlace(a: array<bool>, b: seq<bool>, borrow: bool) returns (borrowOut: bool)
    requires a.Length == |b| >= 1
    modifies a
    ensures a[..] == UnfoldedBits(Sub, old(a[..]), b, borrow)
    ensures borrowOut == ChainOut(Sub, old(a[..]), b, false)
    ensures !borrow ==> Val(a[..]) - Pow2(|b|) * B(borrowOut) == Val(old(a[..])) - Val(b)
  {
    if a.Length <= 4 {
      borrowOut := BrentKungSubtractorInPlace(a, b, borrow);
      return;
    }
    borrowOut := PrefixInPlace(Sub, HanCarlsonTree, false, a, b, borrow);
    UnfoldedWithoutCarryIn(Sub, old(a[..]), b);
    ChainValue(Sub, old(a[..]), b, false);
  }

  /** The Han-Carlson subtractor with the borrow folded in both branches. */
  method HanCarlsonSubtractorFolded(a: array<bool>, b: seq<bool>, borrow: bool) returns (borrowOut: bool)
    requires a.Length == |b| >= 1
    modifies a
    ensures a[..] == ResultBits(Sub, old(a[..]), b, borrow)
    ensures borrowOut == ChainOut(Sub, old(a[..]), b, borrow)
    ensures Val(a[..]) - Pow2(|b|) * B(borrowOut) == Val(old(a[..])) - Val(b) - B(borrow)
  {
    if a.Length <= 4 {
      borrowOut := BrentKungSubtractorFolded(a, b, borrow);
      return;
    }
    borrowOut := PrefixInPlace(Sub, HanCarlsonTree, true, a, b, borrow);
    ChainValue(Sub, old(a[..]), b, borrow);
  }

  /** `han_carlson_adder_inplace`, as written: widths up to 4 use the Brent-Kung adder, which
      folds the carry; wider ones use the Han-Carlson rounds without the fold. */
  method HanCarlsonAdderInPlace(a: array<bool>, b: seq<bool>, carry: bool) returns (carryOut: bool)
    requires a.Length == |b| >= 1
    modifies a
    ensures |b| <= 4 ==> a[..] == ResultBits(Add, old(a[..]), b, carry)
                         && carryOut == ChainOut(Add, old(a[..]), b, carry)
    ensures |b| > 4 ==> a[..] == UnfoldedBits(Add, old(a[..]), b, carry)
                        && carryOut == ChainOut(Add, old(a[..]), b, false)
    ensures !carry ==> Val(a[..]) + Pow2(|b|) * B(carryOut) == Val(old(a[..])) + Val(b)
  {
    if a.Length <= 4 {
      carryOut := BrentKungAdderInPlace(a, b, carry);
      return;
    }
    carryOut := PrefixInPlace(Add, HanCarlsonTree, false, a, b, carry);
    UnfoldedWithoutCarryIn(Add, old(a[..]), b);
    ChainValue(Add, old(a[..]), b, false);
  }

  /** The Han-Carlson adder with the carry folded in both branches. */
  method HanCarlsonAdderFolded(a: array<bool>, b: seq<bool>, carry: bool) returns (carryOut: bool)
    requires a.Length == |b| >= 1
    modifies a
    ensures a[..] == ResultBits(Add, old(a[..]), b, carry)
    ensures carryOut == ChainOut(Add, old(a[..]), b, carry)
    ensures Val(a[..]) + Pow2(|b|) * B(carryOut) == Val(old(a[..])) + Val(b) + B(carry)
  {
    if a.Length <= 4 {
      carryOut := BrentKungAdderInPlace(a, b, carry);
      return;
    }
    carryOut := PrefixInPlace(Add, HanCarlsonTree, true, a, b, carry);
    ChainValue(Add, old(a[..]), b, carry);
  }

  /** `kogge_stone_subtractor_inplace` followed by `kogge_stone_adder_inplace` with the same
      b and the same bit as borrow-in and carry-in restores a, and the carry out of the
      addition equals the borrow out of the subtraction. */
  method KoggeStoneRoundTrip(a: array<bool>, b: seq<bool>, borrow: bool)
    returns (borrowOut: bool, carryOut: bool)
    requires a.Length == |b| >= 1
    modifies a
    ensures a[..] == old(a[..])
    ensures carryOut == borrowOut == ChainOut(Sub, old(a[..]), b, borrow)
  {
    ghost var a0 := a[..];
    borrowOut := KoggeStoneSubtractorInPlace(a, b, borrow);
    carryOut := KoggeStoneAdderInPlace(a, b, borrow);
    SubAddRoundTrip(a0, b, borrow);
  }

  /** The as-written Brent-Kung subtractor and adder with borrow-in and carry-in false:
      subtracting b and adding it back restores a. */
  method BrentKungRoundTrip(a: array<bool>, b: seq<bool>) returns (borrowOut: bool, carryOut: bool)
    requires a.Length == |b| >= 1
    modifies a
    ensures a[..] == old(a[..])
    ensures carryOut == borrowOut == ChainOut(Sub, old(a[..]), b, false)
  {
    ghost var a0 := a[..];
    borrowOut := BrentKungSubtractorInPlace(a, b, false);
    UnfoldedWithoutCarryIn(Sub, a0, b);
    carryOut := BrentKungAdderInPlace(a, b, false);
    SubAddRoundTrip(a0, b, false);
  }

  /** The as-written Han-Carlson subtractor and adder with borrow-in and carry-in false:
      subtracting b and adding it back restores a, at every width. */
  method HanCarlsonRoundTrip(a: array<bool>, b: seq<bool>) returns (borrowOut: bool, carryOut: bool)
    requires a.Length == |b| >= 1
    modifies a
    ensures a[..] == old(a[..])
    ensures carryOut == borrowOut == ChainOut(Sub, old(a[..]), b, false)
  {
    ghost var a0 := a[..];
    borrowOut := HanCarlsonSubtractorInPlace(a, b, false);
    UnfoldedWithoutCarryIn(Sub, a0, b);
    ghost var d := a[..];
    carryOut := HanCarlsonAdderInPlace(a, b, false);
    UnfoldedWithoutCarryIn(Add, d, b);
    SubAddRoundTrip(a0, b, false);
  }

  /** Without the fold a borrow-in is lost: 0 - 0 - 1 on one bit yields difference 1 but no
      borrow out, where -1 needs a borrow. */
  lemma SubtractorNoFoldCounterexample()
    ensures UnfoldedBits(Sub, [false], [false], true) == [true]
    ensures !ChainOut(Sub, [false], [false], false)
    ensures Val(UnfoldedBits(Sub, [false], [false], true)) - Pow2(1) * B(ChainOut(Sub, [false], [false], false))
            != Val([false]) - Val([false]) - B(true)
  {
    var r := UnfoldedBits(Sub, [false], [false], true);
    assert r[0] == true;
    assert r == [true];
    assert Val([true]) == 1 && Val([false]) == 0;
  }

  /** Without the fold a carry-in is lost on five bits: 1 + 0 + 1 == 2, but the unfolded chain
      yields 0 with no carry out. */
  lemma AdderNoFoldCounterexample()
    ensures Val(UnfoldedBits(Add, [true, false, false, false, false], Zeros(5), true))
              + Pow2(5) * B(ChainOut(Add, [true, false, false, false, false], Zeros(5), false))
            != Val([true, false, false, false, false]) + Val(Zeros(5)) + B(true)
  {
    var a := [true, false, false, false, false];
    var z := Zeros(5);
    assert ChainInto(Add, a, z, false, 1) == false;
    assert ChainInto(Add, a, z, false, 2) == false;
    assert ChainInto(Add, a, z, false, 3) == false;
    assert ChainInto(Add, a, z, false, 4) == false;
    assert ChainInto(Add, a, z, false, 5) == false;
    var r := UnfoldedBits(Add, a, z, true);
    assert r == Zeros(5);
    ValZeros(5);
    assert Val(a) == 1;
  }

  /** Stand-in for mockturtle's `carry_lookahead_adder_inplace_rec` (its body is not part of
      this model): it fills bor[1..] by bor[i + 1] = gen[i] | (pro[i] & bor[i]). */
  method CarryLookaheadRec(gen: seq<bool>, pro: seq<bool>, bor0: bool) returns (bor: seq<bool>)
    requires |gen| == |pro|
    ensures |bor| == |gen| + 1 && bor[0] == bor0
    ensures forall i :: 0 <= i < |gen| ==> bor[i + 1] == (gen[i] || (pro[i] && bor[i]))
  {
    bor := [bor0];
    var i := 0;
    while i < |gen|
      invariant 0 <= i <= |gen| && |bor| == i + 1 && bor[0] == bor0
      invariant forall t :: 0 <= t < i ==> bor[t + 1] == (gen[t] || (pro[t] && bor[t]))
    {
      bor := bor + [gen[i] || (pro[i] && bor[i])];
      i := i + 1;
    }
  }

  /** `borrow_lookahead_subtractor_inplace_pow2`: the difference bits of a - b - borrow; the
      borrow itself is left unchanged. A single bit uses one full subtractor. */
  method BorrowLookaheadSubtractorPow2InPlace(ntk: Network, a: array<bool>, b: seq<bool>, borrow: bool)
    requires a.Length == |b| >= 1
    modifies a
    ensures a[..] == ResultBits(Sub, old(a[..]), b, borrow)
  {
    var a0 := a[..];
    var n := a.Length;
    if n == 1 {
      var d := FullSubtractor(ntk, a[0], b[0], borrow);
      a[0] := d.0;
      assert a[..] == ResultBits(Sub, a0, b, borrow);
      return;
    }
    var gen := seq(n, i requires 0 <= i < n => !a0[i] && b[i]);
    var pro := seq(n, i requires 0 <= i < n => !a0[i] || b[i]);
    var pro2 := seq(n, i requires 0 <= i < n => a0[i] != b[i]);
    var bor := CarryLookaheadRec(gen, pro, borrow);
    assert forall i :: 0 <= i <= n ==> bor[i] == ChainInto(Sub, a0, b, borrow, i) by {
      BorrowsAreChain(a0, b, borrow, gen, pro, bor, n);
    }
    forall i | 0 <= i < n {
      a[i] := pro2[i] != bor[i];
    }
    assert a[..] == ResultBits(Sub, a0, b, borrow);
  }

  /** The borrow recurrence over !a & b and !a | b is the ripple borrow chain. */
  lemma {:induction false} BorrowsAreChain(a: seq<bool>, b: seq<bool>, c: bool, gen: seq<bool>, pro: seq<bool>,
                                           bor: seq<bool>, k: nat)
    requires |a| == |b| == |gen| == |pro| && |bor| == |a| + 1 && k <= |a|
    requires forall i :: 0 <= i < |a| ==> gen[i] == (!a[i] && b[i]) && pro[i] == (!a[i] || b[i])
    requires bor[0] == c && forall i :: 0 <= i < |a| ==> bor[i + 1] == (gen[i] || (pro[i] && bor[i]))
    ensures forall i :: 0 <= i <= k ==> bor[i] == ChainInto(Sub, a, b, c, i)
  {
    if k > 0 {
      BorrowsAreChain(a, b, c, gen, pro, bor, k - 1);
      assert bor[k] == CellOut(Sub, a[k - 1], b[k - 1], bor[k - 1]);
    }
  }

  /** `borrow_lookahead_subtractor_inplace`: both operands are padded with false to
      2^ceil(log2(n + 1)) > n bits, the low n difference bits are copied back, and padded
      difference bit n is the borrow out of bit n - 1. */
  method BorrowLookaheadSubtractorInPlace(ntk: Network, a: array<bool>, b: seq<bool>, borrow: bool)
    returns (borrowOut: bool)
    requires a.Length == |b|
    modifies a
    ensures a[..] == ResultBits(Sub, old(a[..]), b, borrow)
    ensures borrowOut == ChainOut(Sub, old(a[..]), b, borrow)
    ensures Val(a[..]) - Pow2(|b|) * B(borrowOut) == Val(old(a[..])) - Val(b) - B(borrow)
  {
    ghost var a0 := a[..];
    var n := a.Length;
    var log2 := CeilLog2(n + 1);
    var aExt := ToArray(ZeroExtend(a[..], Pow2(log2)));
    var bExt := ZeroExtend(b, Pow2(log2));
    ghost var e0 := aExt[..];
    BorrowLookaheadSubtractorPow2InPlace(ntk, aExt, bExt, borrow);
    forall i | 0 <= i <= n
      ensures ChainInto(Sub, e0, bExt, borrow, i) == ChainInto(Sub, a0, b, borrow, i)
    {
      assert e0[..i] == a0[..i] && bExt[..i] == b[..i];
      ChainIntoPrefix(Sub, e0, bExt, a0, b, borrow, i);
    }
    forall i | 0 <= i < n {
      a[i] := aExt[i];
    }
    borrowOut := aExt[n];
    assert a[..] == ResultBits(Sub, a0, b, borrow);
    ChainValue(Sub, a0, b, borrow);
  }
}
