/** The multipliers of src/core/arithmetic.hpp: a one-bit full adder built from a one-bit
    Kogge-Stone adder, the carry-save array multiplier built from it, and the multiplier that
    sums shifted partial-product rows with a multi-bit prefix adder. */
module Multipliers {
  import opened Words
  import opened Gates
  import opened Ripple
  import opened PrefixAdders

  /** The partial-product adders selectable for `advance_multiplier` (the `--advance`
      names of the multiplier command). */
  datatype AdderTag = BrentKung | KoggeStone | HanCarlson

  /** The `func` argument, as the multiplier command binds it: an in-place adder called with
      carry-in false. Every tag yields the ripple sum and carry; the Han-Carlson adder
      ignores the carry-in in its carries above four bits, which is harmless when it is false. */
  method AddInPlace(func: AdderTag, x: array<bool>, y: seq<bool>) returns (carry: bool)
    requires x.Length == |y| >= 1
    modifies x
    ensures x[..] == ResultBits(Add, old(x[..]), y, false)
    ensures carry == ChainOut(Add, old(x[..]), y, false)
  {
    match func {
      case BrentKung =>
        carry := BrentKungAdderInPlace(x, y, false);
      case KoggeStone =>
        carry := KoggeStoneAdderInPlace(x, y, false);
      case HanCarlson =>
        carry := HanCarlsonAdderInPlace(x, y, false);
        UnfoldedWithoutCarryIn(Add, old(x[..]), y);
    }
  }

  /** `kogge_stone_full_adder`: a one-bit Kogge-Stone adder over [a] and [b] with carry c
      returns the sum bit and the carry out. */
  method KoggeStoneFullAdder(a: bool, b: bool, c: bool) returns (sum: bool, carry: bool)
    ensures sum == Xor3(a, b, c) && carry == Maj(a, b, c)
    ensures B(a) + B(b) + B(c) == B(sum) + 2 * B(carry)
  {
    var arr := ToArray([a]);
    carry := KoggeStoneAdderInPlace(arr, [b], c);
    sum := arr[0];
    assert ChainInto(Add, [a], [b], c, 0) == c;
  }

  /** The row of partial products a[i] & bj. */
  function RowBits(a: seq<bool>, bj: bool): (r: seq<bool>)
    ensures |r| == |a|
  {
    seq(|a|, i requires 0 <= i < |a| => a[i] && bj)
  }

  /** A partial-product row is worth a or 0. */
  lemma {:induction false} RowValue(a: seq<bool>, bj: bool)
    ensures Val(RowBits(a, bj)) == if bj then Val(a) else 0
  {
    if |a| > 0 {
      RowValue(a[1..], bj);
      assert RowBits(a, bj)[1..] == RowBits(a[1..], bj);
    }
  }

  /** The sum bits of a column of full adders. */
  function XorWord(x: seq<bool>, y: seq<bool>, z: seq<bool>): (r: seq<bool>)
    requires |x| == |y| == |z|
    ensures |r| == |x|
  {
    seq(|x|, i requires 0 <= i < |x| => Xor3(x[i], y[i], z[i]))
  }

  /** The carry bits of a column of full adders. */
  function MajWord(x: seq<bool>, y: seq<bool>, z: seq<bool>): (r: seq<bool>)
    requires |x| == |y| == |z|
    ensures |r| == |x|
  {
    seq(|x|, i requires 0 <= i < |x| => Maj(x[i], y[i], z[i]))
  }

  /** Carry-save addition: a column of full adders turns three words into a sum word and a
      carry word of the same total, the carries weighing twice. */
  lemma {:induction false} CarrySave(x: seq<bool>, y: seq<bool>, z: seq<bool>)
    requires |x| == |y| == |z|
    ensures Val(x) + Val(y) + Val(z) == Val(XorWord(x, y, z)) + 2 * Val(MajWord(x, y, z))
  {
    if |x| > 0 {
      CarrySave(x[1..], y[1..], z[1..]);
      assert XorWord(x, y, z)[1..] == XorWord(x[1..], y[1..], z[1..]);
      assert MajWord(x, y, z)[1..] == MajWord(x[1..], y[1..], z[1..]);
    }
  }

  /** The two words after the first i columns of a row: tmp[..i] holds their carries, the
      sums of columns 1..i-1 sit one column down in tmp[n..], and the rest is untouched. */
  function RowState(p: seq<bool>, s: seq<bool>, c: seq<bool>, i: nat): (w: seq<bool>)
    requires |p| == |s| == |c| >= 1 && i <= |p|
    ensures |w| == 2 * |p|
  {
    var n := |p|;
    seq(2 * n, k requires 0 <= k < 2 * n =>
      if k < i then Maj(p[k], s[k], c[k])
      else if k < n then c[k]
      else if k < n + i - 1 then Xor3(p[k - n + 1], s[k - n + 1], c[k - n + 1])
      else s[k - n])
  }

  /** Column i of a row reads C[i] and S[i], writes its carry to tmp[i] and, above column 0,
      its sum to tmp[n + i - 1]; the sum of column 0 is the row's product bit. */
  lemma RowColumn(p: seq<bool>, s: seq<bool>, c: seq<bool>, i: nat, w: seq<bool>, sum: bool, carry: bool)
    requires |p| == |s| == |c| >= 1 && i < |p| && w == RowState(p, s, c, i)
    requires sum == Xor3(p[i], w[|p| + i], w[i]) && carry == Maj(p[i], w[|p| + i], w[i])
    ensures i > 0 ==> w[|p| + i - 1 := sum][i := carry] == RowState(p, s, c, i + 1)
    ensures i == 0 ==> w[i := carry] == RowState(p, s, c, i + 1) && sum == Xor3(p[0], s[0], c[0])
  {
  }

  /** Before the first column the words are untouched. */
  lemma RowStart(p: seq<bool>, w: seq<bool>)
    requires |p| >= 1 && |w| == 2 * |p|
    ensures RowState(p, w[|p|..], w[..|p|], 0) == w
  {
  }

  /** After the last column the words are the carries, the sums shifted down one column, and
      the untouched top bit. */
  lemma RowEnd(p: seq<bool>, s: seq<bool>, c: seq<bool>)
    requires |p| == |s| == |c| >= 1
    ensures RowState(p, s, c, |p|) == MajWord(p, s, c) + XorWord(p, s, c)[1..] + [s[|p| - 1]]
  {
  }

  /** One row of `new_multiplier`: the full adder of column i takes the partial product, the
      sum word S = tmp[n..] and the carry word C = tmp[..n]; its carry replaces C[i], its sum
      goes one column down into S, and the sum of column 0 is product bit j (returned as
      `low`); the top of S is left alone. */
  method MultiplyRow(a: seq<bool>, bj: bool, tmp: seq<bool>) returns (low: bool, tmp': seq<bool>)
    requires |a| >= 1 && |tmp| == 2 * |a|
    ensures tmp' == RowState(RowBits(a, bj), tmp[|a|..], tmp[..|a|], |a|)
    ensures low == Xor3(a[0] && bj, tmp[|a|], tmp[0])
  {
    var n := |a|;
    ghost var p, s0, c0 := RowBits(a, bj), tmp[n..], tmp[..n];
    RowStart(p, tmp);
    tmp' := tmp;
    low := false;
    var i := 0;
    while i < n
      invariant 0 <= i <= n && tmp' == RowState(p, s0, c0, i)
      invariant i > 0 ==> low == Xor3(p[0], s0[0], c0[0])
    {
      low, tmp' := ColumnStep(a, bj, i, low, tmp', p, s0, c0);
      i := i + 1;
    }
  }

  /** Column i of a row: one full adder over the partial product a[i] and bj, S[i] and C[i]. */
  method ColumnStep(a: seq<bool>, bj: bool, i: nat, low: bool, tmp: seq<bool>,
                    ghost p: seq<bool>, ghost s: seq<bool>, ghost c: seq<bool>)
    returns (low': bool, tmp': seq<bool>)
    requires |a| == |s| == |c| >= 1 && i < |a| && p == RowBits(a, bj)
    requires tmp == RowState(p, s, c, i)
    ensures tmp' == RowState(p, s, c, i + 1)
    ensures low' == if i == 0 then Xor3(p[0], s[0], c[0]) else low
  {
    var n := |a|;
    var sum, carry := KoggeStoneFullAdder(a[i] && bj, tmp[n + i], tmp[i]);
    assert (a[i] && bj) == p[i];
    RowColumn(p, s, c, i, tmp, sum, carry);
    if i > 0 {
      low', tmp' := low, tmp[n + i - 1 := sum][i := carry];
    } else {
      low', tmp' := sum, tmp[i := carry];
    }
  }

  /** One row in numbers: the carry-save words S', C' after the row and product bit j hold
      the old words plus the row, S' being worth its low n - 1 bits. */
  lemma RowStep(p: seq<bool>, s: seq<bool>, c: seq<bool>, w: seq<bool>)
    requires |p| == |s| == |c| >= 1 && !s[|s| - 1]
    requires w == MajWord(p, s, c) + XorWord(p, s, c)[1..] + [s[|s| - 1]]
    ensures Val(p) + Val(s) + Val(c) == B(XorWord(p, s, c)[0]) + 2 * (Val(w[|p|..]) + Val(w[..|p|]))
  {
    var n := |p|;
    var sums := XorWord(p, s, c);
    CarrySave(p, s, c);
    assert w[..n] == MajWord(p, s, c);
    assert w[n..] == sums[1..] + Zeros(1);
    ValZeroPadding(sums[1..], 1);
  }

  /** Accumulating row j at weight 2^j keeps acc + 2^j w == a * val(b[..j]). */
  lemma AccumulateRow(acc: int, w: int, pv: int, low: bool, w': int, j: nat, av: int, bv: int, bj: bool)
    requires acc + Pow2(j) * w == av * bv
    requires pv == (if bj then av else 0)
    requires pv + w == B(low) + 2 * w'
    ensures acc + Pow2(j) * B(low) + Pow2(j + 1) * w' == av * (bv + Pow2(j) * B(bj))
  {
    assert Pow2(j + 1) == 2 * Pow2(j);
    assert pv == B(bj) * av;
    Distribute(acc, w, pv, B(low), w', Pow2(j), av, bv, B(bj));
  }

  /** The arithmetic of AccumulateRow with q = 2^j and the bits as numbers. */
  lemma Distribute(acc: int, w: int, pv: int, l: int, w': int, q: int, av: int, bv: int, bb: int)
    requires acc + q * w == av * bv && pv == bb * av && pv + w == l + 2 * w'
    ensures acc + q * l + (2 * q) * w' == av * (bv + q * bb)
  {
    calc {
      acc + q * l + (2 * q) * w';
      { assert q * (l + 2 * w') == q * l + (2 * q) * w'; }
      acc + q * (pv + w);
      { assert q * (pv + w) == q * pv + q * w; }
      acc + q * w + q * (bb * av);
      { assert q * (bb * av) == av * (q * bb); }
      av * bv + av * (q * bb);
      { assert av * (bv + q * bb) == av * bv + av * (q * bb); }
      av * (bv + q * bb);
    }
  }

  /** An n-bit by m-bit product fits in n + m bits. */
  lemma ProductBound(x: int, y: int, n: nat, m: nat)
    requires 0 <= x < Pow2(n) && 0 <= y < Pow2(m)
    ensures x * y < Pow2(n + m)
  {
    Pow2Add(n, m);
    if y > 0 {
      MulGap(x, Pow2(n), y);
    }
    MulGap(y, Pow2(m), Pow2(n));
  }

  /** Once the rows are in, the carry-save words are below 2^n: their 2^m multiple is below
      the n + m bit product. */
  lemma SavedWordsFit(low: int, saved: int, n: nat, m: nat, prod: int)
    requires 0 <= low && 0 <= saved && low + Pow2(m) * saved == prod < Pow2(n + m)
    ensures saved < Pow2(n)
  {
    Pow2Add(m, n);
    if saved >= Pow2(n) {
      MulGap(Pow2(n) - 1, saved, Pow2(m));
    }
  }

  /** One row in the words of `new_multiplier`: the row's input words S, C and partial
      products p are worth product bit j plus twice the output words, whose top bit stays 0.
      This half reasons about the row's words (`RowState`) only; `RowAccumulates` is the
      arithmetic on their values, and `RowKeepsInvariant` joins the two, so that neither
      proof carries the other's terms. */
  lemma RowCarrySave(a: seq<bool>, bj: bool, tmp: seq<bool>, low: bool, tmp': seq<bool>)
    requires |a| >= 1 && |tmp| == 2 * |a| && !tmp[2 * |a| - 1]
    requires tmp' == RowState(RowBits(a, bj), tmp[|a|..], tmp[..|a|], |a|)
    requires low == Xor3(a[0] && bj, tmp[|a|], tmp[0])
    ensures |tmp'| == 2 * |a| && !tmp'[2 * |a| - 1]
    ensures (if bj then Val(a) else 0) + Val(tmp[|a|..]) + Val(tmp[..|a|])
            == B(low) + 2 * (Val(tmp'[|a|..]) + Val(tmp'[..|a|]))
  {
    var n, p := |a|, RowBits(a, bj);
    RowEnd(p, tmp[n..], tmp[..n]);
    RowStep(p, tmp[n..], tmp[..n], tmp');
    RowValue(a, bj);
  }

  /** The invariant of the rows of `new_multiplier`: the low j product bits and the
      carry-save words at weight 2^j make up a times the low j bits of b. It takes the row
      relation of `RowCarrySave` as a hypothesis and reasons on values only. */
  lemma RowAccumulates(a: seq<bool>, b: seq<bool>, j: nat, res: seq<bool>, tmp: seq<bool>, low: bool, tmp': seq<bool>)
    requires |a| >= 1 && |tmp| == |tmp'| == 2 * |a| && j < |b| && j < |res|
    requires Val(res[..j]) + Pow2(j) * (Val(tmp[|a|..]) + Val(tmp[..|a|])) == Val(a) * Val(b[..j])
    requires (if b[j] then Val(a) else 0) + Val(tmp[|a|..]) + Val(tmp[..|a|])
             == B(low) + 2 * (Val(tmp'[|a|..]) + Val(tmp'[..|a|]))
    ensures Val(res[j := low][..j + 1]) + Pow2(j + 1) * (Val(tmp'[|a|..]) + Val(tmp'[..|a|]))
            == Val(a) * Val(b[..j + 1])
  {
    var res' := res[j := low];
    assert res'[..j] == res[..j];
    ValPrefixStep(res', j);
    ValPrefixStep(b, j);
    AccumulateRow(Val(res[..j]), Val(tmp[|a|..]) + Val(tmp[..|a|]), if b[j] then Val(a) else 0, low,
                  Val(tmp'[|a|..]) + Val(tmp'[..|a|]), j, Val(a), Val(b[..j]), b[j]);
  }

  /** A whole row of `new_multiplier` keeps the rows' invariant and the top bit of S false. */
  lemma RowKeepsInvariant(a: seq<bool>, b: seq<bool>, j: nat, res: seq<bool>, tmp: seq<bool>, low: bool, tmp': seq<bool>)
    requires |a| >= 1 && |tmp| == 2 * |a| && !tmp[2 * |a| - 1] && j < |b| && j < |res|
    requires tmp' == RowState(RowBits(a, b[j]), tmp[|a|..], tmp[..|a|], |a|)
    requires low == Xor3(a[0] && b[j], tmp[|a|], tmp[0])
    requires Val(res[..j]) + Pow2(j) * (Val(tmp[|a|..]) + Val(tmp[..|a|])) == Val(a) * Val(b[..j])
    ensures |tmp'| == 2 * |a| && !tmp'[2 * |a| - 1]
    ensures Val(res[j := low][..j + 1]) + Pow2(j + 1) * (Val(tmp'[|a|..]) + Val(tmp'[..|a|]))
            == Val(a) * Val(b[..j + 1])
  {
    RowCarrySave(a, b[j], tmp, low, tmp');
    RowAccumulates(a, b, j, res, tmp, low, tmp');
  }

  /** The final ripple adds the saved words without a carry out when their sum fits. */
  lemma HighWord(c: seq<bool>, s: seq<bool>)
    requires |c| == |s| && Val(c) + Val(s) < Pow2(|c|)
    ensures Val(ResultBits(Add, c, s, false)) == Val(s) + Val(c)
  {
    AdditionOverflows(c, s, false);
  }

  /** The low product bits below the high word make up the product. */
  lemma ProductAssembled(a: seq<bool>, b: seq<bool>, low: seq<bool>, high: seq<bool>)
    requires |low| == |b|
    requires Val(low) + Pow2(|b|) * Val(high) == Val(a) * Val(b)
    ensures Val(low + high) == Val(a) * Val(b)
  {
    ValAppend(low, high);
  }

  /** The saved words are below 2^n once the rows are in. */
  lemma CarrySaveFits(a: seq<bool>, b: seq<bool>, lowVal: int, saved: int)
    requires 0 <= lowVal && 0 <= saved && lowVal + Pow2(|b|) * saved == Val(a) * Val(b)
    ensures saved < Pow2(|a|)
  {
    ValBound(a);
    ValBound(b);
    ProductBound(Val(a), Val(b), |a|, |b|);
    SavedWordsFit(lowVal, saved, |a|, |b|, Val(a) * Val(b));
  }

  /** `new_multiplier`: an array of m rows of n full adders in carry-save form, the low
      product bit of each row going straight to the result, followed by a ripple of full
      adders that adds the saved sum and carry words into the high n result bits. */
  method NewMultiplier(a: seq<bool>, b: seq<bool>) returns (res: seq<bool>)
    requires |a| >= 1
    ensures |res| == |a| + |b| && Val(res) == Val(a) * Val(b)
  {
    var n, m := |a|, |b|;
    var tmp;
    res, tmp := CarrySaveRows(a, b);
    ghost var tmp0 := tmp;
    tmp := tmp[2 * n - 1 := false];
    assert tmp == tmp0;
    ghost var low, s, c := res[..m], tmp[n..], tmp[..n];
    CarrySaveFits(a, b, Val(low), Val(s) + Val(c));
    HighWord(c, s);
    res := FinalRipple(res, m, n, tmp);
    ProductAssembled(a, b, low, ResultBits(Add, c, s, false));
  }

  /** The rows of `new_multiplier`: row j adds a & b[j] to the carry-save words held in
      tmp (carry word low, sum word high) and writes product bit j. */
  method CarrySaveRows(a: seq<bool>, b: seq<bool>) returns (res: seq<bool>, tmp: seq<bool>)
    requires |a| >= 1
    ensures |res| == |a| + |b| && |tmp| == 2 * |a| && !tmp[2 * |a| - 1]
    ensures Val(res[..|b|]) + Pow2(|b|) * (Val(tmp[|a|..]) + Val(tmp[..|a|])) == Val(a) * Val(b)
  {
    var n, m := |a|, |b|;
    res := Zeros(n + m);
    tmp := Zeros(2 * n);
    ValZeros(n);
    assert tmp[n..] == Zeros(n) && tmp[..n] == Zeros(n);
    assert res[..0] == [] && b[..0] == [];
    var j := 0;
    while j < m
      invariant 0 <= j <= m && |res| == n + m && |tmp| == 2 * n
      invariant !tmp[2 * n - 1]
      invariant Val(res[..j]) + Pow2(j) * (Val(tmp[n..]) + Val(tmp[..n])) == Val(a) * Val(b[..j])
    {
      res, tmp := NextRow(a, b, j, res, tmp);
      j := j + 1;
    }
    assert b[..m] == b;
  }

  /** Row j of `new_multiplier`: its full adders update tmp and its column-0 sum becomes
      product bit j, keeping the rows' invariant. */
  method NextRow(a: seq<bool>, b: seq<bool>, j: nat, res: seq<bool>, tmp: seq<bool>) returns (res': seq<bool>, tmp': seq<bool>)
    requires |a| >= 1 && |tmp| == 2 * |a| && !tmp[2 * |a| - 1] && j < |b| && j < |res|
    requires Val(res[..j]) + Pow2(j) * (Val(tmp[|a|..]) + Val(tmp[..|a|])) == Val(a) * Val(b[..j])
    ensures |res'| == |res| && res'[..j] == res[..j] && res'[j + 1..] == res[j + 1..]
    ensures |tmp'| == 2 * |a| && !tmp'[2 * |a| - 1]
    ensures Val(res'[..j + 1]) + Pow2(j + 1) * (Val(tmp'[|a|..]) + Val(tmp'[..|a|])) == Val(a) * Val(b[..j + 1])
  {
    var low;
    low, tmp' := MultiplyRow(a, b[j], tmp);
    RowKeepsInvariant(a, b, j, res, tmp, low, tmp');
    res' := res[j := low];
  }

  /** The last stage of `new_multiplier`: a ripple of full adders over the saved carry word
      (the low half of tmp) and sum word (the high half) writes result bits m to m + n - 1. */
  method FinalRipple(res: seq<bool>, m: nat, n: nat, tmp: seq<bool>) returns (res': seq<bool>)
    requires |tmp| == 2 * n && |res| == m + n
    ensures res' == res[..m] + ResultBits(Add, tmp[..n], tmp[n..], false)
  {
    ghost var s, c := tmp[n..], tmp[..n];
    ghost var high := ResultBits(Add, c, s, false);
    res' := res;
    var carry := false;
    var i := 0;
    while i < n
      invariant 0 <= i <= n && |res'| == m + n
      invariant res'[..m] == res[..m]
      invariant forall t :: 0 <= t < i ==> res'[m + t] == high[t]
      invariant carry == ChainInto(Add, c, s, false, i)
    {
      assert tmp[i] == c[i] && tmp[n + i] == s[i];
      var sum, carryOut := KoggeStoneFullAdder(tmp[i], tmp[n + i], carry);
      assert high[i] == sum;
      res' := res'[m + i := sum];
      carry := carryOut;
      i := i + 1;
    }
    assert res' == res[..m] + high;
  }

  /** Row k of `advance_multiplier`: the partial products a & b[k], shifted up by k bits and
      zero-extended to the result width. */
  function ShiftedRow(a: seq<bool>, b: seq<bool>, k: nat): (r: seq<bool>)
    requires k < |b|
    ensures |r| == |a| + |b|
  {
    ZeroExtend(Zeros(k) + RowBits(a, b[k]), |a| + |b|)
  }

  /** Row k is worth a * b[k] * 2^k. */
  lemma ShiftedRowValue(a: seq<bool>, b: seq<bool>, k: nat)
    requires k < |b|
    ensures Val(ShiftedRow(a, b, k)) == Pow2(k) * (if b[k] then Val(a) else 0)
  {
    ValShift(RowBits(a, b[k]), k);
    RowValue(a, b[k]);
  }

  /** Row 0 is worth a * val(b[..1]). */
  lemma FirstRow(a: seq<bool>, b: seq<bool>)
    requires |b| >= 1
    ensures Val(ShiftedRow(a, b, 0)) == Val(a) * Val(b[..1])
  {
    assert b[..1] == [b[0]];
    ShiftedRowValue(a, b, 0);
    assert Val(b[..1]) == B(b[0]) by {
      assert b[..1][1..] == [];
    }
  }

  /** Distributing a over one more bit of b. */
  lemma AddRow(av: int, bv: int, w: int, bit: bool)
    ensures av * (bv + w * B(bit)) == av * bv + w * (if bit then av else 0)
  {
  }

  /** Row k + 1 added to a * val(b[..k + 1]) gives a * val(b[..k + 2]). */
  lemma RowsSum(a: seq<bool>, b: seq<bool>, k: nat, accVal: int, sumVal: int)
    requires k + 1 < |b| && accVal == Val(a) * Val(b[..k + 1])
    requires sumVal == Val(ShiftedRow(a, b, k + 1)) + accVal
    ensures sumVal == Val(a) * Val(b[..k + 2])
  {
    ShiftedRowValue(a, b, k + 1);
    ValPrefixStep(b, k + 1);
    AddRow(Val(a), Val(b[..k + 1]), Pow2(k + 1), b[k + 1]);
  }

  /** The product of a by a prefix of b fits in |a| + |b| bits. */
  lemma PrefixProductFits(a: seq<bool>, b: seq<bool>, k: nat)
    requires k <= |b|
    ensures Val(a) * Val(b[..k]) < Pow2(|a| + |b|)
  {
    ValBound(a);
    ValBound(b[..k]);
    ProductBound(Val(a), Val(b[..k]), |a|, k);
    Pow2Monotone(|a| + k, |a| + |b|);
  }

  /** Row k + 1 and the sum of rows 0..k together fit in the result width. */
  lemma RowsFit(a: seq<bool>, b: seq<bool>, k: nat, acc: seq<bool>)
    requires k + 1 < |b| && Val(acc) == Val(a) * Val(b[..k + 1])
    ensures Val(ShiftedRow(a, b, k + 1)) + Val(acc) < Pow2(|a| + |b|)
  {
    RowsSum(a, b, k, Val(acc), Val(ShiftedRow(a, b, k + 1)) + Val(acc));
    PrefixProductFits(a, b, k + 2);
  }

  /** The adder of rows does not overflow when the rows' sum fits. */
  lemma SumFits(a: seq<bool>, b: seq<bool>, k: nat, acc: seq<bool>, sum: seq<bool>)
    requires k + 1 < |b| && |acc| == |a| + |b|
    requires Val(ShiftedRow(a, b, k + 1)) + Val(acc) < Pow2(|a| + |b|)
    requires sum == ResultBits(Add, ShiftedRow(a, b, k + 1), acc, false)
    ensures Val(sum) == Val(ShiftedRow(a, b, k + 1)) + Val(acc)
  {
    AdditionOverflows(ShiftedRow(a, b, k + 1), acc, false);
  }

  /** Adding row k + 1 to the running sum of rows 0..k gives the sum of rows 0..k + 1; the
      n + m bit adder does not overflow because the product of a by the low k + 2 bits of
      b fits. */
  lemma AccumulateShiftedRow(a: seq<bool>, b: seq<bool>, k: nat, acc: seq<bool>, sum: seq<bool>)
    requires k + 1 < |b| && |acc| == |a| + |b|
    requires Val(acc) == Val(a) * Val(b[..k + 1])
    requires sum == ResultBits(Add, ShiftedRow(a, b, k + 1), acc, false)
    ensures Val(sum) == Val(a) * Val(b[..k + 2])
  {
    RowsFit(a, b, k, acc);
    SumFits(a, b, k, acc, sum);
    RowsSum(a, b, k, Val(acc), Val(sum));
  }

  /** The partial-product generation of `advance_multiplier`: row j is a & b[j]. */
  method PartialProducts(a: seq<bool>, b: seq<bool>) returns (pp: seq<seq<bool>>)
    ensures |pp| == |b| && forall k :: 0 <= k < |b| ==> pp[k] == RowBits(a, b[k])
  {
    pp := [];
    var j := 0;
    while j < |b|
      invariant 0 <= j <= |b| && |pp| == j
      invariant forall k :: 0 <= k < j ==> pp[k] == RowBits(a, b[k])
    {
      pp := pp + [RowBits(a, b[j])];
      j := j + 1;
    }
  }

  /** The extension step of `advance_multiplier`: row i gets i constant-false signals at
      the bottom and is zero-extended to |a| + |b| bits. */
  method ExtendRows(a: seq<bool>, b: seq<bool>, pp: seq<seq<bool>>) returns (pp': seq<seq<bool>>)
    requires |pp| == |b| && forall k :: 0 <= k < |b| ==> pp[k] == RowBits(a, b[k])
    ensures |pp'| == |b| && forall k :: 0 <= k < |b| ==> pp'[k] == ShiftedRow(a, b, k)
  {
    var resBit := |a| + |b|;
    pp' := pp;
    var i := 0;
    while i < |pp'|
      invariant 0 <= i <= |b| == |pp'|
      invariant forall k :: 0 <= k < i ==> pp'[k] == ShiftedRow(a, b, k)
      invariant forall k :: i <= k < |b| ==> pp'[k] == RowBits(a, b[k])
    {
      if i == 0 {
        pp' := pp'[i := ZeroExtend(pp'[i], resBit)];
        assert Zeros(0) + RowBits(a, b[0]) == RowBits(a, b[0]);
      } else {
        var row := Zeros(i) + pp'[i];
        pp' := pp'[i := ZeroExtend(row, resBit)];
      }
      i := i + 1;
    }
  }

  /** `advance_multiplier` and, with `fixed`, its corrected form. As written, the result is
      the last accumulated row only when some addition happens, so a one-bit b leaves it
      empty; the corrected form starts from row 0. */
  method AdvanceMultiplierCore(a: seq<bool>, b: seq<bool>, func: AdderTag, fixed: bool) returns (r: seq<bool>)
    requires |b| >= 1
    ensures fixed || |b| >= 2 ==> |r| == |a| + |b| && Val(r) == Val(a) * Val(b)
    ensures !fixed && |b| == 1 ==> r == []
  {
    var n, m := |a|, |b|;
    var pp := PartialProducts(a, b);
    pp := ExtendRows(a, b, pp);
    r := if fixed then pp[0] else [];
    FirstRow(a, b);
    var i := 0;
    while i < |pp| - 1
      invariant 0 <= i <= m - 1 && |pp| == m
      invariant forall k :: i < k < m ==> pp[k] == ShiftedRow(a, b, k)
      invariant |pp[i]| == n + m && Val(pp[i]) == Val(a) * Val(b[..i + 1])
      invariant r == if i >= 1 && i == m - 1 then pp[i] else if fixed then ShiftedRow(a, b, 0) else []
    {
      var sum := AddRows(func, a, b, i, pp[i], pp[i + 1]);
      pp := pp[i + 1 := sum];
      if i == |pp| - 2 {
        r := pp[i + 1];
      }
      i := i + 1;
    }
    assert b[..m] == b;
  }

  /** One addition of `advance_multiplier`: row k + 1 becomes the sum of itself and the
      running sum of rows 0..k, computed in place by the chosen adder with carry-in 0. */
  method AddRows(func: AdderTag, a: seq<bool>, b: seq<bool>, k: nat, acc: seq<bool>, row: seq<bool>) returns (sum: seq<bool>)
    requires k + 1 < |b| && |acc| == |a| + |b| && row == ShiftedRow(a, b, k + 1)
    requires Val(acc) == Val(a) * Val(b[..k + 1])
    ensures |sum| == |a| + |b| && Val(sum) == Val(a) * Val(b[..k + 2])
  {
    var carry := false;
    var arr := ToArray(row);
    carry := AddInPlace(func, arr, acc);
    AccumulateShiftedRow(a, b, k, acc, arr[..]);
    sum := arr[..];
  }

  /** `advance_multiplier` as written. */
  method AdvanceMultiplier(a: seq<bool>, b: seq<bool>, func: AdderTag) returns (r: seq<bool>)
    requires |b| >= 1
    ensures |b| >= 2 ==> |r| == |a| + |b| && Val(r) == Val(a) * Val(b)
    ensures |b| == 1 ==> r == []
  {
    r := AdvanceMultiplierCore(a, b, func, false);
  }

  /** With a one-bit multiplier the result is empty, so the multiplier command's check that
      the result has |a| + |b| bits fails. */
  method SingleRowCounterexample(func: AdderTag) returns (r: seq<bool>)
    ensures |r| == 0 && |r| != |[true]| + |[true]|
  {
    r := AdvanceMultiplier([true], [true], func);
  }

  /** `advance_multiplier` returning the last accumulated row, which is row 0 when b has a
      single bit. */
  method AdvanceMultiplierFixed(a: seq<bool>, b: seq<bool>, func: AdderTag) returns (r: seq<bool>)
    requires |b| >= 1
    ensures |r| == |a| + |b| && Val(r) == Val(a) * Val(b)
  {
    r := AdvanceMultiplierCore(a, b, func, true);
  }
}
