/** The restoring array dividers of src/core/arithmetic.hpp. Both shift the divisor left by
    N - 1 bits, then for each quotient bit from the top trial-subtract the shifted divisor
    from the partial remainder, keep the difference when no borrow occurs, and shift the
    divisor right by one. Quotient bits are collected most significant first and reversed. */
module Dividers {
  import opened Words
  import opened Gates
  import opened Ripple
  import opened PrefixAdders

  /** The trial subtractors selectable for `restoring_array_divider_advance`
      (the `--advance` names of the divider command). */
  datatype SubtractorTag = BrentKung | KoggeStone | HanCarlson | BRS | BLS

  /** The `func` argument, as the divider command binds it: an in-place subtractor called
      with borrow-in false. Every tag yields the ripple difference and borrow; the Brent-Kung
      and Han-Carlson subtractors ignore the borrow-in in their carries, which is harmless
      when it is false. */
  method TrialSubtract(ntk: Network, func: SubtractorTag, p: array<bool>, y: seq<bool>) returns (borrow: bool)
    requires p.Length == |y| >= 1
    modifies p
    ensures p[..] == ResultBits(Sub, old(p[..]), y, false)
    ensures borrow == ChainOut(Sub, old(p[..]), y, false)
  {
    match func {
      case BrentKung =>
        borrow := BrentKungSubtractorInPlace(p, y, false);
        UnfoldedWithoutCarryIn(Sub, old(p[..]), y);
      case KoggeStone =>
        borrow := KoggeStoneSubtractorInPlace(p, y, false);
      case HanCarlson =>
        borrow := HanCarlsonSubtractorInPlace(p, y, false);
        UnfoldedWithoutCarryIn(Sub, old(p[..]), y);
      case BLS =>
        borrow := BorrowLookaheadSubtractorInPlace(ntk, p, y, false);
      case BRS =>
        borrow := BorrowRippleSubtractorInPlace(ntk, p, y, false);
    }
  }

  /** The value of the partial remainder after i quotient bits q (most significant first):
      a - b * val(q) * 2^k, k being the number of quotient bits still to come. */
  function Partial(a: seq<bool>, b: seq<bool>, q: seq<bool>, k: nat): int
  {
    Val(a) - Val(b) * Val(Reverse(q)) * Pow2(k)
  }

  /** One restoring step at weight P: with R below 2b P, the quotient bit is R >= b P, and
      subtracting it when set leaves a remainder below b P for the next bit. */
  lemma DivStep(a: int, bv: int, qv: int, p: int, r: int, q: bool, y: int)
    requires p >= 1 && bv >= 0 && y == bv * p && r == a - bv * qv * (2 * p) && r >= 0
    requires q == (r >= y)
    requires bv > 0 ==> r < bv * (2 * p)
    ensures r - B(q) * y == a - bv * (B(q) + 2 * qv) * p
    ensures r - B(q) * y >= 0
    ensures bv > 0 ==> r - B(q) * y < bv * p
  {
    assert bv * qv * (2 * p) == 2 * qv * (bv * p);
    assert bv * (B(q) + 2 * qv) * p == B(q) * (bv * p) + 2 * qv * (bv * p);
    assert bv * (2 * p) == 2 * (bv * p);
  }

  /** The shifted divisor: k zeros below b. */
  lemma ShiftedDivisor(b: seq<bool>, k: nat)
    ensures Val(Zeros(k) + b) == Val(b) * Pow2(k)
    ensures k > 0 ==> (Zeros(k) + b)[1..] == Zeros(k - 1) + b
  {
    ValShift(b, k);
    if k > 0 {
      assert (Zeros(k) + b)[1..] == Zeros(k - 1) + b;
    }
  }

  /** The invariant of restoring division with k quotient bits still to come: the partial
      remainder r is a - b * val(reverse(q)) * 2^k, lies between 0 and a, and is below
      b * 2^k; when b is 0 every quotient bit so far is set. */
  ghost predicate Restoring(a: seq<bool>, b: seq<bool>, q: seq<bool>, k: nat, r: int)
  {
    r == Partial(a, b, q, k) && 0 <= r <= Val(a)
    && (Val(b) > 0 ==> r < Val(b) * Pow2(k))
    && (Val(b) == 0 ==> Val(Reverse(q)) == Pow2(|q|) - 1)
  }

  /** Before the first step the partial remainder is the dividend. */
  lemma RestoringStart(a: seq<bool>, b: seq<bool>)
    requires |a| == |b|
    ensures Restoring(a, b, [], |a|, Val(a))
  {
    var e: seq<bool> := [];
    assert Val(Reverse(e)) == 0;
    assert Val(b) * Val(Reverse(e)) * Pow2(|a|) == 0;
    ValBound(a);
    if Val(b) > 0 {
      MulAtLeast(Val(b), Pow2(|a|));
    }
  }

  /** One quotient bit at weight 2^k: when the trial subtraction has compared the partial
      remainder r with the shifted divisor y = b * 2^k and kept r - bit * y, the invariant
      holds with one more quotient bit. */
  lemma RestoringStep(a: seq<bool>, b: seq<bool>, q0: seq<bool>, k: nat, r: int, y: seq<bool>, bit: bool, kept: int)
    requires y == Zeros(k) + b && Restoring(a, b, q0, k + 1, r)
    requires bit == (r >= Val(y)) && kept == r - B(bit) * Val(y)
    ensures Restoring(a, b, q0 + [bit], k, kept)
  {
    ShiftedDivisor(b, k);
    ValReverseSnoc(q0, bit);
    assert Pow2(k + 1) == 2 * Pow2(k);
    DivStep(Val(a), Val(b), Val(Reverse(q0)), Pow2(k), r, bit, Val(y));
  }

  /** After the last step the quotient and the partial remainder are the Euclidean ones, or
      the all-ones word and the dividend when b is 0. */
  lemma RestoringFinish(a: seq<bool>, b: seq<bool>, q: seq<bool>, r: int)
    requires |a| == |b| == |q| && Restoring(a, b, q, 0, r)
    ensures Val(b) > 0 ==> Val(Reverse(q)) == Val(a) / Val(b) && r == Val(a) % Val(b)
    ensures Val(b) == 0 ==> Val(Reverse(q)) == Pow2(|a|) - 1 && r == Val(a)
    ensures 0 <= r < Pow2(|a|)
  {
    ValBound(a);
    assert Pow2(0) == 1;
    FinalDivision(Val(a), Val(b), Val(Reverse(q)), r);
  }

  /** With no quotient bits to come, a = b q + r with 0 <= r < b is Euclidean division. */
  lemma FinalDivision(av: int, bv: int, qv: int, r: int)
    requires bv >= 0 && r == av - bv * qv * 1 && 0 <= r <= av && (bv > 0 ==> r < bv * 1)
    ensures bv > 0 ==> qv == av / bv && r == av % bv
    ensures bv == 0 ==> r == av
  {
    if bv > 0 {
      DivModUnique(av, bv, qv, r);
    }
  }

  /** Dropping the most significant bit reduces the value modulo the new width, and keeps it
      when it already fits. */
  lemma PopTop(s: seq<bool>)
    requires |s| >= 1
    ensures Val(s[..|s| - 1]) == Val(s) % Pow2(|s| - 1)
    ensures Val(s) < Pow2(|s| - 1) ==> Val(s[..|s| - 1]) == Val(s)
  {
    ValPrefixMod(s, |s| - 1);
    if Val(s) < Pow2(|s| - 1) {
      ModOfSmall(Val(s), Pow2(|s| - 1));
    }
  }

  /** One trial step: subtract y from a copy of the partial remainder with `func`, take
      "no borrow" as the quotient bit and keep the difference only when that bit is set
      (`mux_inplace(quo.back(), p_rem, tmp)`). */
  method Trial(ntk: Network, func: SubtractorTag, pRem: seq<bool>, y: seq<bool>) returns (bit: bool, kept: seq<bool>)
    requires |pRem| == |y| >= 1
    ensures bit == (Val(pRem) >= Val(y))
    ensures |kept| == |pRem| && Val(kept) == Val(pRem) - B(bit) * Val(y)
  {
    var arr := ToArray(pRem);
    var borrow := TrialSubtract(ntk, func, arr, y);
    bit := !borrow;
    MuxInPlace(bit, arr, pRem);
    kept := arr[..];
    SubtractionCompares(pRem, y, false);
  }

  /** One step of the advanced divider while the shifted divisor y is wider than the
      N-bit partial remainder: its high part is ORed into `cond`; when set, y exceeds any
      N-bit remainder and the quotient bit is 0; otherwise the N-bit subtraction decides. */
  method AdvanceTrial(ntk: Network, func: SubtractorTag, pRem: seq<bool>, y: seq<bool>, n: nat)
    returns (bit: bool, kept: seq<bool>)
    requires |pRem| == n >= 1 && |y| > n
    ensures bit == (Val(pRem) >= Val(y))
    ensures |kept| == n && Val(kept) == Val(pRem) - B(bit) * Val(y)
    ensures NaryOr(y[n..]) ==> !bit && kept == pRem
  {
    var yM := y[n..];
    var yL := y[..n];
    var cond := NaryOr(yM);
    var arr := ToArray(pRem);
    var borrow := TrialSubtract(ntk, func, arr, yL);
    bit := Mux(cond, !cond, !borrow);
    kept := MuxWord(cond, pRem, MuxWord(borrow, pRem, arr[..]));
    ValSplit(y, n);
    NaryOrNonZero(yM);
    SubtractionCompares(pRem, yL, false);
    ValBound(pRem);
    AdvanceDecision(Val(pRem), Val(y), Val(yL), Val(yM), Pow2(n), cond, borrow, Val(arr[..]));
  }

  /** The decision of `AdvanceTrial` in numbers: y = yL + 2^n yM against an n-bit
      remainder p; a non-zero yM makes y too large, otherwise the borrow of p - yL decides. */
  lemma AdvanceDecision(p: int, y: int, yL: int, yM: int, pow: int, cond: bool, borrow: bool, diff: int)
    requires y == yL + pow * yM && 0 <= p < pow && 0 <= yL && 0 <= yM
    requires cond == (yM > 0) && borrow == (p < yL) && (!borrow ==> diff == p - yL)
    ensures Mux(cond, !cond, !borrow) == (p >= y)
    ensures (if cond || borrow then p else diff) == p - B(Mux(cond, !cond, !borrow)) * y
  {
    if cond {
      MulAtLeast(yM, pow);
    }
  }

  /** The state of `restoring_array_divider` after i of its N steps: i quotient bits, the
      divisor shifted by N - 1 - i, and the partial remainder r in 2N - 1 - i bits (N bits
      after the last step of the corrected form; N - 1 bits, reduced modulo 2^(N - 1), after
      the last step as written). */
  ghost predicate CoreState(a: seq<bool>, b: seq<bool>, popLast: bool, i: nat,
                            quo: seq<bool>, y: seq<bool>, pRem: seq<bool>, r: int)
  {
    var n := |a|;
    |b| == n >= 1 && i <= n && |quo| == i
    && |y| == 2 * n - 1 - i && (i < n ==> y == Zeros(n - 1 - i) + b)
    && |pRem| == (if i == n && !popLast then n else 2 * n - 1 - i)
    && Restoring(a, b, quo, n - i, r)
    && Val(pRem) == (if i == n && popLast then r % Pow2(n - 1) else r)
  }

  /** Step i of the divider: trial subtraction against y, one more quotient bit, y shifted
      down, and the top bit of the partial remainder dropped. */
  method DividerStep(ntk: Network, a: seq<bool>, b: seq<bool>, popLast: bool, i: nat,
                     quo: seq<bool>, y: seq<bool>, pRem: seq<bool>, ghost r: int)
    returns (quo': seq<bool>, y': seq<bool>, pRem': seq<bool>, ghost r': int)
    requires i < |a| && CoreState(a, b, popLast, i, quo, y, pRem, r)
    ensures CoreState(a, b, popLast, i + 1, quo', y', pRem', r')
  {
    var n := |a|;
    var bit, kept := Trial(ntk, BRS, pRem, y);
    RestoringStep(a, b, quo, n - 1 - i, r, y, bit, Val(kept));
    quo' := quo + [bit];
    r' := Val(kept);
    ShiftedDivisor(b, n - 1 - i);
    y' := y[1..];
    if popLast || |kept| > n {
      if i + 1 < n {
        ValBound(a);
        Pow2Monotone(n, |kept| - 1);
      }
      PopTop(kept);
      pRem' := kept[..|kept| - 1];
    } else {
      pRem' := kept;
    }
  }

  /** `restoring_array_divider` (popLast) and its corrected form (!popLast). The partial
      remainder starts as a zero-extended to 2N - 1 bits and loses its top bit after every
      step; as written it also loses it after the last step, leaving N - 1 bits. */
  method RestoringDividerCore(ntk: Network, a: seq<bool>, b: seq<bool>, popLast: bool)
    returns (quo: seq<bool>, rem: seq<bool>)
    requires |a| == |b| >= 1
    ensures |quo| == |a| && |rem| == if popLast then |a| - 1 else |a|
    ensures Val(b) > 0 ==> Val(quo) == Val(a) / Val(b)
    ensures Val(b) == 0 ==> Val(quo) == Pow2(|a|) - 1
    ensures Val(rem) == (if Val(b) > 0 then Val(a) % Val(b) else Val(a)) % Pow2(|rem|)
  {
    var n := |a|;
    var y := Zeros(n - 1) + b;
    quo := [];
    var pRem := ZeroExtend(a, |y|);
    ghost var r := Val(a);
    RestoringStart(a, b);
    var i := 0;
    while i < n
      invariant 0 <= i <= n && CoreState(a, b, popLast, i, quo, y, pRem, r)
    {
      quo, y, pRem, r := DividerStep(ntk, a, b, popLast, i, quo, y, pRem, r);
      i := i + 1;
    }
    RestoringFinish(a, b, quo, r);
    if !popLast {
      ModOfSmall(r, Pow2(n));
    }
    quo := Reverse(quo);
    rem := pRem;
  }

  /** `restoring_array_divider` as written: N quotient bits and an (N - 1)-bit remainder,
      which is the true remainder only modulo 2^(N - 1). Division by zero yields the all-ones
      quotient. */
  method RestoringArrayDivider(ntk: Network, a: seq<bool>, b: seq<bool>) returns (quo: seq<bool>, rem: seq<bool>)
    requires |a| == |b| >= 1
    ensures |quo| == |a| && |rem| == |a| - 1
    ensures Val(b) > 0 ==> Val(quo) == Val(a) / Val(b) && Val(rem) == Val(a) % Val(b) % Pow2(|a| - 1)
    ensures Val(b) == 0 ==> Val(quo) == Pow2(|a|) - 1 && Val(rem) == Val(a) % Pow2(|a| - 1)
  {
    quo, rem := RestoringDividerCore(ntk, a, b, true);
  }

  /** The remainder of 2 / 3 on two bits is 2, but the one-bit remainder left by
      `restoring_array_divider` reads 0. */
  method DividerRemainderCounterexample(ntk: Network) returns (rem: seq<bool>)
    ensures Val([false, true]) % Val([true, true]) == 2
    ensures |rem| == 1 && Val(rem) == 0
  {
    assert Val([false, true]) == 2 by {
      assert [false, true][1..] == [true];
      assert [true][1..] == [];
    }
    assert Val([true, true]) == 3 by {
      assert [true, true][1..] == [true];
      assert [true][1..] == [];
    }
    var quo;
    quo, rem := RestoringArrayDivider(ntk, [false, true], [true, true]);
    assert Pow2(1) == 2;
  }

  /** The divider with the last pop removed: quotient and remainder on N bits. Division by
      zero yields the all-ones quotient and leaves the dividend as remainder. */
  method RestoringArrayDividerFixed(ntk: Network, a: seq<bool>, b: seq<bool>) returns (quo: seq<bool>, rem: seq<bool>)
    requires |a| == |b| >= 1
    ensures |quo| == |a| && |rem| == |a|
    ensures Val(b) > 0 ==> Val(quo) == Val(a) / Val(b) && Val(rem) == Val(a) % Val(b)
    ensures Val(b) == 0 ==> Val(quo) == Pow2(|a|) - 1 && rem == a
  {
    quo, rem := RestoringDividerCore(ntk, a, b, false);
    ValBound(a);
    ValBound(b);
    if Val(b) > 0 {
      ModOfSmall(Val(a) % Val(b), Pow2(|a|));
    } else {
      ModOfSmall(Val(a), Pow2(|a|));
      ValInjective(rem, a);
    }
  }

  /** `restoring_array_divider_advance`: the partial remainder stays N bits wide; while the
      shifted divisor is wider, its high part decides the quotient bit through `cond`, and a
      last plain step handles the unshifted divisor. */
  method RestoringArrayDividerAdvance(ntk: Network, a: seq<bool>, b: seq<bool>, func: SubtractorTag)
    returns (quo: seq<bool>, rem: seq<bool>)
    requires |a| == |b| >= 1
    ensures |quo| == |a| && |rem| == |a|
    ensures Val(b) > 0 ==> Val(quo) == Val(a) / Val(b) && Val(rem) == Val(a) % Val(b)
    ensures Val(b) == 0 ==> Val(quo) == Pow2(|a|) - 1 && rem == a
  {
    var n := |a|;
    var y := Zeros(n - 1) + b;
    quo := [];
    var pRem := a;
    ghost var r := Val(a);
    RestoringStart(a, b);
    var i := 0;
    while i < n && |y| > n
      invariant 0 <= i <= n - 1 && |quo| == i
      invariant |y| == 2 * n - 1 - i && y == Zeros(n - 1 - i) + b
      invariant |pRem| == n && r == Val(pRem)
      invariant Restoring(a, b, quo, n - i, r)
    {
      var bit, kept := AdvanceTrial(ntk, func, pRem, y, n);
      RestoringStep(a, b, quo, n - 1 - i, r, y, bit, Val(kept));
      quo := quo + [bit];
      pRem := kept;
      r := Val(kept);
      ShiftedDivisor(b, n - 1 - i);
      y := y[1..];
      i := i + 1;
    }
    var yL := y[..n];
    assert yL == y;
    var bit, kept := Trial(ntk, func, pRem, yL);
    RestoringStep(a, b, quo, 0, r, y, bit, Val(kept));
    quo := quo + [bit];
    pRem := kept;
    y := y[1..];
    RestoringFinish(a, b, quo, Val(pRem));
    if Val(b) == 0 {
      ValInjective(pRem, a);
    }
    quo := Reverse(quo);
    rem := pRem;
  }
}
