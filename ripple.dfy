/** The reference ripple chain every adder and subtractor of src/core/arithmetic.hpp is
    measured against, and the borrow ripple subtractor that realises it literally. */
module Ripple {
  import opened Words
  import opened Gates

  /** Addition (carry chain) or subtraction (borrow chain). */
  datatype Op = Add | Sub

  /** Generate signal of one bit position: a & b for addition, !a & b for subtraction. */
  function Gen(op: Op, x: bool, y: bool): bool
  {
    match op
    case Add => x && y
    case Sub => !x && y
  }

  /** Propagate signal of one bit position: a ^ b for addition, !a | b for subtraction. */
  function Pro(op: Op, x: bool, y: bool): bool
  {
    match op
    case Add => x != y
    case Sub => !x || y
  }

  /** Carry (borrow) out of one full adder (subtractor) cell: maj(a, b, c) or maj(!a, b, c).
      It is generated at the position, or propagated from the incoming c. */
  function CellOut(op: Op, x: bool, y: bool, c: bool): (r: bool)
    ensures r == (Gen(op, x, y) || (Pro(op, x, y) && c))
  {
    match op
    case Add => Maj(x, y, c)
    case Sub => Maj(!x, y, c)
  }

  /** One cell in numbers: x + y + c == s + 2 cout, or x - y - c == d - 2 bout. */
  lemma CellValue(op: Op, x: bool, y: bool, c: bool)
    ensures op == Add ==> B(x) + B(y) + B(c) == B(Xor3(x, y, c)) + 2 * B(CellOut(op, x, y, c))
    ensures op == Sub ==> B(x) - B(y) - B(c) == B(Xor3(x, y, c)) - 2 * B(CellOut(op, x, y, c))
  {
  }

  /** The carry (borrow) entering bit i of a ripple chain with carry-in c. */
  function ChainInto(op: Op, a: seq<bool>, b: seq<bool>, c: bool, i: nat): bool
    requires |a| == |b| && i <= |a|
  {
    if i == 0 then c else CellOut(op, a[i - 1], b[i - 1], ChainInto(op, a, b, c, i - 1))
  }

  /** The carry (borrow) leaving the most significant bit. */
  function ChainOut(op: Op, a: seq<bool>, b: seq<bool>, c: bool): bool
    requires |a| == |b|
  {
    ChainInto(op, a, b, c, |a|)
  }

  /** The sum (difference) bits of the ripple chain: bit i is a[i] ^ b[i] ^ (carry into i). */
  function ResultBits(op: Op, a: seq<bool>, b: seq<bool>, c: bool): (r: seq<bool>)
    requires |a| == |b|
    ensures |r| == |a|
  {
    seq(|a|, i requires 0 <= i < |a| => Xor3(a[i], b[i], ChainInto(op, a, b, c, i)))
  }

  /** The carry into bit i depends on the low i bits of the operands only. */
  lemma {:induction false} ChainIntoPrefix(op: Op, a: seq<bool>, b: seq<bool>, a': seq<bool>, b': seq<bool>, c: bool, i: nat)
    requires |a| == |b| && |a'| == |b'| && i <= |a| && i <= |a'|
    requires a[..i] == a'[..i] && b[..i] == b'[..i]
    ensures ChainInto(op, a, b, c, i) == ChainInto(op, a', b', c, i)
  {
    if i > 0 {
      assert a[..i - 1] == a[..i][..i - 1] && a'[..i - 1] == a'[..i][..i - 1];
      assert b[..i - 1] == b[..i][..i - 1] && b'[..i - 1] == b'[..i][..i - 1];
      assert a[i - 1] == a[..i][i - 1] && a'[i - 1] == a'[..i][i - 1];
      assert b[i - 1] == b[..i][i - 1] && b'[i - 1] == b'[..i][i - 1];
      ChainIntoPrefix(op, a, b, a', b', c, i - 1);
    }
  }

  /** The ripple chain over the low i bits: val(r[..i]) +- 2^i cin == val(a[..i]) +- val(b[..i]) +- c. */
  lemma {:induction false} ChainValuePrefix(op: Op, a: seq<bool>, b: seq<bool>, c: bool, i: nat)
    requires |a| == |b| && i <= |a|
    ensures op == Add ==> Val(ResultBits(op, a, b, c)[..i]) + Pow2(i) * B(ChainInto(op, a, b, c, i))
                          == Val(a[..i]) + Val(b[..i]) + B(c)
    ensures op == Sub ==> Val(ResultBits(op, a, b, c)[..i]) - Pow2(i) * B(ChainInto(op, a, b, c, i))
                          == Val(a[..i]) - Val(b[..i]) - B(c)
  {
    var r := ResultBits(op, a, b, c);
    if i == 0 {
      assert r[..0] == [] && a[..0] == [] && b[..0] == [];
    } else {
      var k := i - 1;
      ChainValuePrefix(op, a, b, c, k);
      ValPrefixStep(r, k);
      ValPrefixStep(a, k);
      ValPrefixStep(b, k);
      var cin, cout := ChainInto(op, a, b, c, k), ChainInto(op, a, b, c, i);
      CellValue(op, a[k], b[k], cin);
      ChainStepArith(op == Add, Pow2(k), Val(r[..k]), Val(a[..k]), Val(b[..k]), B(c),
                     B(r[k]), B(a[k]), B(b[k]), B(cin), B(cout));
    }
  }

  /** The induction step of ChainValuePrefix in numbers: bit k of weight p joins the prefixes. */
  lemma ChainStepArith(add: bool, p: int, vr: int, va: int, vb: int, c: int,
                       rk: int, ak: int, bk: int, ci: int, co: int)
    requires add ==> vr + p * ci == va + vb + c
    requires !add ==> vr - p * ci == va - vb - c
    requires add ==> ak + bk + ci == rk + 2 * co
    requires !add ==> ak - bk - ci == rk - 2 * co
    ensures add ==> (vr + p * rk) + (2 * p) * co == (va + p * ak) + (vb + p * bk) + c
    ensures !add ==> (vr + p * rk) - (2 * p) * co == (va + p * ak) - (vb + p * bk) - c
  {
    ScaleCell(p, rk, co, ak, bk, ci, add);
  }

  /** The cell equation scaled by the weight p of its position. */
  lemma ScaleCell(p: int, s: int, co: int, x: int, y: int, ci: int, add: bool)
    requires add ==> x + y + ci == s + 2 * co
    requires !add ==> x - y - ci == s - 2 * co
    ensures add ==> p * x + p * y + p * ci == p * s + (2 * p) * co
    ensures !add ==> p * x - p * y - p * ci == p * s - (2 * p) * co
  {
    if add {
      calc {
        p * x + p * y + p * ci;
        p * (x + y + ci);
        p * (s + 2 * co);
        p * s + (2 * p) * co;
      }
    } else {
      calc {
        p * x - p * y - p * ci;
        p * (x - y - ci);
        p * (s - 2 * co);
        p * s - (2 * p) * co;
      }
    }
  }

  /** The whole chain: val(sum) + 2^n cout == val(a) + val(b) + cin, and
      val(diff) - 2^n bout == val(a) - val(b) - bin. */
  lemma ChainValue(op: Op, a: seq<bool>, b: seq<bool>, c: bool)
    requires |a| == |b|
    ensures op == Add ==> Val(ResultBits(op, a, b, c)) + Pow2(|a|) * B(ChainOut(op, a, b, c))
                          == Val(a) + Val(b) + B(c)
    ensures op == Sub ==> Val(ResultBits(op, a, b, c)) - Pow2(|a|) * B(ChainOut(op, a, b, c))
                          == Val(a) - Val(b) - B(c)
  {
    var r := ResultBits(op, a, b, c);
    assert r[..|a|] == r && a[..|a|] == a && b[..|b|] == b;
    ChainValuePrefix(op, a, b, c, |a|);
  }

  /** Subtracting b with borrow-in c and then adding b back with the same c as carry-in
      gives the minuend again, and the addition carries out exactly when the subtraction
      borrowed out. */
  lemma SubAddRoundTrip(a: seq<bool>, b: seq<bool>, c: bool)
    requires |a| == |b|
    ensures ResultBits(Add, ResultBits(Sub, a, b, c), b, c) == a
    ensures ChainOut(Add, ResultBits(Sub, a, b, c), b, c) == ChainOut(Sub, a, b, c)
  {
    var d := ResultBits(Sub, a, b, c);
    var s := ResultBits(Add, d, b, c);
    ChainValue(Sub, a, b, c);
    ChainValue(Add, d, b, c);
    ValBound(a);
    ValBound(s);
    CarriesMatch(Val(s), Val(a), Pow2(|a|), ChainOut(Add, d, b, c), ChainOut(Sub, a, b, c));
    ValInjective(s, a);
  }

  /** Two values below pow that differ by a multiple of pow given by two bits are equal,
      and so are the bits. */
  lemma CarriesMatch(x: int, y: int, pow: int, cx: bool, cy: bool)
    requires 0 <= x < pow && 0 <= y < pow
    requires x + pow * B(cx) == y + pow * B(cy)
    ensures x == y && cx == cy
  {
  }

  /** A subtraction borrows out exactly when the subtrahend and borrow exceed the minuend,
      and otherwise its difference bits hold the exact difference. */
  lemma SubtractionCompares(a: seq<bool>, b: seq<bool>, c: bool)
    requires |a| == |b|
    ensures ChainOut(Sub, a, b, c) <==> Val(a) < Val(b) + B(c)
    ensures !ChainOut(Sub, a, b, c) ==> Val(ResultBits(Sub, a, b, c)) == Val(a) - Val(b) - B(c)
  {
    ChainValue(Sub, a, b, c);
    ValBound(ResultBits(Sub, a, b, c));
    ValBound(a);
  }

  /** An addition carries out exactly when the sum reaches 2^n, and otherwise its sum bits
      hold the exact sum. */
  lemma AdditionOverflows(a: seq<bool>, b: seq<bool>, c: bool)
    requires |a| == |b|
    ensures ChainOut(Add, a, b, c) <==> Val(a) + Val(b) + B(c) >= Pow2(|a|)
    ensures !ChainOut(Add, a, b, c) ==> Val(ResultBits(Add, a, b, c)) == Val(a) + Val(b) + B(c)
  {
    ChainValue(Add, a, b, c);
    ValBound(ResultBits(Add, a, b, c));
  }

  /** The result of a chain whose carry-in is not folded into bit 0: bit 0 still sees the
      carry-in c through its xor, but carries are computed as if the carry-in were false. */
  function UnfoldedBits(op: Op, a: seq<bool>, b: seq<bool>, c: bool): (r: seq<bool>)
    requires |a| == |b| >= 1
    ensures |r| == |a|
  {
    ResultBits(op, a, b, false)[0 := Xor3(a[0], b[0], c)]
  }

  /** With carry-in false the unfolded chain is the ripple chain. */
  lemma {:induction false} UnfoldedWithoutCarryIn(op: Op, a: seq<bool>, b: seq<bool>)
    requires |a| == |b| >= 1
    ensures UnfoldedBits(op, a, b, false) == ResultBits(op, a, b, false)
  {
    assert ChainInto(op, a, b, false, 0) == false;
    assert ResultBits(op, a, b, false)[0] == Xor3(a[0], b[0], false);
  }

  /** The word and the carry (borrow) after the first i cells of a ripple chain, one cell
      at a time: cell i replaces w[i] by its result bit and passes its carry on. */
  function RippleAfter(op: Op, a: seq<bool>, b: seq<bool>, c: bool, i: nat): (r: (seq<bool>, bool))
    requires |a| == |b| && i <= |a|
    ensures |r.0| == |a|
  {
    if i == 0 then (a, c)
    else
      var (w, z) := RippleAfter(op, a, b, c, i - 1);
      (w[i - 1 := Xor3(w[i - 1], b[i - 1], z)], CellOut(op, w[i - 1], b[i - 1], z))
  }

  /** After i cells the low i bits are result bits, the rest are still a, and the carry is
      the one entering bit i. */
  lemma {:induction false} RippleAfterCells(op: Op, a: seq<bool>, b: seq<bool>, c: bool, i: nat)
    requires |a| == |b| && i <= |a|
    ensures forall t :: 0 <= t < i ==> RippleAfter(op, a, b, c, i).0[t] == ResultBits(op, a, b, c)[t]
    ensures forall t :: i <= t < |a| ==> RippleAfter(op, a, b, c, i).0[t] == a[t]
    ensures RippleAfter(op, a, b, c, i).1 == ChainInto(op, a, b, c, i)
  {
    if i > 0 {
      RippleAfterCells(op, a, b, c, i - 1);
    }
  }

  /** The whole chain, cell by cell, yields the result bits and the carry (borrow) out. */
  lemma RippleAfterAll(op: Op, a: seq<bool>, b: seq<bool>, c: bool)
    requires |a| == |b|
    ensures RippleAfter(op, a, b, c, |a|) == (ResultBits(op, a, b, c), ChainOut(op, a, b, c))
  {
    RippleAfterCells(op, a, b, c, |a|);
    assert RippleAfter(op, a, b, c, |a|).0 == ResultBits(op, a, b, c);
  }

  /** `borrow_ripple_subtractor_inplace`: threads the borrow through one full subtractor per
      bit, storing the difference in a and returning the final borrow. */
  method BorrowRippleSubtractorInPlace(ntk: Network, a: array<bool>, b: seq<bool>, borrow: bool)
    returns (borrowOut: bool)
    requires a.Length == |b|
    modifies a
    ensures a[..] == ResultBits(Sub, old(a[..]), b, borrow)
    ensures borrowOut == ChainOut(Sub, old(a[..]), b, borrow)
    ensures Val(a[..]) - Pow2(|b|) * B(borrowOut) == Val(old(a[..])) - Val(b) - B(borrow)
  {
    ghost var a0 := a[..];
    borrowOut := borrow;
    var i := 0;
    while i < a.Length
      invariant 0 <= i <= a.Length
      invariant (a[..], borrowOut) == RippleAfter(Sub, a0, b, borrow, i)
    {
      var d := FullSubtractor(ntk, a[i], b[i], borrowOut);
      a[i], borrowOut := d.0, d.1;
      i := i + 1;
    }
    RippleAfterAll(Sub, a0, b, borrow);
    ChainValue(Sub, a0, b, borrow);
  }

  /** `borrow_ripple_subtractor`: the same chain on a copy of a, returning the difference and
      the final borrow. */
  method BorrowRippleSubtractor(ntk: Network, a: seq<bool>, b: seq<bool>, borrow: bool)
    returns (x: seq<bool>, z: bool)
    requires |a| == |b|
    ensures x == ResultBits(Sub, a, b, borrow) && z == ChainOut(Sub, a, b, borrow)
    ensures Val(x) - Pow2(|a|) * B(z) == Val(a) - Val(b) - B(borrow)
  {
    x, z := a, borrow;
    var i := 0;
    while i < |x|
      invariant 0 <= i <= |x| == |a|
      invariant (x, z) == RippleAfter(Sub, a, b, borrow, i)
    {
      var d := FullSubtractor(ntk, x[i], b[i], z);
      x, z := x[i := d.0], d.1;
      i := i + 1;
    }
    RippleAfterAll(Sub, a, b, borrow);
    ChainValue(Sub, a, b, borrow);
  }
}
