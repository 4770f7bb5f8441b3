/** Bit vectors of signals. A signal is modelled by the Boolean it carries under one
    assignment of the primary inputs, so a word is a `seq<bool>`. Index 0 is the least
    significant bit: the ripple loops start at index 0, "shift left" inserts at the
    front and truncation keeps the first entries. */
module Words {

  /** 2^k. */
  function Pow2(k: nat): (r: nat)
    ensures r >= 1
  {
    if k == 0 then 1 else 2 * Pow2(k - 1)
  }

  /** A bit as a number. */
  function B(x: bool): nat
  {
    if x then 1 else 0
  }

  /** The unsigned value of a word; bit i weighs 2^i. */
  function Val(s: seq<bool>): nat
  {
    if |s| == 0 then 0 else B(s[0]) + 2 * Val(s[1..])
  }

  /** A word of k constant-false signals (mockturtle's `constant_word(ntk, 0, k)`). */
  function Zeros(k: nat): (r: seq<bool>)
    ensures |r| == k && forall i :: 0 <= i < k ==> !r[i]
  {
    seq(k, _ => false)
  }

  /** mockturtle's `zero_extend`: pad with constant false at the most significant end. */
  function ZeroExtend(s: seq<bool>, n: nat): (r: seq<bool>)
    requires |s| <= n
    ensures |r| == n && r[..|s|] == s && Val(r) == Val(s)
  {
    ValZeroPadding(s, n - |s|);
    s + Zeros(n - |s|)
  }

  /** std::reverse. */
  function Reverse(s: seq<bool>): (r: seq<bool>)
    ensures |r| == |s|
  {
    if |s| == 0 then [] else [s[|s| - 1]] + Reverse(s[..|s| - 1])
  }

  /** The integer value of `std::ceil(std::log2(n))` for n >= 1, as the smallest k with
      2^k >= n (0 for n <= 1). */
  function CeilLog2(n: nat): (k: nat)
    ensures Pow2(k) >= n
    ensures k > 0 ==> Pow2(k - 1) < n
  {
    if n <= 1 then 0 else 1 + CeilLog2((n + 1) / 2)
  }

  lemma Pow2Add(i: nat, j: nat)
    ensures Pow2(i + j) == Pow2(i) * Pow2(j)
  {
    if i > 0 {
      Pow2Add(i - 1, j);
      calc {
        Pow2(i + j);
        2 * Pow2(i - 1 + j);
        2 * (Pow2(i - 1) * Pow2(j));
        (2 * Pow2(i - 1)) * Pow2(j);
      }
    }
  }

  lemma Pow2Monotone(i: nat, j: nat)
    requires i <= j
    ensures Pow2(i) <= Pow2(j)
  {
    if i < j {
      Pow2Monotone(i, j - 1);
    }
  }

  /** A word of n bits holds a value below 2^n. */
  lemma ValBound(s: seq<bool>)
    ensures Val(s) < Pow2(|s|)
  {
    if |s| > 0 {
      ValBound(s[1..]);
    }
  }

  /** Concatenation puts the second word above the first. */
  lemma {:induction false} ValAppend(s: seq<bool>, t: seq<bool>)
    ensures Val(s + t) == Val(s) + Pow2(|s|) * Val(t)
  {
    if |s| > 0 {
      assert (s + t)[1..] == s[1..] + t;
      ValAppend(s[1..], t);
      var p, v, w := Pow2(|s| - 1), Val(t), Val(s[1..]);
      assert Val(s + t) == B(s[0]) + 2 * (w + p * v);
      DoubleSum(w, p, v);
    } else {
      assert s + t == t;
    }
  }

  lemma DoubleSum(w: int, p: int, v: int)
    ensures 2 * (w + p * v) == 2 * w + (2 * p) * v
  {
  }

  /** Appending one bit at the top. */
  lemma ValSnoc(s: seq<bool>, x: bool)
    ensures Val(s + [x]) == Val(s) + Pow2(|s|) * B(x)
  {
    ValAppend(s, [x]);
    assert Val([x]) == B(x) by {
      assert [x][1..] == [];
    }
  }

  /** Value of the prefix of length i + 1 in terms of the prefix of length i. */
  lemma ValPrefixStep(s: seq<bool>, i: nat)
    requires i < |s|
    ensures Val(s[..i + 1]) == Val(s[..i]) + Pow2(i) * B(s[i])
  {
    assert s[..i + 1] == s[..i] + [s[i]];
    ValSnoc(s[..i], s[i]);
  }

  lemma ValZeros(k: nat)
    ensures Val(Zeros(k)) == 0
  {
    if k > 0 {
      assert Zeros(k)[1..] == Zeros(k - 1);
      ValZeros(k - 1);
    }
  }

  /** Zero extension does not change the value. */
  lemma ValZeroPadding(s: seq<bool>, k: nat)
    ensures Val(s + Zeros(k)) == Val(s)
  {
    ValAppend(s, Zeros(k));
    ValZeros(k);
  }

  /** Inserting k zeros at the front (a left shift by k) multiplies by 2^k. */
  lemma ValShift(s: seq<bool>, k: nat)
    ensures Val(Zeros(k) + s) == Pow2(k) * Val(s)
  {
    ValAppend(Zeros(k), s);
    ValZeros(k);
  }

  /** A word splits into its low k bits and the rest. */
  lemma ValSplit(s: seq<bool>, k: nat)
    requires k <= |s|
    ensures Val(s) == Val(s[..k]) + Pow2(k) * Val(s[k..])
  {
    assert s == s[..k] + s[k..];
    ValAppend(s[..k], s[k..]);
  }

  /** The low k bits hold the value modulo 2^k. */
  lemma ValPrefixMod(s: seq<bool>, k: nat)
    requires k <= |s|
    ensures Val(s[..k]) == Val(s) % Pow2(k)
  {
    ValSplit(s, k);
    ValBound(s[..k]);
    DivModUnique(Val(s), Pow2(k), Val(s[k..]), Val(s[..k]));
  }

  /** The value determines a word of a given width. */
  lemma ValInjective(s: seq<bool>, t: seq<bool>)
    requires |s| == |t| && Val(s) == Val(t)
    ensures s == t
  {
    if |s| > 0 {
      assert B(s[0]) == B(t[0]) by {
        assert Val(s) % 2 == B(s[0]);
        assert Val(t) % 2 == B(t[0]);
      }
      ValInjective(s[1..], t[1..]);
      assert s == [s[0]] + s[1..];
      assert t == [t[0]] + t[1..];
    }
  }

  /** Reversing a word with one more bit at the end puts that bit at the bottom. */
  lemma ValReverseSnoc(q: seq<bool>, x: bool)
    ensures Val(Reverse(q + [x])) == B(x) + 2 * Val(Reverse(q))
  {
    assert (q + [x])[..|q|] == q;
    assert Reverse(q + [x]) == [x] + Reverse(q);
    assert ([x] + Reverse(q))[1..] == Reverse(q);
  }

  /** Euclidean division is determined by its defining equation. */
  lemma DivModUnique(a: int, d: int, q: int, r: int)
    requires d > 0 && 0 <= r < d && a == d * q + r
    ensures a / d == q && a % d == r
  {
    var q0, r0 := a / d, a % d;
    assert a == d * q0 + r0 && 0 <= r0 < d;
    MulGap(q, q0, d);
    MulGap(q0, q, d);
  }

  lemma ModOfSmall(x: int, m: int)
    requires 0 <= x < m
    ensures x % m == x
  {
    DivModUnique(x, m, 0, x);
  }

  /** Distinct multiples of d lie at least d apart. */
  lemma MulGap(x: int, y: int, d: nat)
    ensures x < y ==> d * x + d <= d * y
  {
    if x < y {
      assert d * y - d * x == (y - x) * d;
      MulAtLeast(y - x, d);
    }
  }

  lemma MulAtLeast(k: int, d: nat)
    requires k >= 1
    ensures k * d >= d
  {
    if k > 1 {
      MulAtLeast(k - 1, d);
      assert k * d == (k - 1) * d + d;
    }
  }

  /** Copy a word into a fresh array (the source's vector copies). */
  method ToArray(s: seq<bool>) returns (arr: array<bool>)
    ensures fresh(arr) && arr[..] == s
  {
    arr := new bool[|s|](i requires 0 <= i < |s| => s[i]);
  }
}
