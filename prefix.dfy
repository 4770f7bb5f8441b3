/** The generate/propagate records of src/core/arithmetic.hpp and the parallel-prefix
    schedules that combine them: Brent-Kung down-sweep rounds, Kogge-Stone snapshot rounds,
    the stride-4 snapshot rounds of Han-Carlson, and the shared backward up-sweep.

    The schedules are stated against the leaf records `leaves` (one per bit position, after
    the optional carry fold): a record is correct when its (g, p) are the group generate and
    group propagate of the bit range [end..begin] of the leaves. */
module Prefix {
  import opened Words

  /** `PG`: group generate g and group propagate p of the bit range [end..begin]; begin is
      the record's own position. */
  datatype PG = PG(g: bool, p: bool, begin: nat, end: nat)
  {
    /** `o_operation`: prefix this range with the range of `other`, which lies at or below
        it. The record is a value in the source's `std::vector<PG>`, so the updated record
        is returned and stored back into its slot by the caller. */
    function Combine(other: PG): PG
      requires other.begin <= begin
    {
      PG(g || (p && other.g), p && other.p, begin, other.end)
    }
  }

  /** Group generate of the leaves lo..hi: a carry leaves hi when some position in the range
      generates one and every position above it propagates. */
  function GroupG(leaves: seq<PG>, lo: nat, hi: nat): bool
    requires lo <= hi < |leaves|
    decreases hi - lo
  {
    if lo == hi then leaves[hi].g else leaves[hi].g || (leaves[hi].p && GroupG(leaves, lo, hi - 1))
  }

  /** Group propagate of the leaves lo..hi: every position propagates. */
  function GroupP(leaves: seq<PG>, lo: nat, hi: nat): bool
    requires lo <= hi < |leaves|
    decreases hi - lo
  {
    if lo == hi then leaves[hi].p else leaves[hi].p && GroupP(leaves, lo, hi - 1)
  }

  /** The record holds the group signals of its range [end..begin]. */
  predicate Summarises(leaves: seq<PG>, x: PG)
  {
    x.end <= x.begin < |leaves|
    && x.g == GroupG(leaves, x.end, x.begin) && x.p == GroupP(leaves, x.end, x.begin)
  }

  /** Every record sits at its own position and summarises its range. */
  predicate Valid(leaves: seq<PG>, pg: seq<PG>)
  {
    |pg| == |leaves| && forall k :: 0 <= k < |pg| ==> pg[k].begin == k && Summarises(leaves, pg[k])
  }

  /** Fully reduced: every record summarises the whole prefix [0..k]. */
  predicate Reduced(leaves: seq<PG>, pg: seq<PG>)
  {
    Valid(leaves, pg) && forall k :: 0 <= k < |pg| ==> pg[k].end == 0
  }

  /** The records as constructed: record k covers bit k alone. */
  predicate Leaves(leaves: seq<PG>)
  {
    forall k :: 0 <= k < |leaves| ==> leaves[k].begin == k && leaves[k].end == k
  }

  /** A range splits at any inner point. */
  lemma {:induction false} GroupSplit(leaves: seq<PG>, lo: nat, mid: nat, hi: nat)
    requires lo < mid <= hi < |leaves|
    ensures GroupG(leaves, lo, hi)
            == (GroupG(leaves, mid, hi) || (GroupP(leaves, mid, hi) && GroupG(leaves, lo, mid - 1)))
    ensures GroupP(leaves, lo, hi) == (GroupP(leaves, mid, hi) && GroupP(leaves, lo, mid - 1))
    decreases hi
  {
    if mid < hi {
      GroupSplit(leaves, lo, mid, hi - 1);
    }
  }

  /** Propagating through a range subsumes what a lower sub-range generates. */
  lemma GroupAbsorb(leaves: seq<PG>, lo: nat, mid: nat, hi: nat)
    requires lo <= mid <= hi < |leaves|
    ensures (GroupP(leaves, lo, hi) && GroupG(leaves, lo, mid)) ==> GroupG(leaves, lo, hi)
    ensures GroupP(leaves, lo, hi) ==> GroupP(leaves, lo, mid)
  {
    if mid < hi {
      GroupSplit(leaves, lo, mid + 1, hi);
    }
  }

  /** `o_operation` is sound for adjacent or overlapping ranges: combining [e1..b1] with a
      lower range [e2..b2], where e2 <= e1 <= b2 + 1, yields [e2..b1]. */
  lemma CombineSummarises(leaves: seq<PG>, x: PG, y: PG)
    requires Summarises(leaves, x) && Summarises(leaves, y)
    requires y.begin <= x.begin && y.end <= x.end <= y.begin + 1
    ensures x.Combine(y).begin == x.begin && x.Combine(y).end == y.end
    ensures Summarises(leaves, x.Combine(y))
  {
    var e1, b1, e2, b2 := x.end, x.begin, y.end, y.begin;
    if e1 == b2 + 1 {
      GroupSplit(leaves, e2, e1, b1);
    } else if e2 == e1 {
      GroupAbsorb(leaves, e1, b2, b1);
    } else {
      GroupSplit(leaves, e2, e1, b1);
      GroupSplit(leaves, e2, e1, b2);
      GroupAbsorb(leaves, e1, b2, b1);
    }
  }

  /** The leaves are valid records. */
  lemma LeavesValid(leaves: seq<PG>)
    requires Leaves(leaves)
    ensures Valid(leaves, leaves)
  {
  }

  /** The low end reached by record k after Kogge-Stone rounds of total span s. */
  function KsEnd(k: nat, s: nat): nat
  {
    if k + 1 <= s then 0 else k + 1 - s
  }

  /** One Kogge-Stone round j (span s = 2^j): every record k >= s combines with the
      pre-round snapshot of record k - s, so each range doubles. */
  method KoggeStoneRound(ghost leaves: seq<PG>, pg0: seq<PG>, j: nat) returns (pg: seq<PG>)
    requires Valid(leaves, pg0)
    requires forall k :: 0 <= k < |pg0| ==> pg0[k].end == KsEnd(k, Pow2(j))
    ensures Valid(leaves, pg)
    ensures forall k :: 0 <= k < |pg| ==> pg[k].end == KsEnd(k, Pow2(j + 1))
  {
    var s, n := Pow2(j), |pg0|;
    var bak := pg0;
    pg := pg0;
    var i := 0;
    while i < n
      invariant 0 <= i <= n && |pg| == n && Valid(leaves, pg)
      invariant forall k :: 0 <= k < n && k >= i + s ==> pg[k] == bak[k]
      invariant forall k :: 0 <= k < n ==> pg[k].end == (if k < i + s then KsEnd(k, 2 * s) else KsEnd(k, s))
    {
      if i + s >= n {
        break;
      }
      CombineSummarises(leaves, pg[i + s], bak[i]);
      pg := pg[i + s := pg[i + s].Combine(bak[i])];
      i := i + 1;
    }
  }

  /** The Kogge-Stone rounds of `kogge_stone_{adder,subtractor}_inplace`: at most
      ceil(log2 n) rounds, stopping early once the top record reaches bit 0. Every record
      ends fully reduced, and for n = 1 no round runs. */
  method KoggeStoneScan(leaves: seq<PG>) returns (pg: seq<PG>, rounds: nat)
    requires Leaves(leaves) && |leaves| >= 1
    ensures Reduced(leaves, pg)
    ensures rounds <= CeilLog2(|leaves|)
    ensures |leaves| == 1 ==> rounds == 0 && pg == leaves
  {
    var n := |leaves|;
    pg, rounds := leaves, 0;
    while pg[n - 1].end != 0 && rounds < CeilLog2(n)
      invariant Valid(leaves, pg) && rounds <= CeilLog2(n)
      invariant forall k :: 0 <= k < n ==> pg[k].end == KsEnd(k, Pow2(rounds))
      invariant n == 1 ==> rounds == 0 && pg == leaves
      decreases CeilLog2(n) - rounds
    {
      pg := KoggeStoneRound(leaves, pg, rounds);
      rounds := rounds + 1;
    }
    Pow2Monotone(rounds, CeilLog2(n));
  }

  /** Position k closes a block of m bits. */
  predicate BlockEnd(k: int, m: int)
  {
    m > 0 && (k + 1) % m == 0
  }

  /** Positions i = s - 1 + 2st visited by a Brent-Kung round of span s. */
  lemma BkIndexFacts(i: nat, s: nat)
    requires s >= 1 && i % (2 * s) == s - 1
    ensures (i + 1) % s == 0 && (i + 1) % (2 * s) != 0
    ensures (i + s + 1) % s == 0 && (i + s + 1) % (2 * s) == 0
    ensures (i + 2 * s) % (2 * s) == s - 1
  {
    var q := i / (2 * s);
    assert i == 2 * s * q + (s - 1);
    assert i + 1 == s * (2 * q + 1) + 0;
    DivModUnique(i + 1, s, 2 * q + 1, 0);
    assert i + 1 == 2 * s * q + s;
    DivModUnique(i + 1, 2 * s, q, s);
    assert i + s + 1 == s * (2 * q + 2) + 0;
    DivModUnique(i + s + 1, s, 2 * q + 2, 0);
    assert i + s + 1 == 2 * s * (q + 1) + 0;
    DivModUnique(i + s + 1, 2 * s, q + 1, 0);
    assert i + 2 * s == 2 * s * (q + 1) + (s - 1);
    DivModUnique(i + 2 * s, 2 * s, q + 1, s - 1);
  }

  /** Between two consecutive targets of a Brent-Kung round no other block end lies. */
  lemma BkOnlyBlock(i: nat, s: nat, k: nat)
    requires s >= 1 && i % (2 * s) == s - 1
    requires i + s <= k < i + 3 * s && (k + 1) % (2 * s) == 0
    ensures k == i + s
  {
    var q := i / (2 * s);
    assert i == 2 * s * q + (s - 1);
    var r := k + 1 - 2 * s * (q + 1);
    assert 0 <= r < 2 * s;
    DivModUnique(k + 1, 2 * s, q + 1, r);
  }

  /** One Brent-Kung down-sweep round j (span s = 2^j): record i + s combines with record i
      for i = s - 1, 3s - 1, 5s - 1, ..., so every block of 2s bits gets its summary. */
  method BrentKungRound(ghost leaves: seq<PG>, pg0: seq<PG>, j: nat) returns (pg: seq<PG>)
    requires Valid(leaves, pg0)
    requires forall k :: 0 <= k < |pg0| && BlockEnd(k, Pow2(j)) ==> pg0[k].end == k + 1 - Pow2(j)
    ensures Valid(leaves, pg)
    ensures forall k :: 0 <= k < |pg| && BlockEnd(k, Pow2(j + 1)) ==> pg[k].end == k + 1 - Pow2(j + 1)
  {
    var s, n := Pow2(j), |pg0|;
    pg := pg0;
    var i := s - 1;
    ModOfSmall(s - 1, 2 * s);
    forall k | 0 <= k < 2 * s - 1
      ensures !BlockEnd(k, 2 * s)
    {
      ModOfSmall(k + 1, 2 * s);
    }
    while i < n
      invariant i >= s - 1 && i % (2 * s) == s - 1 && |pg| == n && Valid(leaves, pg)
      invariant forall k :: 0 <= k < n && BlockEnd(k, 2 * s) && k < i + s ==> pg[k].end == k + 1 - 2 * s
      invariant forall k :: 0 <= k < n && BlockEnd(k, s) && (k >= i + s || !BlockEnd(k, 2 * s))
                  ==> pg[k].end == k + 1 - s
    {
      BkIndexFacts(i, s);
      if i + s < n {
        CombineSummarises(leaves, pg[i + s], pg[i]);
        pg := pg[i + s := pg[i + s].Combine(pg[i])];
        forall k | 0 <= k < n && BlockEnd(k, 2 * s) && i + s <= k < i + 3 * s
          ensures k == i + s
        {
          BkOnlyBlock(i, s, k);
        }
      }
      i := i + 2 * s;
    }
  }

  /** The Brent-Kung down-sweep rounds: at most ceil(log2 n) rounds, stopping early once the
      top record reaches bit 0. */
  method BrentKungSweep(leaves: seq<PG>) returns (pg: seq<PG>)
    requires Leaves(leaves) && |leaves| >= 1
    ensures Valid(leaves, pg)
  {
    var n := |leaves|;
    pg := leaves;
    var j := 0;
    while pg[n - 1].end != 0 && j < CeilLog2(n)
      invariant Valid(leaves, pg)
      invariant forall k :: 0 <= k < n && BlockEnd(k, Pow2(j)) ==> pg[k].end == k + 1 - Pow2(j)
      decreases CeilLog2(n) - j
    {
      pg := BrentKungRound(leaves, pg, j);
      j := j + 1;
    }
  }

  /** Sum of the low ends, which the up-sweep drives to zero. */
  function EndSum(pg: seq<PG>): nat
  {
    if |pg| == 0 then 0 else pg[0].end + EndSum(pg[1..])
  }

  lemma {:induction false} EndSumUpdate(pg: seq<PG>, k: nat, x: PG)
    requires k < |pg|
    ensures EndSum(pg[k := x]) == EndSum(pg) - pg[k].end + x.end
  {
    if k == 0 {
      assert pg[k := x][1..] == pg[1..];
    } else {
      assert pg[k := x][1..] == pg[1..][k - 1 := x];
      EndSumUpdate(pg[1..], k - 1, x);
    }
  }

  /** The backward up-sweep shared by Brent-Kung and Han-Carlson. From the top down, a record
      that does not yet reach bit 0 is completed by combining the nearest lower record j that
      does; the record combined is the first one, scanning down, whose low end equals that of
      record j + 1, and the same position is visited again until it is complete. From any
      valid state every record ends fully reduced. */
  method UpSweep(ghost leaves: seq<PG>, pg0: seq<PG>) returns (pg: seq<PG>)
    requires Valid(leaves, pg0) && |pg0| >= 1
    ensures Reduced(leaves, pg)
  {
    pg := pg0;
    var n := |pg|;
    var idx := n - 1;
    while idx >= 0
      invariant -1 <= idx < n && |pg| == n && Valid(leaves, pg)
      invariant forall k :: idx < k < n ==> pg[k].end == 0
      decreases EndSum(pg), idx + 1
    {
      if pg[idx].end == 0 {
        idx := idx - 1;
      } else {
        assert pg[0].end == 0;
        var jdx := idx;
        while pg[jdx].end != 0
          invariant 0 <= jdx <= idx
          invariant forall t :: jdx < t <= idx ==> pg[t].end != 0
          decreases jdx
        {
          jdx := jdx - 1;
        }
        var target := pg[jdx + 1].end;
        var kdx := idx;
        while kdx != jdx && pg[kdx].end != target
          invariant jdx < kdx <= idx
          decreases kdx
        {
          kdx := kdx - 1;
        }
        CombineSummarises(leaves, pg[kdx], pg[jdx]);
        EndSumUpdate(pg, kdx, pg[kdx].Combine(pg[jdx]));
        pg := pg[kdx := pg[kdx].Combine(pg[jdx])];
        if kdx == idx {
          idx := idx - 1;
        }
      }
    }
  }

  /** The prefix tree of `brent_kung_{adder,subtractor}_inplace`: down-sweep then up-sweep. */
  method BrentKungScan(leaves: seq<PG>) returns (pg: seq<PG>)
    requires Leaves(leaves) && |leaves| >= 1
    ensures Reduced(leaves, pg)
  {
    pg := BrentKungSweep(leaves);
    pg := UpSweep(leaves, pg);
  }

  /** The invariant of a stride-4 round of span s before position i: the records from i + s
      on are the snapshot's, and the records 4q + 3 below i + s reach twice as far. */
  ghost predicate StrideRound(leaves: seq<PG>, bak: seq<PG>, pg: seq<PG>, i: nat, s: nat)
  {
    i % 4 == 3 && |pg| == |bak| && Valid(leaves, pg)
    && (forall k :: 0 <= k < |pg| && k >= i + s ==> pg[k] == bak[k])
    && (forall k :: 0 <= k < |pg| && (k + 1) % 4 == 0
          ==> pg[k].end == (if k < i + s then KsEnd(k, 2 * s) else KsEnd(k, s)))
  }

  /** One step of the stride-4 round: record i + s, when it exists, combines with the
      snapshot of record i. */
  lemma StrideStep(leaves: seq<PG>, bak: seq<PG>, pg: seq<PG>, i: nat, s: nat, pg': seq<PG>)
    requires s % 4 == 0 && s >= 4 && Valid(leaves, bak) && StrideRound(leaves, bak, pg, i, s)
    requires forall k :: 0 <= k < |bak| && (k + 1) % 4 == 0 ==> bak[k].end == KsEnd(k, s)
    requires i + s < |pg| ==> pg' == pg[i + s := pg[i + s].Combine(bak[i])]
    requires i + s >= |pg| ==> pg' == pg
    ensures StrideRound(leaves, bak, pg', i + 4, s)
  {
    var n := |pg|;
    assert (i + s + 1) % 4 == 0;
    if i + s < n {
      CombineSummarises(leaves, pg[i + s], bak[i]);
    }
    forall k | 0 <= k < n && (k + 1) % 4 == 0
      ensures pg'[k].end == (if k < i + 4 + s then KsEnd(k, 2 * s) else KsEnd(k, s))
    {
      if i + s < k < i + s + 4 {
        assert false;
      }
    }
  }

  /** One stride-4 snapshot round j >= 2 of Han-Carlson (span s = 2^j): record i + s
      combines with the pre-round snapshot of record i for i = 3, 7, 11, ... */
  method HanCarlsonRound(ghost leaves: seq<PG>, pg0: seq<PG>, j: nat) returns (pg: seq<PG>)
    requires j >= 2 && Valid(leaves, pg0)
    requires forall k :: 0 <= k < |pg0| && (k + 1) % 4 == 0 ==> pg0[k].end == KsEnd(k, Pow2(j))
    ensures Valid(leaves, pg)
    ensures forall k :: 0 <= k < |pg| && (k + 1) % 4 == 0 ==> pg[k].end == KsEnd(k, Pow2(j + 1))
  {
    var s, n := Pow2(j), |pg0|;
    Pow2Add(2, j - 2);
    assert Pow2(2) == 4;
    assert s % 4 == 0;
    var bak := pg0;
    pg := pg0;
    var i := 3;
    while i < n
      invariant i >= 3 && StrideRound(leaves, bak, pg, i, s)
    {
      ghost var pg1 := pg;
      if i + s < n {
        pg := pg[i + s := pg[i + s].Combine(bak[i])];
      }
      StrideStep(leaves, bak, pg1, i, s, pg);
      i := i + 4;
    }
  }

  /** The rounds of `han_carlson_{adder,subtractor}_inplace` for n > 4: two Brent-Kung rounds,
      then stride-4 snapshot rounds, at most ceil(log2 n) in all, then the up-sweep. */
  method HanCarlsonScan(leaves: seq<PG>) returns (pg: seq<PG>)
    requires Leaves(leaves) && |leaves| > 4
    ensures Reduced(leaves, pg)
  {
    var n := |leaves|;
    pg := leaves;
    var j := 0;
    assert Pow2(2) == 4;
    while pg[n - 1].end != 0 && j < CeilLog2(n)
      invariant Valid(leaves, pg)
      invariant j <= 2 ==> forall k :: 0 <= k < n && BlockEnd(k, Pow2(j)) ==> pg[k].end == k + 1 - Pow2(j)
      invariant j >= 2 ==> forall k :: 0 <= k < n && (k + 1) % 4 == 0 ==> pg[k].end == KsEnd(k, Pow2(j))
      decreases CeilLog2(n) - j
    {
      if j < 2 {
        pg := BrentKungRound(leaves, pg, j);
      } else {
        pg := HanCarlsonRound(leaves, pg, j);
      }
      j := j + 1;
    }
    pg := UpSweep(leaves, pg);
  }
}
