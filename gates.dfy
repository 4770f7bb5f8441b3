/** Gate-level primitives of src/core/arithmetic.hpp: the one-bit multiplexer, the
    three-input full subtractor in its three realisations, and the few mockturtle word
    helpers the core calls (vector mux, in-place mux, n-ary OR). */
module Gates {
  import opened Words

  /** Majority of three. */
  function Maj(x: bool, y: bool, z: bool): bool
  {
    (x && y) || (x && z) || (y && z)
  }

  /** Three-input exclusive or. */
  function Xor3(x: bool, y: bool, z: bool): bool
  {
    (x != y) != z
  }

  /** detail::mux: `or(and(cond, then), and(!cond, else))`. */
  function Mux(cond: bool, fThen: bool, fElse: bool): (r: bool)
    ensures r == (if cond then fThen else fElse)
  {
    (cond && fThen) || (!cond && fElse)
  }

  /** mockturtle's word multiplexer `mux(ntk, cond, t, e)` (its body is not part of this
      model): bit i selects t[i] when cond holds and e[i] otherwise. */
  function MuxWord(cond: bool, t: seq<bool>, e: seq<bool>): (r: seq<bool>)
    requires |t| == |e|
    ensures |r| == |t|
    ensures forall i :: 0 <= i < |t| ==> r[i] == (if cond then t[i] else e[i])
    ensures r == if cond then t else e
  {
    seq(|t|, i requires 0 <= i < |t| => Mux(cond, t[i], e[i]))
  }

  /** mockturtle's `mux_inplace(ntk, cond, t, e)`: t[i] := cond ? t[i] : e[i]. */
  method MuxInPlace(cond: bool, t: array<bool>, e: seq<bool>)
    requires t.Length == |e|
    modifies t
    ensures t[..] == if cond then old(t[..]) else e
  {
    if !cond {
      forall i | 0 <= i < t.Length {
        t[i] := e[i];
      }
    }
  }

  /** mockturtle's `create_nary_or`: the OR of all signals of a word (false when empty). */
  function NaryOr(s: seq<bool>): (r: bool)
    ensures r <==> exists i :: 0 <= i < |s| && s[i]
  {
    if |s| == 0 then false else s[0] || NaryOr(s[1..])
  }

  /** The OR of a word is set exactly when its value is non-zero. */
  lemma {:induction false} NaryOrNonZero(s: seq<bool>)
    ensures NaryOr(s) <==> Val(s) > 0
  {
    if |s| > 0 {
      NaryOrNonZero(s[1..]);
    }
  }

  /** The network features `full_subtractor` dispatches on at compile time:
      `has_create_node_v`, the base type being `aig_network`, `has_create_maj_v` and
      `has_create_xor3_v`. */
  datatype Network = Network(hasCreateNode: bool, isAig: bool, hasCreateMaj: bool, hasCreateXor3: bool)

  /** The three realisations of the full subtractor. */
  datatype Realisation = LutNodes | MajXor3 | AndNorOr

  /** Most specific first: LUT nodes, then MAJ/XOR3 unless the network is an AIG, then AND/NOR/OR. */
  function RealisationOf(ntk: Network): (r: Realisation)
    ensures r == LutNodes <==> ntk.hasCreateNode
    ensures r == MajXor3 <==> !ntk.hasCreateNode && !ntk.isAig && ntk.hasCreateMaj && ntk.hasCreateXor3
  {
    if ntk.hasCreateNode then LutNodes
    else if !ntk.isAig && ntk.hasCreateMaj && ntk.hasCreateXor3 then MajXor3
    else AndNorOr
  }

  /** Bit k of a truth table given as a number (kitty's `create_from_hex_string`). */
  function TableBit(tt: nat, k: nat): bool
  {
    if k == 0 then tt % 2 == 1 else TableBit(tt / 2, k - 1)
  }

  /** A three-input LUT node over fanins (a, b, c): kitty indexes the table by
      a + 2b + 4c, the first fanin being the least significant variable. */
  function Lut3(tt: nat, a: bool, b: bool, c: bool): bool
  {
    TableBit(tt, B(a) + 2 * B(b) + 4 * B(c))
  }

  /** The difference table "96" and the borrow table "4e" of the LUT branch, as written. */
  const XorTable: nat := 0x96
  const BorrowTableAsWritten: nat := 0x4e
  /** The table of maj(!a, b, c) under the same variable order. */
  const BorrowTable: nat := 0xd4

  /** The LUT branch as written: two LUT nodes with the tables "96" and "4e". */
  function FullSubtractorLutAsWritten(a: bool, b: bool, c: bool): (r: (bool, bool))
    ensures r.0 == Xor3(a, b, c)
    ensures r.1 == (if c then !a && b else a || b)
  {
    LutTablesCorrect(a, b, c);
    LutBorrowTableAsWritten(a, b, c);
    (Lut3(XorTable, a, b, c), Lut3(BorrowTableAsWritten, a, b, c))
  }

  /** The "4e" table reports a borrow for a = 1, b = c = 0, where 1 - 0 - 0 borrows nothing. */
  lemma LutBorrowTableWrong()
    ensures FullSubtractorLutAsWritten(true, false, false).1
    ensures !Maj(!true, false, false)
  {
    assert Lut3(BorrowTableAsWritten, true, false, false) == TableBit(0x4e, 1);
  }

  /** The LUT branch with the borrow table of maj(!a, b, c). */
  function FullSubtractorLut(a: bool, b: bool, c: bool): (r: (bool, bool))
    ensures B(a) - B(b) - B(c) == B(r.0) - 2 * B(r.1)
  {
    LutTablesCorrect(a, b, c);
    (Lut3(XorTable, a, b, c), Lut3(BorrowTable, a, b, c))
  }

  /** The tables "96" and "d4" are the difference and the borrow of a - b - c. */
  lemma LutTablesCorrect(a: bool, b: bool, c: bool)
    ensures Lut3(XorTable, a, b, c) == Xor3(a, b, c)
    ensures Lut3(BorrowTable, a, b, c) == Maj(!a, b, c)
  {
    var k := B(a) + 2 * B(b) + 4 * B(c);
    assert 0 <= k < 8;
    if k == 0 {
      assert TableBit(0x96, 0) == false && TableBit(0xd4, 0) == false;
    } else if k == 1 {
      assert TableBit(0x96, 1) == true && TableBit(0xd4, 1) == false;
    } else if k == 2 {
      assert TableBit(0x96, 2) == true && TableBit(0xd4, 2) == true;
    } else if k == 3 {
      assert TableBit(0x96, 3) == false && TableBit(0xd4, 3) == false;
    } else if k == 4 {
      assert TableBit(0x96, 4) == true && TableBit(0xd4, 4) == true;
    } else if k == 5 {
      assert TableBit(0x96, 5) == false && TableBit(0xd4, 5) == false;
    } else if k == 6 {
      assert TableBit(0x96, 6) == false && TableBit(0xd4, 6) == true;
    } else {
      assert TableBit(0x96, 7) == true && TableBit(0xd4, 7) == true;
    }
  }

  /** What the table "4e" computes: with c clear it is a | b, with c set it is !a & b. */
  lemma LutBorrowTableAsWritten(a: bool, b: bool, c: bool)
    ensures Lut3(BorrowTableAsWritten, a, b, c) == (if c then !a && b else a || b)
  {
    var k := B(a) + 2 * B(b) + 4 * B(c);
    if k == 0 {
      assert !TableBit(0x4e, 0);
    } else if k == 1 {
      assert TableBit(0x4e, 1);
    } else if k == 2 {
      assert TableBit(0x4e, 2);
    } else if k == 3 {
      assert TableBit(0x4e, 3);
    } else if k == 4 {
      assert !TableBit(0x4e, 4);
    } else if k == 5 {
      assert !TableBit(0x4e, 5);
    } else if k == 6 {
      assert TableBit(0x4e, 6);
    } else {
      assert !TableBit(0x4e, 7);
    }
  }

  /** MAJ/XOR3 branch: borrow = maj(!a, b, c), difference = xor3(a, b, c). */
  function FullSubtractorMajXor3(a: bool, b: bool, c: bool): (r: (bool, bool))
    ensures B(a) - B(b) - B(c) == B(r.0) - 2 * B(r.1)
  {
    (Xor3(a, b, c), Maj(!a, b, c))
  }

  /** Default branch: seven two-input AND/NOR gates. */
  function FullSubtractorGates(a: bool, b: bool, c: bool): (r: (bool, bool))
    ensures B(a) - B(b) - B(c) == B(r.0) - 2 * B(r.1)
  {
    var w1 := a && !c;
    var w2 := !a && c;
    var w3 := !(w1 || w2);
    var w4 := !b && w3;
    var w5 := b && !w3;
    (!(w4 || w5), !(w1 || w4))
  }

  /** A one-bit difference and borrow are determined by a - b - c. */
  lemma CellOutputUnique(a: bool, b: bool, c: bool, r: (bool, bool))
    requires B(a) - B(b) - B(c) == B(r.0) - 2 * B(r.1)
    ensures r == (Xor3(a, b, c), Maj(!a, b, c))
  {
  }

  /** The seven-gate form and the MAJ/XOR3 form agree on all eight inputs. */
  lemma GatesAgreeWithMajXor3(a: bool, b: bool, c: bool)
    ensures FullSubtractorGates(a, b, c) == FullSubtractorMajXor3(a, b, c)
  {
    CellOutputUnique(a, b, c, FullSubtractorGates(a, b, c));
  }

  /** `full_subtractor`: the realisation is chosen by the network's features; every one
      returns (xor3(a, b, c), maj(!a, b, c)). */
  method FullSubtractor(ntk: Network, a: bool, b: bool, c: bool) returns (r: (bool, bool))
    ensures r == (Xor3(a, b, c), Maj(!a, b, c))
  {
    match RealisationOf(ntk) {
      case LutNodes =>
        r := FullSubtractorLut(a, b, c);
      case MajXor3 =>
        r := FullSubtractorMajXor3(a, b, c);
      case AndNorOr =>
        r := FullSubtractorGates(a, b, c);
    }
    CellOutputUnique(a, b, c, r);
  }
}
