# MagicLS arithmetic generators in Dafny

This project models `src/core/arithmetic.hpp` of MagicLS, the part that builds arithmetic
circuits gate by gate. It covers:

- the full subtractor in its three realisations;
- the borrow-ripple and borrow-lookahead subtractors;
- the `PG` generate/propagate record and its `o_operation`;
- the Brent-Kung, Kogge-Stone and Han-Carlson prefix adders and subtractors;
- the two restoring array dividers;
- the Kogge-Stone full adder, the carry-save array multiplier `new_multiplier`, and
  `advance_multiplier`, which sums shifted partial-product rows.

A signal is modelled by the Boolean it carries under one assignment of the primary inputs.
Gate constructors become Boolean operators. A word is a `seq<bool>` with index 0 least
significant, and `Val` is its unsigned value. In-place generators are methods over an
`array<bool>` (the overwritten operand `a`) and a `seq<bool>` (the read-only `b`). The
carry or borrow, passed by reference in the source, is an in-parameter plus an out-parameter.

Each generator is proved against a reference ripple chain (`Ripple.ResultBits`,
`Ripple.ChainInto`). Properties are then proved about that chain: the sum and difference
equations, overflow, and comparison. For the dividers and multipliers the contracts are the
end-to-end results: quotient `a / b`, remainder `a % b`, and product `a * b`.

Modules, one per file:

| file | module | contents |
|---|---|---|
| words.dfy | `Words` | words, values, powers of two, `ZeroExtend`, `Reverse`, integer `CeilLog2`, arithmetic facts |
| gates.dfy | `Gates` | `detail::mux`, the word helpers the core calls, `full_subtractor` |
| ripple.dfy | `Ripple` | the reference chain and `borrow_ripple_subtractor(_inplace)` |
| prefix.dfy | `Prefix` | `PG`, `o_operation`, the prefix schedules |
| adders.dfy | `PrefixAdders` | the prefix adders and subtractors, borrow lookahead |
| dividers.dfy | `Dividers` | `restoring_array_divider(_advance)` |
| multipliers.dfy | `Multipliers` | `kogge_stone_full_adder`, `new_multiplier`, `advance_multiplier` |

The pluggable `func` pointer of `restoring_array_divider_advance` and `advance_multiplier`
is modelled as a tag datatype. Its values are the names the divider and multiplier commands
accept. The BLS tag maps to `borrow_lookahead_subtractor_inplace`.

Where the source differs from what its authors evidently intended, the model keeps both
versions:

- a member that models the code as written, with a lemma or a concrete counterexample that
  exhibits the difference;
- a corrected member, with the intended property proved.

These cases are listed under "## Findings".

## Model

| member | source | states |
|---|---|---|
| Gates.Mux | src/core/arithmetic.hpp:31-34 | the or-of-ands multiplexer yields f_then when cond holds and f_else otherwise |
| Gates.MuxWord | src/core/arithmetic.hpp:973 | the word multiplexer selects, bit by bit, t when cond holds and e otherwise, so the result is t or e as a whole |
| Gates.MuxInPlace | src/core/arithmetic.hpp:916 | `mux_inplace` leaves t when cond holds and replaces it by e otherwise |
| Gates.NaryOr | src/core/arithmetic.hpp:963 | the n-ary OR is set exactly when some bit of the word is set |
| Gates.NaryOrNonZero | src/core/arithmetic.hpp:963 | the OR of a word is set exactly when its value is non-zero |
| Gates.RealisationOf | src/core/arithmetic.hpp:743-761 | the LUT realisation is chosen exactly when the network creates nodes; MAJ/XOR3 exactly when it does not, is not an AIG and has both MAJ and XOR3 |
| Gates.FullSubtractorLutAsWritten | src/core/arithmetic.hpp:743-753 | the "96" LUT node computes the difference a xor b xor c under kitty's variable order; the "4e" node computes a or b when c is clear and !a and b when c is set |
| Gates.LutBorrowTableAsWritten | src/core/arithmetic.hpp:746 | the table "4e" read under kitty's order a + 2b + 4c is a or b when c is clear and !a and b when c is set |
| Gates.LutBorrowTableWrong | src/core/arithmetic.hpp:746 | the "4e" borrow table signals a borrow for a = 1, b = c = 0, where maj(!a, b, c) is false |
| Gates.FullSubtractorLut | src/core/arithmetic.hpp:743-753 | the LUT branch with borrow table d4 satisfies a - b - c == diff - 2 borrow |
| Gates.LutTablesCorrect | src/core/arithmetic.hpp:745-750 | the tables 96 and d4 are xor3(a, b, c) and maj(!a, b, c) on all eight inputs |
| Gates.FullSubtractorMajXor3 | src/core/arithmetic.hpp:755-760 | the MAJ/XOR3 branch satisfies a - b - c == diff - 2 borrow |
| Gates.FullSubtractorGates | src/core/arithmetic.hpp:761-776 | the seven-gate AND/NOR branch satisfies a - b - c == diff - 2 borrow |
| Gates.CellOutputUnique | src/core/arithmetic.hpp:737-777 | any cell meeting a - b - c == diff - 2 borrow returns exactly (xor3(a, b, c), maj(!a, b, c)) |
| Gates.GatesAgreeWithMajXor3 | src/core/arithmetic.hpp:755-776 | the seven-gate branch and the MAJ/XOR3 branch agree on all eight inputs |
| Gates.FullSubtractor | src/core/arithmetic.hpp:737-777 | every realisation (the LUT one with the corrected table) returns (xor3(a, b, c), maj(!a, b, c)) |
| Ripple.CellOut | src/core/arithmetic.hpp:757 | the carry (borrow) out of a cell is its generate, or its propagate and the incoming carry |
| Ripple.CellValue | src/core/arithmetic.hpp:757-758 | one cell: x + y + c == s + 2 cout, and x - y - c == d - 2 bout |
| Ripple.ChainIntoPrefix | src/core/arithmetic.hpp:78-86 | the carry into bit i depends only on the low i bits, so zero padding above does not change it |
| Ripple.ChainValuePrefix | src/core/arithmetic.hpp:800-803 | after i cells, val(result[..i]) +- 2^i carry == val(a[..i]) +- val(b[..i]) +- carry-in |
| Ripple.ChainValue | src/core/arithmetic.hpp:793-804 | the whole chain: val(sum) + 2^n cout == val(a) + val(b) + cin, and val(diff) - 2^n bout == val(a) - val(b) - bin |
| Ripple.SubAddRoundTrip | src/core/arithmetic.hpp:737-804 | subtracting b with borrow-in c and adding b back with carry-in c restores a, and the carry out equals the borrow out |
| Ripple.SubtractionCompares | src/core/arithmetic.hpp:910-916 | a subtraction borrows out exactly when val(a) < val(b) + bin; otherwise its bits hold the exact difference |
| Ripple.AdditionOverflows | src/core/arithmetic.hpp:1084-1086 | an addition carries out exactly when the sum reaches 2^n; otherwise its bits hold the exact sum |
| Ripple.UnfoldedWithoutCarryIn | src/core/arithmetic.hpp:147-149 | with carry-in false, skipping the fold gives the ripple result |
| Ripple.RippleAfterCells | src/core/arithmetic.hpp:800-803 | after i cells the low i bits are result bits, the others are still a, and the borrow is the chain's borrow into bit i |
| Ripple.RippleAfterAll | src/core/arithmetic.hpp:800-803 | the cell-by-cell loop ends with the reference result bits and borrow out |
| Ripple.BorrowRippleSubtractorInPlace | src/core/arithmetic.hpp:793-804 | a becomes the difference bits and the borrow the borrow out; val(a') - 2^n borrow' == val(a) - val(b) - borrow |
| Ripple.BorrowRippleSubtractor | src/core/arithmetic.hpp:807-823 | the same difference and borrow, returned as a new word and the borrow out |
| Prefix.GroupSplit | src/core/arithmetic.hpp:101-107 | group generate and propagate of a bit range split at any inner point |
| Prefix.GroupAbsorb | src/core/arithmetic.hpp:101-107 | propagating through a range subsumes what a lower sub-range generates |
| Prefix.CombineSummarises | src/core/arithmetic.hpp:101-107 | `o_operation` keeps begin and sets end to other.end; on adjacent or overlapping ranges it yields the group signals of the union |
| Prefix.LeavesValid | src/core/arithmetic.hpp:140-145 | the records built per bit summarise their own bit |
| Prefix.KoggeStoneRound | src/core/arithmetic.hpp:352-363 | a round of span 2^j over the snapshot keeps every record valid and doubles its reach: record k then reaches max(0, k + 1 - 2^(j+1)) |
| Prefix.KoggeStoneScan | src/core/arithmetic.hpp:351-363 | at most ceil(log2 n) rounds, every record ends covering bits 0..k, and for n = 1 no round runs |
| Prefix.BrentKungRound | src/core/arithmetic.hpp:152-162 | a down-sweep round of span s keeps the records valid, and every block of 2s bits ending at k gets its summary |
| Prefix.BrentKungSweep | src/core/arithmetic.hpp:151-162 | the down-sweep rounds keep every record valid |
| Prefix.UpSweep | src/core/arithmetic.hpp:164-200 | from any valid records, the backward sweep with its `i--` revisits terminates with every record covering bits 0..k |
| Prefix.BrentKungScan | src/core/arithmetic.hpp:151-200 | down-sweep plus up-sweep reduce every record to its full prefix |
| Prefix.StrideStep | src/core/arithmetic.hpp:537-544 | one stride-4 step combines record i + s with the snapshot of record i and advances the round's invariant |
| Prefix.HanCarlsonRound | src/core/arithmetic.hpp:533-545 | a stride-4 snapshot round of span 2^j doubles the reach of the records at positions 3 mod 4 and keeps all records valid |
| Prefix.HanCarlsonScan | src/core/arithmetic.hpp:518-581 | two Brent-Kung rounds, snapshot rounds, then the up-sweep reduce every record to its full prefix |
| PrefixAdders.LeafNodes | src/core/arithmetic.hpp:128-145 | the generator's records cover one bit each, with the carry optionally folded into record 0 |
| PrefixAdders.LeafCarry | src/core/arithmetic.hpp:202-205 | the group generate of bits 0..i is the chain's carry into bit i + 1, with carry-in c when folded and false when not |
| PrefixAdders.ReducedGivesChain | src/core/arithmetic.hpp:202-205 | once reduced, every pg[i].g is the carry into bit i + 1 |
| PrefixAdders.PrefixInPlace | src/core/arithmetic.hpp:125-214 | the shared generator body: the result is the ripple chain (folded) or the unfolded chain, and the carry out is the chain's carry out |
| PrefixAdders.PrefixResult | src/core/arithmetic.hpp:202-210 | the bits pro2[i] xor bor[i] and bor[n] of a reduced scan are the chain's result and carry out |
| PrefixAdders.BrentKungSubtractorInPlace | src/core/arithmetic.hpp:125-214 | as written: the unfolded result, and the borrow computed from borrow-in false; the difference equation holds when borrow-in is false |
| PrefixAdders.BrentKungSubtractorFolded | src/core/arithmetic.hpp:125-214 | with the fold the difference equation holds for any borrow-in |
| PrefixAdders.BrentKungAdderInPlace | src/core/arithmetic.hpp:225-312 | the carry is folded: val(a') + 2^n carry' == val(a) + val(b) + carry for any carry-in |
| PrefixAdders.KoggeStoneSubtractorInPlace | src/core/arithmetic.hpp:325-376 | the borrow is folded: val(a') - 2^n borrow' == val(a) - val(b) - borrow |
| PrefixAdders.KoggeStoneAdderInPlace | src/core/arithmetic.hpp:389-439 | the carry is folded: val(a') + 2^n carry' == val(a) + val(b) + carry |
| PrefixAdders.HanCarlsonSubtractorInPlace | src/core/arithmetic.hpp:452-594 | as written: widths up to 4 go to Brent-Kung; neither branch folds the borrow; the equation holds when borrow-in is false |
| PrefixAdders.HanCarlsonSubtractorFolded | src/core/arithmetic.hpp:452-594 | with the fold in both branches the difference equation holds for any borrow-in |
| PrefixAdders.HanCarlsonAdderInPlace | src/core/arithmetic.hpp:607-718 | as written: exact for any carry-in up to 4 bits, unfolded above; the sum equation holds when carry-in is false |
| PrefixAdders.HanCarlsonAdderFolded | src/core/arithmetic.hpp:607-718 | with the fold the sum equation holds for any carry-in |
| PrefixAdders.KoggeStoneRoundTrip | src/core/arithmetic.hpp:325-439 | the Kogge-Stone subtractor then adder with the same bit as borrow-in and carry-in restore the array, and carry out equals borrow out |
| PrefixAdders.BrentKungRoundTrip | src/core/arithmetic.hpp:125-312 | the as-written Brent-Kung subtractor then adder with borrow-in and carry-in false restore the array, and carry out equals borrow out |
| PrefixAdders.HanCarlsonRoundTrip | src/core/arithmetic.hpp:452-718 | the as-written Han-Carlson subtractor then adder with borrow-in and carry-in false restore the array at every width, and carry out equals borrow out |
| PrefixAdders.SubtractorNoFoldCounterexample | src/core/arithmetic.hpp:482-483 | without the fold, 0 - 0 - 1 on one bit gives difference 1 and no borrow, which is not -1 |
| PrefixAdders.AdderNoFoldCounterexample | src/core/arithmetic.hpp:636-637 | without the fold, 1 + 0 + carry 1 on five bits gives 0 and no carry, which is not 2 |
| PrefixAdders.CarryLookaheadRec | src/core/arithmetic.hpp:56 | the lookahead recursion fills bor[i + 1] = gen[i] or (pro[i] and bor[i]) from bor[0] = borrow |
| PrefixAdders.BorrowLookaheadSubtractorPow2InPlace | src/core/arithmetic.hpp:38-59 | a becomes the difference bits of a - b - borrow; one bit uses a full subtractor |
| PrefixAdders.BorrowsAreChain | src/core/arithmetic.hpp:46-57 | the lookahead recurrence over !a and b and !a or b is the ripple borrow chain |
| PrefixAdders.BorrowLookaheadSubtractorInPlace | src/core/arithmetic.hpp:73-87 | padding to 2^ceil(log2(n + 1)) bits keeps the low n difference bits, and padded bit n is the borrow out: val(a') - 2^n borrow' == val(a) - val(b) - borrow |
| Dividers.TrialSubtract | src/commands/divider.hpp:109-133 | every selectable subtractor, called with borrow-in false, yields the ripple difference and borrow |
| Dividers.DivStep | src/core/arithmetic.hpp:906-920 | in numbers, one quotient bit at weight P keeps a - b q P and 0 <= r < b P |
| Dividers.RestoringStart | src/core/arithmetic.hpp:891-904 | before the first step the partial remainder is the dividend and below b 2^N |
| Dividers.RestoringStep | src/core/arithmetic.hpp:908-918 | a trial step that compares r with b 2^k and keeps r - bit b 2^k maintains the restoring invariant with one more quotient bit |
| Dividers.RestoringFinish | src/core/arithmetic.hpp:923 | after the last step the reversed quotient is a / b and the remainder a % b; by 0 the quotient is all ones and the remainder a |
| Dividers.PopTop | src/core/arithmetic.hpp:919 | `pop_back` reduces the value modulo the new width and keeps it when it fits |
| Dividers.Trial | src/core/arithmetic.hpp:908-916 | the quotient bit is p_rem >= y, and the kept word is worth p_rem - bit y |
| Dividers.AdvanceTrial | src/core/arithmetic.hpp:959-973 | with the OR guard over y's high part the bit is still p_rem >= y and the kept word p_rem - bit y; a non-zero high part gives bit 0 and keeps p_rem unchanged |
| Dividers.AdvanceDecision | src/core/arithmetic.hpp:963-973 | in numbers, cond or a borrow keeps p; otherwise the difference p - y is kept |
| Dividers.DividerStep | src/core/arithmetic.hpp:906-920 | one iteration of the divider loop keeps the divider's state invariant |
| Dividers.RestoringDividerCore | src/core/arithmetic.hpp:882-926 | the quotient is a / b (all ones for b = 0), and the remainder is a % b reduced to the width it is left with |
| Dividers.RestoringArrayDivider | src/core/arithmetic.hpp:882-926 | as written: quotient a / b, but an (N - 1)-bit remainder worth (a % b) mod 2^(N - 1) |
| Dividers.DividerRemainderCounterexample | src/core/arithmetic.hpp:919 | on two bits, 2 % 3 is 2 but the divider's one-bit remainder reads 0 |
| Dividers.RestoringArrayDividerFixed | src/core/arithmetic.hpp:882-926 | without the last pop: an N-bit quotient a / b and an N-bit remainder a % b; by 0, all ones and a |
| Dividers.RestoringArrayDividerAdvance | src/core/arithmetic.hpp:929-996 | for every subtractor tag: an N-bit quotient a / b and an N-bit remainder a % b; by 0, all ones and a |
| Multipliers.AddInPlace | src/commands/multiplier.hpp:147-161 | every selectable adder, called with carry-in false, yields the ripple sum and carry |
| Multipliers.KoggeStoneFullAdder | src/core/arithmetic.hpp:999-1008 | returns (xor3(a, b, c), maj(a, b, c)), so a + b + c == sum + 2 carry |
| Multipliers.RowValue | src/core/arithmetic.hpp:1053-1058 | a partial-product row is worth a when bj holds and 0 otherwise |
| Multipliers.CarrySave | src/core/arithmetic.hpp:1023-1026 | the xor and majority words of a row add up to p + s + c |
| Multipliers.RowColumn | src/core/arithmetic.hpp:1025 | column i writes its carry to tmp[i] and, above column 0, its sum to tmp[n + i - 1] |
| Multipliers.RowStart | src/core/arithmetic.hpp:1023 | before column 0 the row's words are the input words |
| Multipliers.RowEnd | src/core/arithmetic.hpp:1023-1026 | after the last column tmp holds the carries, the sums shifted down one column, and the untouched top bit |
| Multipliers.MultiplyRow | src/core/arithmetic.hpp:1023-1026 | one row leaves tmp in its end state, and its column-0 sum is the row's product bit |
| Multipliers.ColumnStep | src/core/arithmetic.hpp:1025 | one full adder of a row advances the row state by one column |
| Multipliers.RowStep | src/core/arithmetic.hpp:1023-1026 | in numbers, p + S + C == product bit + 2 (S' + C') after a row |
| Multipliers.AccumulateRow | src/core/arithmetic.hpp:1021-1026 | the rows' invariant res[..j] + 2^j (S + C) == a b[..j] extends by one row |
| Multipliers.RowCarrySave | src/core/arithmetic.hpp:1023-1026 | one row on tmp: the input words and the row are worth product bit j plus twice the output words, whose top bit stays false |
| Multipliers.RowAccumulates | src/core/arithmetic.hpp:1021-1026 | with product bit j written to res[j], the invariant holds for j + 1 |
| Multipliers.RowKeepsInvariant | src/core/arithmetic.hpp:1021-1026 | one row of `new_multiplier` keeps the rows' invariant |
| Multipliers.HighWord | src/core/arithmetic.hpp:1029-1033 | the final ripple computes S + C exactly when it fits in n bits |
| Multipliers.ProductAssembled | src/core/arithmetic.hpp:1018-1035 | low product bits below the high word make up a b |
| Multipliers.CarrySaveFits | src/core/arithmetic.hpp:1029-1033 | after all rows S + C < 2^n, because the product fits in n + m bits |
| Multipliers.NewMultiplier | src/core/arithmetic.hpp:1011-1036 | `new_multiplier` returns |a| + |b| bits worth val(a) val(b) |
| Multipliers.CarrySaveRows | src/core/arithmetic.hpp:1021-1027 | after the m rows, res[..m] + 2^m (S + C) == a b, and the top of S is false |
| Multipliers.NextRow | src/core/arithmetic.hpp:1023-1026 | row j changes only res[j] and tmp, and keeps the rows' invariant |
| Multipliers.FinalRipple | src/core/arithmetic.hpp:1029-1033 | the last ripple writes, above res[..m], the sum bits of the carry word and the sum word |
| Multipliers.ShiftedRowValue | src/core/arithmetic.hpp:1062-1075 | row k is worth 2^k a when b[k] holds and 0 otherwise |
| Multipliers.FirstRow | src/core/arithmetic.hpp:1065-1067 | row 0 is worth a b[..1] |
| Multipliers.RowsSum | src/core/arithmetic.hpp:1083-1086 | row k + 1 plus a b[..k + 1] is a b[..k + 2] |
| Multipliers.PrefixProductFits | src/core/arithmetic.hpp:1046 | a times a prefix of b fits in |a| + |b| bits |
| Multipliers.RowsFit | src/core/arithmetic.hpp:1083-1086 | row k + 1 and the running sum add up to less than 2^(|a| + |b|) |
| Multipliers.SumFits | src/core/arithmetic.hpp:1083-1086 | the row adder does not overflow when the rows' sum fits |
| Multipliers.AccumulateShiftedRow | src/core/arithmetic.hpp:1083-1086 | adding row k + 1 to the running sum of rows 0..k yields a b[..k + 2] |
| Multipliers.PartialProducts | src/core/arithmetic.hpp:1051-1060 | row j of the generated partial products is a and b[j] |
| Multipliers.ExtendRows | src/core/arithmetic.hpp:1063-1075 | after the extension loop every row k is the shifted, zero-extended row |
| Multipliers.AdvanceMultiplierCore | src/core/arithmetic.hpp:1039-1098 | the result is the last accumulated row: a b on |a| + |b| bits when |b| >= 2 or when row 0 is the start; empty as written for |b| = 1 |
| Multipliers.AddRows | src/core/arithmetic.hpp:1084-1086 | one in-place row addition turns a b[..k + 1] into a b[..k + 2] |
| Multipliers.AdvanceMultiplier | src/core/arithmetic.hpp:1039-1098 | as written: a b on |a| + |b| bits when |b| >= 2, and an empty result when |b| = 1 |
| Multipliers.SingleRowCounterexample | src/commands/multiplier.hpp:167 | for one-bit operands the result is empty, so the size assertion of the multiplier command fails |
| Multipliers.AdvanceMultiplierFixed | src/core/arithmetic.hpp:1078-1090 | with the result starting from row 0: a b on |a| + |b| bits for every |b| >= 1 |
| Words.ZeroExtend | src/core/arithmetic.hpp:904 | `zero_extend` pads with false at the top, keeping the low bits and the value |
| Words.CeilLog2 | src/core/arithmetic.hpp:76 | the integer ceil(log2 n): the smallest k with 2^k >= n |

## Left out

- The ABC command wrappers, the store, the transforms, `main` and the CLI command files are
  left out. They are plumbing around foreign calls, I/O and the ALICE store. The command
  files contribute only the tag datatypes `SubtractorTag` and `AdderTag`. An unknown name
  makes them call `exit(1)`, which is not modelled.
- `restoring_array_divider_bak` is left out. It is marked unused, and it relies on a
  subtractor whose body is not part of this model.
- The mockturtle helpers whose bodies are not part of this model are stand-ins with bodies
  that meet their documented contracts:
  - `mux`, `mux_inplace`, `zero_extend`, `constant_word` and `create_nary_or` are
    `MuxWord`, `MuxInPlace`, `ZeroExtend`, `Zeros` and `NaryOr`;
  - `carry_lookahead_adder_inplace_rec` is `CarryLookaheadRec`.
- Floating point is replaced by integers. The `std::ceil(std::log2(...))` bounds become
  `CeilLog2`, and `std::pow(2, j)` becomes `Pow2`. This includes the double-typed loop indices.
- Node identity, structural hashing, `create_buf`, the network's gate count and depth, and
  the `pg_ptr` new/delete copies (which are never read) are not modelled.
- `PG::o_operation` mutates a record held by value in a `std::vector`. It is modelled as
  `PG.Combine`, which returns the updated record, and the schedule loops store it back into
  its slot.
- Local `std::vector`s that the source grows or shrinks are `seq<bool>` values that the
  methods reassign. This covers `p_rem`, `y`, `quo`, `tmp`, `res` and `partial_product`.
  Only the operands the generators overwrite in place are arrays.
- The prefix generators and the dividers require non-empty operands; for `advance_multiplier`,
  b must be non-empty. With empty operands the source indexes out of range or wraps an
  unsigned size, which is undefined behaviour.
  - Exception: `borrow_ripple_subtractor(_inplace)` and `borrow_lookahead_subtractor_inplace` are
    modelled for n = 0.
  - `new_multiplier` requires |a| >= 1, because with an empty a, `tmp.back()` reads an empty vector.
- `new_multiplier` writes the column-0 sum of row j straight into `res[j]`. The model returns
  that bit from the row and writes `res[j]` after the row. This does not change the result,
  because no column of the row reads `res`.
- The `create_and` products of `new_multiplier` are formed inside the row loop. The model
  reads them from the row word `RowBits`.
- Gates.FullSubtractor: the LUT branch uses the corrected borrow table d4. The table as
  written is modelled separately; see "## Findings". On a network that creates nodes, the
  source's cell borrows out for 1 - 0 - 0, so the members below compute the intended result
  rather than the source's on such a network. Their contracts hold as stated for networks
  without `create_node`, which include the AIG and XMG networks the commands build.
- Ripple.BorrowRippleSubtractorInPlace: inherits the corrected LUT cell on networks that create nodes.
- Ripple.BorrowRippleSubtractor: inherits the corrected LUT cell on networks that create nodes.
- PrefixAdders.BorrowLookaheadSubtractorPow2InPlace: its one-bit path inherits the corrected LUT
  cell on networks that create nodes.
- PrefixAdders.BorrowLookaheadSubtractorInPlace: inherits the corrected LUT cell through the
  one-bit path of the padded subtractor (n = 0) on networks that create nodes.
- Dividers.TrialSubtract: with the BLS and BRS tags it inherits the corrected LUT cell on
  networks that create nodes.
- Dividers.Trial: inherits the corrected LUT cell through `TrialSubtract` on networks that create nodes.
- Dividers.AdvanceTrial: inherits the corrected LUT cell through `TrialSubtract` on networks that create nodes.
- Dividers.DividerStep: inherits the corrected LUT cell through `TrialSubtract` on networks that create nodes.
- Dividers.RestoringDividerCore: inherits the corrected LUT cell through `TrialSubtract` on networks that create nodes.
- Dividers.RestoringArrayDivider: inherits the corrected LUT cell through `TrialSubtract` on networks that create nodes.
- Dividers.RestoringArrayDividerFixed: inherits the corrected LUT cell through `TrialSubtract` on networks that create nodes.
- Dividers.RestoringArrayDividerAdvance: inherits the corrected LUT cell through `TrialSubtract` on networks that create nodes.
- Dividers.DividerRemainderCounterexample: inherits the corrected LUT cell through
  `RestoringArrayDivider`. On a network that creates nodes, the source's one-bit remainder of
  2 / 3 is 1 rather than 0; it is wrong there as well, since 2 % 3 is 2.
- The `has_*_v` capability checks and `static_assert`s are compile-time features and are not
  modelled. `full_subtractor`'s choice among them is the `Network` parameter.

## Findings

| source | as written | input that shows it | evidently intended | confidence | as-written member | corrected member |
|---|---|---|---|---|---|---|
| src/core/arithmetic.hpp:746 | the LUT borrow table is "4e" | a = 1, b = 0, c = 0: table 4e gives borrow 1, but 1 - 0 - 0 does not borrow | the table of maj(!a, b, c), which is d4 under kitty's variable order | high (not executed) | Gates.FullSubtractorLutAsWritten, Gates.LutBorrowTableWrong | Gates.FullSubtractorLut |
| src/core/arithmetic.hpp:147-149 | the Brent-Kung subtractor does not fold the borrow-in into record 0 | one bit, 0 - 0 - borrow 1: difference 1 and no borrow out | the borrow folded as in the Kogge-Stone subtractor, so the equation holds for any borrow-in | medium (not executed; every caller passes borrow-in false) | PrefixAdders.BrentKungSubtractorInPlace, PrefixAdders.SubtractorNoFoldCounterexample | PrefixAdders.BrentKungSubtractorFolded |
| src/core/arithmetic.hpp:482-483 | the Han-Carlson subtractor does not fold the borrow-in | one bit, 0 - 0 - borrow 1 (Brent-Kung branch): difference 1 and no borrow out | the borrow folded in both branches | medium (not executed; every caller passes borrow-in false) | PrefixAdders.HanCarlsonSubtractorInPlace, PrefixAdders.SubtractorNoFoldCounterexample | PrefixAdders.HanCarlsonSubtractorFolded |
| src/core/arithmetic.hpp:636-637 | the Han-Carlson adder above four bits does not fold the carry-in | five bits, 1 + 0 + carry 1: sum 0 and no carry out | the carry folded as in the Brent-Kung adder | medium (not executed; every caller passes carry-in false) | PrefixAdders.HanCarlsonAdderInPlace, PrefixAdders.AdderNoFoldCounterexample | PrefixAdders.HanCarlsonAdderFolded |
| src/core/arithmetic.hpp:919 | `p_rem.pop_back()` also runs after the last step, leaving an N - 1 bit remainder | N = 2, a = 2, b = 3: remainder 2 is read back as 0 | an N-bit remainder a % b, as `restoring_array_divider_advance` returns | high (not executed) | Dividers.RestoringArrayDivider, Dividers.DividerRemainderCounterexample | Dividers.RestoringArrayDividerFixed |
| src/core/arithmetic.hpp:1078-1090 | the result is only assigned inside the row-addition loop | a = [1], b = [1]: the result is empty, and the size assertion of src/commands/multiplier.hpp:167 fails | the result starts as row 0, so a one-bit b yields the zero-extended row | high (not executed) | Multipliers.AdvanceMultiplier, Multipliers.SingleRowCounterexample | Multipliers.AdvanceMultiplierFixed |
