# The 210-wheel of primal-sieve

`primal-sieve/src/wheel210.rs` is the wheel-factorisation core of the
`primal` segmented sieve of Eratosthenes. It provides:

- a position mapping between integers and the bits of a "210-wheel"
  (`bit_index`, `from_bit_index`). Only the 48 residues modulo 210 that are
  coprime to 2, 3, 5 and 7 get a position.
- the sieving cursor of a prime: a byte index `si` into the segment buffer and
  a state index `wi` into the transition table `WHEEL` (`compute_wheel_elem`).
- one marking step of that cursor (`set_bit`): it ORs one bit into one byte
  and moves both indices on.
- the constant tables behind them: `WHEEL_OFFSETS`, `SIZE`, `MODULO`,
  `TRUE_AT_BIT`, `INIT` and `WHEEL`.

The segment buffer holds 8 bits per 30 integers. Bit `b` of byte `i` stands
for `low + 30 * i + [1, 7, 11, 13, 17, 19, 23, 29][b]`.

`WHEEL` has 8 spokes of 48 states, one spoke per residue of the prime modulo
30. Each spoke is one block of 8 states repeated six times. So although the
position mapping uses the 210-wheel, the sieving cursor uses the 30-wheel: it
visits p * k for every k coprime to 30.

## Project layout

- `wheel.dfy` (module `Wheel`): what wheel210.rs imports from the sieve's
  `wheel` module. That module's source is not part of this model; the
  definitions are reconstructed from how wheel210.rs uses them. They are:
  `BYTE_SIZE` = 8, `BYTE_MODULO` = 30, the bit layout of a byte, and the
  records `WheelElem`, `WheelInit` and `WheelInfo`.
- `wheel210_tables.dfy` (module `Wheel210Tables`): the tables, entry for entry
  as literals. Alongside them are the facts that explain each table, checked
  by evaluation.
- `wheel210.dfy` (module `Wheel210`): the four operations, and the round-trip,
  order and minimality properties of the position mapping.
- `wheel210_cursor.dfy` (module `Wheel210Cursor`): what repeated `set_bit`
  calls from the cursor of `compute_wheel_elem` do. The fact proved here is
  that they mark exactly the multiples p * k (k at or above p, coprime to 30),
  in increasing order and none twice. It also shows how the cursor moves by
  blocks of 8 states and by whole spokes, and it holds the first eight calls
  for p = 11 and the first three for p = 7 from a buffer at 0.

`set_bit` updates the buffer in place, so it is a method on an `array<bv8>`.
Its effect on the cursor is the function `NextCursor`, and `Cursor` iterates
that function. The rest of the source is expressions over constant tables and
is modelled as functions.

## Model

| member | source | states |
|---|---|---|
| `Wheel210.BitIndex` | primal-sieve/src/wheel210.rs:15-18 | The flag is true exactly when n is coprime to 210. The position lies in n's period: position / 48 == n / 210. |
| `Wheel210.BitIndexNextRepresentable` | primal-sieve/src/wheel210.rs:15-18 | The position names the least integer at or above n that is coprime to 210. That integer is >= n, is coprime to 210, and nothing from n up to it is. |
| `Wheel210.BitIndexMonotone` | primal-sieve/src/wheel210.rs:15-18 | Positions never decrease as n grows. |
| `Wheel210.BitIndexPeriodic` | primal-sieve/src/wheel210.rs:15-18 | n + 210 has the same flag as n and a position 48 further on. |
| `Wheel210.FromBitIndex` | primal-sieve/src/wheel210.rs:19-21 | The integer at a position is coprime to 210 and lies in that position's period. |
| `Wheel210.BitIndexOfFromBitIndex` | primal-sieve/src/wheel210.rs:15-21 | Mapping a position to its integer and back gives (true, the same position). |
| `Wheel210.FromBitIndexOfBitIndex` | primal-sieve/src/wheel210.rs:15-21 | An integer coprime to 210, mapped to its position and back, gives itself. |
| `Wheel210.FromBitIndexOrder` | primal-sieve/src/wheel210.rs:19-21 | a < b exactly when from_bit_index(a) < from_bit_index(b), in both directions. |
| `Wheel.WheelElem.UnsetBit` | primal-sieve/src/wheel210.rs:25-27 | The mask has exactly one bit set, and that bit is the entry's bit number. |
| `Wheel210.WrappingAdd` | primal-sieve/src/wheel210.rs:31 | `usize::wrapping_add` of the signed step: always below 2^64, and the plain sum when that sum is in range. |
| `Wheel210.NextCursor` | primal-sieve/src/wheel210.rs:29-31 | One step keeps the state in its spoke and moves it one place on, cyclically (47 -> 0). The byte index never decreases. |
| `Wheel210.SetBit` | primal-sieve/src/wheel210.rs:23-33 | The byte at si becomes its old value ORed with the state's mask, and no other byte changes. The cursor returned is NextCursor of the old one. |
| `Wheel210.FirstMultiplier` | primal-sieve/src/wheel210.rs:38-40 | INIT's factor leads from p to the least integer at or above p that is coprime to 210. |
| `Wheel210.FirstMultipleByte` | primal-sieve/src/wheel210.rs:36-46 | The byte offset `(mult - low) * 8 / 30 / 8` is the span of 30 of p times that integer, counted from low. |
| `Wheel210.ComputeWheelElem` | primal-sieve/src/wheel210.rs:35-54 | truePrime is p and prime is p / 30. For p coprime to 30 the state is the first state of the spoke for p mod 30, and for any other p it is state 0. The byte is that of p * (least integer >= p coprime to 210). |
| `Wheel210Tables.WheelOffsetsBounds` | primal-sieve/src/wheel210.rs:56-62 | 30 entries, each naming one of the 8 spokes. |
| `Wheel210Tables.WheelOffsetsSpokes` | primal-sieve/src/wheel210.rs:56-62 | A residue coprime to 30 is sent to the spoke of that residue. |
| `Wheel210Tables.WheelOffsetsOthers` | primal-sieve/src/wheel210.rs:56-62 | A residue modulo 30 with a factor 2, 3 or 5 is sent to spoke 0. |
| `Wheel210Tables.TrueAtBit` | primal-sieve/src/wheel210.rs:67-72 | Each of the 48 entries is a residue from 1 to 209 that is coprime to 210. |
| `Wheel210Tables.TrueAtBitAscending` | primal-sieve/src/wheel210.rs:67-72 | Adjacent entries ascend. |
| `Wheel210Tables.TrueAtBitIncreasing` | primal-sieve/src/wheel210.rs:67-72 | The table is strictly increasing, for any two indices. |
| `Wheel210Tables.InitTable` | primal-sieve/src/wheel210.rs:73-127 | Each of the 210 entries names an index of TRUE_AT_BIT, below 48, and has a factor below 10. |
| `Wheel210Tables.InitEntry` | primal-sieve/src/wheel210.rs:73-127 | Each entry relates to its neighbours (InitEntryHolds). A coprime residue has factor 0 and names itself in TRUE_AT_BIT. A positive factor is one more than the next entry's, with the same index. |
| `Wheel210Tables.InitNextCoprime` | primal-sieve/src/wheel210.rs:73-127 | Entry r points, at distance nextMultFactor, to the least residue >= r coprime to 210. Its index in TRUE_AT_BIT is wheelIndex, and the factor is 0 exactly when r is coprime. |
| `Wheel210Tables.TrueAtBitInInit` | primal-sieve/src/wheel210.rs:67-127 | INIT sends each TRUE_AT_BIT residue to its own index with factor 0: the two tables are inverse. |
| `Wheel210Tables.Remainder1` | primal-sieve/src/wheel210.rs:130-143 | Spoke for residue 1: each state marks a bit below 8. Every state steps +1, and the last steps -47 back to the first. |
| `Wheel210Tables.Remainder1Repeats` | primal-sieve/src/wheel210.rs:130-143 | Spoke for residue 1: states 8 apart hold the same bit, factor and correction. |
| `Wheel210Tables.Remainder1Strides` | primal-sieve/src/wheel210.rs:130-143 | Spoke for residue 1: the block of 8 has the bit, factor and carry that the 30-wheel calls for (StrideMatches). |
| `Wheel210Tables.Remainder7` | primal-sieve/src/wheel210.rs:144-157 | Spoke for residue 7: each state marks a bit below 8. Every state steps +1, and the last steps -47 back to the first. |
| `Wheel210Tables.Remainder7Repeats` | primal-sieve/src/wheel210.rs:144-157 | Spoke for residue 7: states 8 apart hold the same bit, factor and correction. |
| `Wheel210Tables.Remainder7Strides` | primal-sieve/src/wheel210.rs:144-157 | Spoke for residue 7: the block of 8 has the bit, factor and carry that the 30-wheel calls for (StrideMatches). |
| `Wheel210Tables.Remainder11` | primal-sieve/src/wheel210.rs:158-171 | Spoke for residue 11: each state marks a bit below 8. Every state steps +1, and the last steps -47 back to the first. |
| `Wheel210Tables.Remainder11Repeats` | primal-sieve/src/wheel210.rs:158-171 | Spoke for residue 11: states 8 apart hold the same bit, factor and correction. |
| `Wheel210Tables.Remainder11Strides` | primal-sieve/src/wheel210.rs:158-171 | Spoke for residue 11: the block of 8 has the bit, factor and carry that the 30-wheel calls for (StrideMatches). |
| `Wheel210Tables.Remainder13` | primal-sieve/src/wheel210.rs:172-185 | Spoke for residue 13: each state marks a bit below 8. Every state steps +1, and the last steps -47 back to the first. |
| `Wheel210Tables.Remainder13Repeats` | primal-sieve/src/wheel210.rs:172-185 | Spoke for residue 13: states 8 apart hold the same bit, factor and correction. |
| `Wheel210Tables.Remainder13Strides` | primal-sieve/src/wheel210.rs:172-185 | Spoke for residue 13: the block of 8 has the bit, factor and carry that the 30-wheel calls for (StrideMatches). |
| `Wheel210Tables.Remainder17` | primal-sieve/src/wheel210.rs:186-199 | Spoke for residue 17: each state marks a bit below 8. Every state steps +1, and the last steps -47 back to the first. |
| `Wheel210Tables.Remainder17Repeats` | primal-sieve/src/wheel210.rs:186-199 | Spoke for residue 17: states 8 apart hold the same bit, factor and correction. |
| `Wheel210Tables.Remainder17Strides` | primal-sieve/src/wheel210.rs:186-199 | Spoke for residue 17: the block of 8 has the bit, factor and carry that the 30-wheel calls for (StrideMatches). |
| `Wheel210Tables.Remainder19` | primal-sieve/src/wheel210.rs:200-213 | Spoke for residue 19: each state marks a bit below 8. Every state steps +1, and the last steps -47 back to the first. |
| `Wheel210Tables.Remainder19Repeats` | primal-sieve/src/wheel210.rs:200-213 | Spoke for residue 19: states 8 apart hold the same bit, factor and correction. |
| `Wheel210Tables.Remainder19Strides` | primal-sieve/src/wheel210.rs:200-213 | Spoke for residue 19: the block of 8 has the bit, factor and carry that the 30-wheel calls for (StrideMatches). |
| `Wheel210Tables.Remainder23` | primal-sieve/src/wheel210.rs:214-227 | Spoke for residue 23: each state marks a bit below 8. Every state steps +1, and the last steps -47 back to the first. |
| `Wheel210Tables.Remainder23Repeats` | primal-sieve/src/wheel210.rs:214-227 | Spoke for residue 23: states 8 apart hold the same bit, factor and correction. |
| `Wheel210Tables.Remainder23Strides` | primal-sieve/src/wheel210.rs:214-227 | Spoke for residue 23: the block of 8 has the bit, factor and carry that the 30-wheel calls for (StrideMatches). |
| `Wheel210Tables.Remainder29` | primal-sieve/src/wheel210.rs:228-240 | Spoke for residue 29: each state marks a bit below 8. Every state steps +1, and the last steps -47 back to the first. |
| `Wheel210Tables.Remainder29Repeats` | primal-sieve/src/wheel210.rs:228-240 | Spoke for residue 29: states 8 apart hold the same bit, factor and correction. |
| `Wheel210Tables.Remainder29Strides` | primal-sieve/src/wheel210.rs:228-240 | Spoke for residue 29: the block of 8 has the bit, factor and carry that the 30-wheel calls for (StrideMatches). |
| `Wheel210Tables.WheelTable` | primal-sieve/src/wheel210.rs:129-241 | Each of the 384 states marks a bit below 8. It steps +1, or -47 from the last state of its spoke. |
| `Wheel210Tables.WheelTableEntry` | primal-sieve/src/wheel210.rs:129-241 | Any state i: its step is SpokeStep. The first block of its spoke matches the 30-wheel, and later blocks repeat the block before. |
| `Wheel210Tables.WheelTableStride` | primal-sieve/src/wheel210.rs:129-241 | Every state holds the stride that its spoke and its place in the block of 8 call for, and steps +1, or -47 at the end of the spoke. |
| `Wheel210Cursor.BlockSums` | primal-sieve/src/wheel210.rs:129-241 | In every spoke, the factors of the 8 states of one block add up to 30, and their corrections add up to the spoke's residue r. |
| `Wheel210Cursor.BlockResidues` | primal-sieve/src/wheel210.rs:129-241 | The 8 positions of a block stand for 8 different residues modulo 30. |
| `Wheel210Cursor.BlockBitsDistinct` | primal-sieve/src/wheel210.rs:129-241 | Two states of one block of 8 mark different bits, so each block marks every bit of a byte once. |
| `Wheel210Cursor.Cursor` | primal-sieve/src/wheel210.rs:23-33 | n `set_bit` calls keep the state index in range and in its spoke, and move it n states on in the spoke, cyclically. |
| `Wheel210Cursor.Step` | primal-sieve/src/wheel210.rs:23-33 | A cursor at the multiple p * k marks exactly the bit that stands for p * k. It then moves to the byte and state of p times the next cofactor coprime to 30. |
| `Wheel210Cursor.NextState` | primal-sieve/src/wheel210.rs:29-31 | One step moves the byte by the prime's quotient times the state's factor plus its correction. It keeps the spoke and moves one place on in the block of 8. |
| `Wheel210Cursor.CursorInvariant` | primal-sieve/src/wheel210.rs:23-33 | Write p = 30q + r for the spoke's residue r. Then 30 * (byte index) + (residue of the block position) - p * (cofactor of the walk) is the same after n calls as before. |
| `Wheel210Cursor.CursorTurns` | primal-sieve/src/wheel210.rs:23-33 | 8k calls from any state move the byte index on by k * p. |
| `Wheel210Cursor.CursorTurn` | primal-sieve/src/wheel210.rs:23-33 | 8 calls from any state move the byte index on by p = 30q + r and the state 8 places on in its spoke. |
| `Wheel210Cursor.CursorClosure` | primal-sieve/src/wheel210.rs:23-33 | 48 calls bring the state index back to where it started and move the byte index on by 6p. |
| `Wheel210Cursor.Walk` | primal-sieve/src/wheel210.rs:23-33 | After n steps from p * k, the cursor is at p times the n-th cofactor after k. |
| `Wheel210Cursor.MultiplierIncreasing` | primal-sieve/src/wheel210.rs:23-33 | The walk of cofactors strictly increases, so no multiple is marked twice and marks come in increasing order. |
| `Wheel210Cursor.StartTracks` | primal-sieve/src/wheel210.rs:35-54 | For p coprime to 210, with low a multiple of 30 and low <= p * p, the start cursor is at p * p. |
| `Wheel210Cursor.MarkedBitIsMultiple` | primal-sieve/src/wheel210.rs:23-54 | The n-th call from the start cursor marks the bit of p * (n-th cofactor from p). |
| `Wheel210Cursor.SievesMultiples` | primal-sieve/src/wheel210.rs:23-54 | Every call marks some p * k with k >= p coprime to 30. Every such multiple is marked by some call. |
| `Wheel210Cursor.Prime11Start` | primal-sieve/src/wheel210.rs:35-54 | compute_wheel_elem(11, 0) is (11, 0, byte 4, state 96). |
| `Wheel210Cursor.Prime11Step` | primal-sieve/src/wheel210.rs:158-171 | The first eight states of the spoke for 11, step by step: bits 0, 6, 1, 7, 3, 5, 2, 4 and bytes 4, 4, 6, 6, 8, 10, 11, 13, 15. |
| `Wheel210Cursor.Prime11Cursor` | primal-sieve/src/wheel210.rs:23-33 | From the start cursor for 11, n steps (n <= 8) reach state 96 + n at the listed byte, ending at (15, 104). |
| `Wheel210Cursor.Prime7Start` | primal-sieve/src/wheel210.rs:35-54 | compute_wheel_elem(7, 0) is (7, 0, byte 2, state 48): the byte of 77, but the first state of the spoke for 7. |
| `Wheel210Cursor.Prime7Marks` | primal-sieve/src/wheel210.rs:23-54 | The first three calls for 7 from 0 mark 79, 107 and 121 (bytes 2, 3, 4 with bits 5, 4, 0). None of them is a multiple of 7. |
| `Wheel210Cursor.Prime11Trace` | primal-sieve/src/wheel210.rs:23-54 | The first eight marks for 11 from 0 are bytes 4, 4, 6, 6, 8, 10, 11, 13 with bits 0, 6, 1, 7, 3, 5, 2, 4. They stand for 121, 143, 187, 209, 253, 319, 341 and 407 (11 times 11, 13, 17, 19, 23, 29, 31, 37). |

## Left out

- The `wheel` module (line 3) is not part of this model. Its two constants,
  its three records and the `elem!` and `init!` macros are reconstructed. The
  mask `unset_bit` is taken to be `1 << bit`. That is the only reading under
  which `|=` in `set_bit` marks the table's bit number.
- Wheel210.SetBit: requires `si < x.Length` and `wi < 384`. The source reads
  both with `get_unchecked`, and out-of-range values are undefined behaviour
  there, not a handled error.
- All `usize` arithmetic in wheel210.rs is unbounded integers in the model,
  except the state index's `wrapping_add` (line 31), which is modelled as
  wrapping. Past 2^64 - 1 a debug build panics and a release build wraps.
  The contracts below state the unbounded result, so they match the source
  only below these points. The lines where it can overflow are:
  - line 20: `(bit / 48) * 210 + TRUE_AT_BIT[bit % 48]`, from
    bit = 4216398645419326083 on. The product alone overflows from
    bit = 4216398645419326128 on.
  - lines 29-30: the byte-index additions `*si += ...`.
  - lines 36 and 40: `p * p` and `p * next_mult_factor`.
  - line 45: `low_offset * 8`, once `low_offset >= 2^61`.
- Wheel210.NextCursor: the byte-index sums of lines 29-30 do not wrap in the
  model.
- Wheel210.FromBitIndex: the sum of line 20 does not wrap in the model.
  BitIndexOfFromBitIndex therefore describes the source only for positions
  below 4216398645419326083.
- Wheel210.ComputeWheelElem: requires `low <= p * p + p * next_mult_factor`.
  In the source, `mult - low` underflows otherwise. Its `sieveIndex` clause
  and FirstMultipleByte describe the source only while `mult - low` is below
  2^61. The products of lines 36 and 40 do not wrap in the model either.
- Wheel210Cursor.StartTracks: the sieving lemmas (StartTracks,
  MarkedBitIsMultiple, SievesMultiples) require p coprime to 210.
  They also require `low % 30 == 0`, because the byte layout counts spans of
  30 from `low`. `compute_wheel_elem` ignores `INIT[p % 210].wheel_index`. For
  p coprime to 30 it always starts at the first state of p's spoke, which
  stands for the cofactor p. For p = 2, 3 and 5, `WHEEL_OFFSETS` gives 0, so
  it starts at state 0, the first state of the spoke for residue 1. The start
  multiple, though, is p * (p + next_mult_factor). For 2, 3, 5 and 7 these
  disagree. For p = 7 from 0 the cursor is at byte 2, the span of 77 = 7 * 11,
  and at state 48, whose bit 5 stands for residue 19, the residue of 49. Its
  first three calls mark 79, 107 and 121, none of them a multiple of 7
  (Prime7Marks). The callers that decide which primes reach this code are
  not part of this model, so the model computes what the code computes and
  proves the walk only where the two agree.
- The sieve driver that allocates the segment, loops over `set_bit` and
  advances `low` between segments is outside wheel210.rs and is not modelled.
- The tables are functions of their index rather than arrays. Their entries
  are the source's literals, one for one.

## Notes on the code

- The mask field is named `unset_bit` (line 25), but line 27 ORs it into the
  byte, so a call sets the bit for a multiple. The model follows the code.
- Line 45, `low_offset * 8`, overflows once `low_offset >= 2^61`. With `low`
  near 0 that happens for every p >= 1518500250 (p * p >= 2^61), while
  `p * p` itself still fits in 64 bits.
- The step stored in the last state of each spoke is -47. It leads back to
  the first state of the same spoke, not to another spoke.
- Sieving with 11 from 0 marks 121, 143, 187, 209, 253, 319, 341 and 407 in
  its first eight calls (Prime11Trace). The cofactors run through the
  integers coprime to 30, so later calls also mark multiples such as 11 * 49.
