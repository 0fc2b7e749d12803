// The definitions that wheel210.rs imports from the sieve's `wheel` module
// (line 3 of that file). That module is not part of this model; what it
// provides is reconstructed here from the way wheel210.rs uses it: the two
// density constants and the three record types, whose fields are the
// arguments of the `elem!` and `init!` table-entry macros.

module Wheel {

  /** Bits in one byte of the sieve buffer. */
  const BYTE_SIZE: nat := 8

  /** Integers covered by one byte of the sieve buffer. */
  const BYTE_MODULO: nat := 30

  /**
    * The integers coprime to 30 inside one span of 30, in the order of the
    * bits of a byte: bit b of byte i stands for `low + 30 * i + BYTE_RESIDUES[b]`.
    */
  const BYTE_RESIDUES: seq<nat> := [1, 7, 11, 13, 17, 19, 23, 29]

  /** For each entry of BYTE_RESIDUES, the distance to the next integer coprime to 30. */
  const RESIDUE_GAPS: seq<nat> := [6, 4, 2, 4, 2, 4, 6, 2]

  predicate CoprimeTo30(n: int) {
    n % 2 != 0 && n % 3 != 0 && n % 5 != 0
  }

  /**
    * One state of the transition table, holding the arguments of `elem!`:
    * the bit to mark, the multiple of the prime's byte quotient to add to
    * the byte cursor, a fixed byte correction, and the signed step to the
    * next state. The byte mask the entry sets is a function of its bit.
    */
  datatype WheelElem = WheelElem(bit: nat, nextMultFactor: nat, correction: nat, next: int) {
    /** The byte mask of the entry: bit `bit` set and no other. */
    function UnsetBit(): (m: bv8)
      requires bit < BYTE_SIZE
      ensures m != 0 && m & (m - 1) == 0 && m >> bit == 1
    {
      (1 as bv8) << bit
    }
  }

  /** One entry of the cursor initialisation table, holding the arguments of `init!`. */
  datatype WheelInit = WheelInit(nextMultFactor: nat, wheelIndex: nat)

  /** A sieving cursor as `compute_wheel_elem` returns it. */
  datatype WheelInfo = WheelInfo(truePrime: nat, prime: nat, sieveIndex: nat, wheelIndex: nat)

  /** The bit of a byte that stands for residue `m` modulo 30. */
  function ResidueBit(m: nat): (b: nat)
    requires m < BYTE_MODULO && CoprimeTo30(m)
    ensures b < BYTE_SIZE && BYTE_RESIDUES[b] == m
  {
    if m == 1 then 0 else if m == 7 then 1 else if m == 11 then 2 else if m == 13 then 3
    else if m == 17 then 4 else if m == 19 then 5 else if m == 23 then 6 else 7
  }

  /**
    * Bit `bit` of byte `byteIndex`, in a buffer whose first byte starts at
    * `low`, stands for the integer `n`.
    */
  predicate MarksInteger(low: int, byteIndex: int, bit: nat, n: int) {
    low % BYTE_MODULO == 0 && bit < BYTE_SIZE && n == low + BYTE_MODULO * byteIndex + BYTE_RESIDUES[bit]
  }

  // Adding a multiple of a small prime keeps the residue modulo that prime.

  lemma ShiftModulo2(x: int, k: int)
    ensures (x + 2 * k) % 2 == x % 2
  {}

  lemma ShiftModulo3(x: int, k: int)
    ensures (x + 3 * k) % 3 == x % 3
  {}

  lemma ShiftModulo5(x: int, k: int)
    ensures (x + 5 * k) % 5 == x % 5
  {}

  lemma ShiftModulo7(x: int, k: int)
    ensures (x + 7 * k) % 7 == x % 7
  {}

  /** Adding a multiple of 30 keeps coprimality to 30. */
  lemma CoprimeTo30Shift(x: int, q: int)
    ensures CoprimeTo30(x + BYTE_MODULO * q) <==> CoprimeTo30(x)
  {
    ShiftModulo2(x, 15 * q);
    ShiftModulo3(x, 10 * q);
    ShiftModulo5(x, 6 * q);
  }

  /** Whether n is coprime to 30 depends only on n modulo 30. */
  lemma CoprimeTo30Mod(n: int)
    ensures CoprimeTo30(n) <==> CoprimeTo30(n % BYTE_MODULO)
  {
    CoprimeTo30Shift(n % BYTE_MODULO, n / BYTE_MODULO);
  }

  /** Gap t leads from BYTE_RESIDUES[t] to the next residue, passing only multiples of 2, 3 or 5. */
  lemma ResidueGapsFacts()
    ensures forall t :: 0 <= t < BYTE_SIZE ==>
      (BYTE_RESIDUES[t] + RESIDUE_GAPS[t]) % BYTE_MODULO == BYTE_RESIDUES[(t + 1) % BYTE_SIZE]
    ensures forall t, j :: 0 <= t < BYTE_SIZE && BYTE_RESIDUES[t] < j < BYTE_RESIDUES[t] + RESIDUE_GAPS[t] ==>
      !CoprimeTo30(j)
  {}

  /** Gap t leads from BYTE_RESIDUES[t] to the next residue; the last gap wraps to 1 in the next span. */
  lemma ResidueGapsSteps()
    ensures forall t :: 0 <= t < BYTE_SIZE - 1 ==> BYTE_RESIDUES[t] + RESIDUE_GAPS[t] == BYTE_RESIDUES[t + 1]
    ensures BYTE_RESIDUES[BYTE_SIZE - 1] + RESIDUE_GAPS[BYTE_SIZE - 1] == BYTE_MODULO + BYTE_RESIDUES[0]
  {}
}
