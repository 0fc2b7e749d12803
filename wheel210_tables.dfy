// The constant tables of wheel210.rs: the spoke of each residue modulo 30
// (lines 56-62), the two period constants (lines 63-65), the 48 residues
// coprime to 210 (lines 67-72), the cursor initialisation table (lines
// 73-127) and the transition table (lines 129-241), with their content as
// literals and the facts about them that the verifier checks by evaluation.
//
// The three long tables are functions of the index, each a `match` on it:
// the verifier can evaluate every entry of a `match`, while it cannot reach
// far into one long sequence display. INIT is split by the residue's block of
// 30 and WHEEL by spoke, so that no entry sits deep in a chain of cases.

module Wheel210Tables {
  import opened Wheel

  /** Representable residues in one period of the position mapping. */
  const SIZE: nat := 48

  /** The period of the position mapping: 2 * 3 * 5 * 7. */
  const MODULO: nat := 210

  /** The states of the transition table: eight spokes of SIZE states. */
  const WHEEL_LENGTH: nat := 8 * SIZE

  predicate CoprimeTo210(n: int) {
    n % 2 != 0 && n % 3 != 0 && n % 5 != 0 && n % 7 != 0
  }

  /** The spoke of the transition table that serves a prime, by the prime's residue modulo 30. */
  const WHEEL_OFFSETS: seq<nat> :=
    [0, 0, 0, 0, 0, 0]
    + [0, 1, 0, 0, 0, 2]
    + [0, 3, 0, 0, 0, 4]
    + [0, 5, 0, 0, 0, 6]
    + [0, 0, 0, 0, 0, 7]

  /** TRUE_AT_BIT: the residues coprime to 210, in ascending order. */
  function TrueAtBit(b: nat): (r: nat)
    requires b < SIZE
    ensures 1 <= r < MODULO && CoprimeTo210(r)
  {
    match b
    case 0 => 1 case 1 => 11 case 2 => 13 case 3 => 17 case 4 => 19 case 5 => 23 case 6 => 29 case 7 => 31
    case 8 => 37 case 9 => 41 case 10 => 43 case 11 => 47 case 12 => 53 case 13 => 59 case 14 => 61 case 15 => 67
    case 16 => 71 case 17 => 73 case 18 => 79 case 19 => 83 case 20 => 89 case 21 => 97 case 22 => 101 case 23 => 103
    case 24 => 107 case 25 => 109 case 26 => 113 case 27 => 121 case 28 => 127 case 29 => 131 case 30 => 137 case 31 => 139
    case 32 => 143 case 33 => 149 case 34 => 151 case 35 => 157 case 36 => 163 case 37 => 167 case 38 => 169 case 39 => 173
    case 40 => 179 case 41 => 181 case 42 => 187 case 43 => 191 case 44 => 193 case 45 => 197 case 46 => 199 case _ => 209
  }

  /**
    * INIT: for each residue r modulo 210, how far r is below the next residue
    * coprime to 210, and that residue's index in TRUE_AT_BIT.
    */
  function InitTable(r: nat): (e: WheelInit)
    requires r < MODULO
    ensures e.wheelIndex < SIZE && e.nextMultFactor < 10
  {
    var j := r % BYTE_MODULO;
    match r / BYTE_MODULO
    case 0 => (
      match j
      case 0 => WheelInit(1, 0) case 1 => WheelInit(0, 0) case 2 => WheelInit(9, 1) case 3 => WheelInit(8, 1)
      case 4 => WheelInit(7, 1) case 5 => WheelInit(6, 1) case 6 => WheelInit(5, 1) case 7 => WheelInit(4, 1)
      case 8 => WheelInit(3, 1) case 9 => WheelInit(2, 1) case 10 => WheelInit(1, 1) case 11 => WheelInit(0, 1)
      case 12 => WheelInit(1, 2) case 13 => WheelInit(0, 2) case 14 => WheelInit(3, 3) case 15 => WheelInit(2, 3)
      case 16 => WheelInit(1, 3) case 17 => WheelInit(0, 3) case 18 => WheelInit(1, 4) case 19 => WheelInit(0, 4)
      case 20 => WheelInit(3, 5) case 21 => WheelInit(2, 5) case 22 => WheelInit(1, 5) case 23 => WheelInit(0, 5)
      case 24 => WheelInit(5, 6) case 25 => WheelInit(4, 6) case 26 => WheelInit(3, 6) case 27 => WheelInit(2, 6)
      case 28 => WheelInit(1, 6) case _ => WheelInit(0, 6))
    case 1 => (
      match j
      case 0 => WheelInit(1, 7) case 1 => WheelInit(0, 7) case 2 => WheelInit(5, 8) case 3 => WheelInit(4, 8)
      case 4 => WheelInit(3, 8) case 5 => WheelInit(2, 8) case 6 => WheelInit(1, 8) case 7 => WheelInit(0, 8)
      case 8 => WheelInit(3, 9) case 9 => WheelInit(2, 9) case 10 => WheelInit(1, 9) case 11 => WheelInit(0, 9)
      case 12 => WheelInit(1, 10) case 13 => WheelInit(0, 10) case 14 => WheelInit(3, 11) case 15 => WheelInit(2, 11)
      case 16 => WheelInit(1, 11) case 17 => WheelInit(0, 11) case 18 => WheelInit(5, 12) case 19 => WheelInit(4, 12)
      case 20 => WheelInit(3, 12) case 21 => WheelInit(2, 12) case 22 => WheelInit(1, 12) case 23 => WheelInit(0, 12)
      case 24 => WheelInit(5, 13) case 25 => WheelInit(4, 13) case 26 => WheelInit(3, 13) case 27 => WheelInit(2, 13)
      case 28 => WheelInit(1, 13) case _ => WheelInit(0, 13))
    case 2 => (
      match j
      case 0 => WheelInit(1, 14) case 1 => WheelInit(0, 14) case 2 => WheelInit(5, 15) case 3 => WheelInit(4, 15)
      case 4 => WheelInit(3, 15) case 5 => WheelInit(2, 15) case 6 => WheelInit(1, 15) case 7 => WheelInit(0, 15)
      case 8 => WheelInit(3, 16) case 9 => WheelInit(2, 16) case 10 => WheelInit(1, 16) case 11 => WheelInit(0, 16)
      case 12 => WheelInit(1, 17) case 13 => WheelInit(0, 17) case 14 => WheelInit(5, 18) case 15 => WheelInit(4, 18)
      case 16 => WheelInit(3, 18) case 17 => WheelInit(2, 18) case 18 => WheelInit(1, 18) case 19 => WheelInit(0, 18)
      case 20 => WheelInit(3, 19) case 21 => WheelInit(2, 19) case 22 => WheelInit(1, 19) case 23 => WheelInit(0, 19)
      case 24 => WheelInit(5, 20) case 25 => WheelInit(4, 20) case 26 => WheelInit(3, 20) case 27 => WheelInit(2, 20)
      case 28 => WheelInit(1, 20) case _ => WheelInit(0, 20))
    case 3 => (
      match j
      case 0 => WheelInit(7, 21) case 1 => WheelInit(6, 21) case 2 => WheelInit(5, 21) case 3 => WheelInit(4, 21)
      case 4 => WheelInit(3, 21) case 5 => WheelInit(2, 21) case 6 => WheelInit(1, 21) case 7 => WheelInit(0, 21)
      case 8 => WheelInit(3, 22) case 9 => WheelInit(2, 22) case 10 => WheelInit(1, 22) case 11 => WheelInit(0, 22)
      case 12 => WheelInit(1, 23) case 13 => WheelInit(0, 23) case 14 => WheelInit(3, 24) case 15 => WheelInit(2, 24)
      case 16 => WheelInit(1, 24) case 17 => WheelInit(0, 24) case 18 => WheelInit(1, 25) case 19 => WheelInit(0, 25)
      case 20 => WheelInit(3, 26) case 21 => WheelInit(2, 26) case 22 => WheelInit(1, 26) case 23 => WheelInit(0, 26)
      case 24 => WheelInit(7, 27) case 25 => WheelInit(6, 27) case 26 => WheelInit(5, 27) case 27 => WheelInit(4, 27)
      case 28 => WheelInit(3, 27) case _ => WheelInit(2, 27))
    case 4 => (
      match j
      case 0 => WheelInit(1, 27) case 1 => WheelInit(0, 27) case 2 => WheelInit(5, 28) case 3 => WheelInit(4, 28)
      case 4 => WheelInit(3, 28) case 5 => WheelInit(2, 28) case 6 => WheelInit(1, 28) case 7 => WheelInit(0, 28)
      case 8 => WheelInit(3, 29) case 9 => WheelInit(2, 29) case 10 => WheelInit(1, 29) case 11 => WheelInit(0, 29)
      case 12 => WheelInit(5, 30) case 13 => WheelInit(4, 30) case 14 => WheelInit(3, 30) case 15 => WheelInit(2, 30)
      case 16 => WheelInit(1, 30) case 17 => WheelInit(0, 30) case 18 => WheelInit(1, 31) case 19 => WheelInit(0, 31)
      case 20 => WheelInit(3, 32) case 21 => WheelInit(2, 32) case 22 => WheelInit(1, 32) case 23 => WheelInit(0, 32)
      case 24 => WheelInit(5, 33) case 25 => WheelInit(4, 33) case 26 => WheelInit(3, 33) case 27 => WheelInit(2, 33)
      case 28 => WheelInit(1, 33) case _ => WheelInit(0, 33))
    case 5 => (
      match j
      case 0 => WheelInit(1, 34) case 1 => WheelInit(0, 34) case 2 => WheelInit(5, 35) case 3 => WheelInit(4, 35)
      case 4 => WheelInit(3, 35) case 5 => WheelInit(2, 35) case 6 => WheelInit(1, 35) case 7 => WheelInit(0, 35)
      case 8 => WheelInit(5, 36) case 9 => WheelInit(4, 36) case 10 => WheelInit(3, 36) case 11 => WheelInit(2, 36)
      case 12 => WheelInit(1, 36) case 13 => WheelInit(0, 36) case 14 => WheelInit(3, 37) case 15 => WheelInit(2, 37)
      case 16 => WheelInit(1, 37) case 17 => WheelInit(0, 37) case 18 => WheelInit(1, 38) case 19 => WheelInit(0, 38)
      case 20 => WheelInit(3, 39) case 21 => WheelInit(2, 39) case 22 => WheelInit(1, 39) case 23 => WheelInit(0, 39)
      case 24 => WheelInit(5, 40) case 25 => WheelInit(4, 40) case 26 => WheelInit(3, 40) case 27 => WheelInit(2, 40)
      case 28 => WheelInit(1, 40) case _ => WheelInit(0, 40))
    case _ => (
      match j
      case 0 => WheelInit(1, 41) case 1 => WheelInit(0, 41) case 2 => WheelInit(5, 42) case 3 => WheelInit(4, 42)
      case 4 => WheelInit(3, 42) case 5 => WheelInit(2, 42) case 6 => WheelInit(1, 42) case 7 => WheelInit(0, 42)
      case 8 => WheelInit(3, 43) case 9 => WheelInit(2, 43) case 10 => WheelInit(1, 43) case 11 => WheelInit(0, 43)
      case 12 => WheelInit(1, 44) case 13 => WheelInit(0, 44) case 14 => WheelInit(3, 45) case 15 => WheelInit(2, 45)
      case 16 => WheelInit(1, 45) case 17 => WheelInit(0, 45) case 18 => WheelInit(1, 46) case 19 => WheelInit(0, 46)
      case 20 => WheelInit(9, 47) case 21 => WheelInit(8, 47) case 22 => WheelInit(7, 47) case 23 => WheelInit(6, 47)
      case 24 => WheelInit(5, 47) case 25 => WheelInit(4, 47) case 26 => WheelInit(3, 47) case 27 => WheelInit(2, 47)
      case 28 => WheelInit(1, 47) case _ => WheelInit(0, 47))
  }

  /**
    * WHEEL: the transition table, eight spokes of SIZE states in the order of
    * BYTE_RESIDUES; state j of the spoke for residue r is `Remainder<r>(j)`.
    */
  function WheelTable(i: nat): (e: WheelElem)
    requires i < WHEEL_LENGTH
    ensures e.bit < BYTE_SIZE && e.next == SpokeStep(i % SIZE)
  {
    var j := i % SIZE;
    match i / SIZE
    case 0 => Remainder1(j)
    case 1 => Remainder7(j)
    case 2 => Remainder11(j)
    case 3 => Remainder13(j)
    case 4 => Remainder17(j)
    case 5 => Remainder19(j)
    case 6 => Remainder23(j)
    case _ => Remainder29(j)
  }

  function Remainder1(j: nat): (e: WheelElem)
    requires j < SIZE
    ensures e.bit < BYTE_SIZE && e.next == SpokeStep(j)
  {
    match j
    case 0 => WheelElem(0, 6, 0, 1) case 1 => WheelElem(1, 4, 0, 1) case 2 => WheelElem(2, 2, 0, 1) case 3 => WheelElem(3, 4, 0, 1)
    case 4 => WheelElem(4, 2, 0, 1) case 5 => WheelElem(5, 4, 0, 1) case 6 => WheelElem(6, 6, 0, 1) case 7 => WheelElem(7, 2, 1, 1)
    case 8 => WheelElem(0, 6, 0, 1) case 9 => WheelElem(1, 4, 0, 1) case 10 => WheelElem(2, 2, 0, 1) case 11 => WheelElem(3, 4, 0, 1)
    case 12 => WheelElem(4, 2, 0, 1) case 13 => WheelElem(5, 4, 0, 1) case 14 => WheelElem(6, 6, 0, 1) case 15 => WheelElem(7, 2, 1, 1)
    case 16 => WheelElem(0, 6, 0, 1) case 17 => WheelElem(1, 4, 0, 1) case 18 => WheelElem(2, 2, 0, 1) case 19 => WheelElem(3, 4, 0, 1)
    case 20 => WheelElem(4, 2, 0, 1) case 21 => WheelElem(5, 4, 0, 1) case 22 => WheelElem(6, 6, 0, 1) case 23 => WheelElem(7, 2, 1, 1)
    case 24 => WheelElem(0, 6, 0, 1) case 25 => WheelElem(1, 4, 0, 1) case 26 => WheelElem(2, 2, 0, 1) case 27 => WheelElem(3, 4, 0, 1)
    case 28 => WheelElem(4, 2, 0, 1) case 29 => WheelElem(5, 4, 0, 1) case 30 => WheelElem(6, 6, 0, 1) case 31 => WheelElem(7, 2, 1, 1)
    case 32 => WheelElem(0, 6, 0, 1) case 33 => WheelElem(1, 4, 0, 1) case 34 => WheelElem(2, 2, 0, 1) case 35 => WheelElem(3, 4, 0, 1)
    case 36 => WheelElem(4, 2, 0, 1) case 37 => WheelElem(5, 4, 0, 1) case 38 => WheelElem(6, 6, 0, 1) case 39 => WheelElem(7, 2, 1, 1)
    case 40 => WheelElem(0, 6, 0, 1) case 41 => WheelElem(1, 4, 0, 1) case 42 => WheelElem(2, 2, 0, 1) case 43 => WheelElem(3, 4, 0, 1)
    case 44 => WheelElem(4, 2, 0, 1) case 45 => WheelElem(5, 4, 0, 1) case 46 => WheelElem(6, 6, 0, 1) case _ => WheelElem(7, 2, 1, -47)
  }

  function Remainder7(j: nat): (e: WheelElem)
    requires j < SIZE
    ensures e.bit < BYTE_SIZE && e.next == SpokeStep(j)
  {
    match j
    case 0 => WheelElem(5, 4, 1, 1) case 1 => WheelElem(4, 2, 1, 1) case 2 => WheelElem(0, 4, 0, 1) case 3 => WheelElem(7, 2, 1, 1)
    case 4 => WheelElem(3, 4, 1, 1) case 5 => WheelElem(2, 6, 1, 1) case 6 => WheelElem(6, 2, 1, 1) case 7 => WheelElem(1, 6, 1, 1)
    case 8 => WheelElem(5, 4, 1, 1) case 9 => WheelElem(4, 2, 1, 1) case 10 => WheelElem(0, 4, 0, 1) case 11 => WheelElem(7, 2, 1, 1)
    case 12 => WheelElem(3, 4, 1, 1) case 13 => WheelElem(2, 6, 1, 1) case 14 => WheelElem(6, 2, 1, 1) case 15 => WheelElem(1, 6, 1, 1)
    case 16 => WheelElem(5, 4, 1, 1) case 17 => WheelElem(4, 2, 1, 1) case 18 => WheelElem(0, 4, 0, 1) case 19 => WheelElem(7, 2, 1, 1)
    case 20 => WheelElem(3, 4, 1, 1) case 21 => WheelElem(2, 6, 1, 1) case 22 => WheelElem(6, 2, 1, 1) case 23 => WheelElem(1, 6, 1, 1)
    case 24 => WheelElem(5, 4, 1, 1) case 25 => WheelElem(4, 2, 1, 1) case 26 => WheelElem(0, 4, 0, 1) case 27 => WheelElem(7, 2, 1, 1)
    case 28 => WheelElem(3, 4, 1, 1) case 29 => WheelElem(2, 6, 1, 1) case 30 => WheelElem(6, 2, 1, 1) case 31 => WheelElem(1, 6, 1, 1)
    case 32 => WheelElem(5, 4, 1, 1) case 33 => WheelElem(4, 2, 1, 1) case 34 => WheelElem(0, 4, 0, 1) case 35 => WheelElem(7, 2, 1, 1)
    case 36 => WheelElem(3, 4, 1, 1) case 37 => WheelElem(2, 6, 1, 1) case 38 => WheelElem(6, 2, 1, 1) case 39 => WheelElem(1, 6, 1, 1)
    case 40 => WheelElem(5, 4, 1, 1) case 41 => WheelElem(4, 2, 1, 1) case 42 => WheelElem(0, 4, 0, 1) case 43 => WheelElem(7, 2, 1, 1)
    case 44 => WheelElem(3, 4, 1, 1) case 45 => WheelElem(2, 6, 1, 1) case 46 => WheelElem(6, 2, 1, 1) case _ => WheelElem(1, 6, 1, -47)
  }

  function Remainder11(j: nat): (e: WheelElem)
    requires j < SIZE
    ensures e.bit < BYTE_SIZE && e.next == SpokeStep(j)
  {
    match j
    case 0 => WheelElem(0, 2, 0, 1) case 1 => WheelElem(6, 4, 2, 1) case 2 => WheelElem(1, 2, 0, 1) case 3 => WheelElem(7, 4, 2, 1)
    case 4 => WheelElem(3, 6, 2, 1) case 5 => WheelElem(5, 2, 1, 1) case 6 => WheelElem(2, 6, 2, 1) case 7 => WheelElem(4, 4, 2, 1)
    case 8 => WheelElem(0, 2, 0, 1) case 9 => WheelElem(6, 4, 2, 1) case 10 => WheelElem(1, 2, 0, 1) case 11 => WheelElem(7, 4, 2, 1)
    case 12 => WheelElem(3, 6, 2, 1) case 13 => WheelElem(5, 2, 1, 1) case 14 => WheelElem(2, 6, 2, 1) case 15 => WheelElem(4, 4, 2, 1)
    case 16 => WheelElem(0, 2, 0, 1) case 17 => WheelElem(6, 4, 2, 1) case 18 => WheelElem(1, 2, 0, 1) case 19 => WheelElem(7, 4, 2, 1)
    case 20 => WheelElem(3, 6, 2, 1) case 21 => WheelElem(5, 2, 1, 1) case 22 => WheelElem(2, 6, 2, 1) case 23 => WheelElem(4, 4, 2, 1)
    case 24 => WheelElem(0, 2, 0, 1) case 25 => WheelElem(6, 4, 2, 1) case 26 => WheelElem(1, 2, 0, 1) case 27 => WheelElem(7, 4, 2, 1)
    case 28 => WheelElem(3, 6, 2, 1) case 29 => WheelElem(5, 2, 1, 1) case 30 => WheelElem(2, 6, 2, 1) case 31 => WheelElem(4, 4, 2, 1)
    case 32 => WheelElem(0, 2, 0, 1) case 33 => WheelElem(6, 4, 2, 1) case 34 => WheelElem(1, 2, 0, 1) case 35 => WheelElem(7, 4, 2, 1)
    case 36 => WheelElem(3, 6, 2, 1) case 37 => WheelElem(5, 2, 1, 1) case 38 => WheelElem(2, 6, 2, 1) case 39 => WheelElem(4, 4, 2, 1)
    case 40 => WheelElem(0, 2, 0, 1) case 41 => WheelElem(6, 4, 2, 1) case 42 => WheelElem(1, 2, 0, 1) case 43 => WheelElem(7, 4, 2, 1)
    case 44 => WheelElem(3, 6, 2, 1) case 45 => WheelElem(5, 2, 1, 1) case 46 => WheelElem(2, 6, 2, 1) case _ => WheelElem(4, 4, 2, -47)
  }

  function Remainder13(j: nat): (e: WheelElem)
    requires j < SIZE
    ensures e.bit < BYTE_SIZE && e.next == SpokeStep(j)
  {
    match j
    case 0 => WheelElem(5, 4, 2, 1) case 1 => WheelElem(2, 2, 1, 1) case 2 => WheelElem(1, 4, 1, 1) case 3 => WheelElem(7, 6, 3, 1)
    case 4 => WheelElem(4, 2, 1, 1) case 5 => WheelElem(3, 6, 3, 1) case 6 => WheelElem(0, 4, 1, 1) case 7 => WheelElem(6, 2, 1, 1)
    case 8 => WheelElem(5, 4, 2, 1) case 9 => WheelElem(2, 2, 1, 1) case 10 => WheelElem(1, 4, 1, 1) case 11 => WheelElem(7, 6, 3, 1)
    case 12 => WheelElem(4, 2, 1, 1) case 13 => WheelElem(3, 6, 3, 1) case 14 => WheelElem(0, 4, 1, 1) case 15 => WheelElem(6, 2, 1, 1)
    case 16 => WheelElem(5, 4, 2, 1) case 17 => WheelElem(2, 2, 1, 1) case 18 => WheelElem(1, 4, 1, 1) case 19 => WheelElem(7, 6, 3, 1)
    case 20 => WheelElem(4, 2, 1, 1) case 21 => WheelElem(3, 6, 3, 1) case 22 => WheelElem(0, 4, 1, 1) case 23 => WheelElem(6, 2, 1, 1)
    case 24 => WheelElem(5, 4, 2, 1) case 25 => WheelElem(2, 2, 1, 1) case 26 => WheelElem(1, 4, 1, 1) case 27 => WheelElem(7, 6, 3, 1)
    case 28 => WheelElem(4, 2, 1, 1) case 29 => WheelElem(3, 6, 3, 1) case 30 => WheelElem(0, 4, 1, 1) case 31 => WheelElem(6, 2, 1, 1)
    case 32 => WheelElem(5, 4, 2, 1) case 33 => WheelElem(2, 2, 1, 1) case 34 => WheelElem(1, 4, 1, 1) case 35 => WheelElem(7, 6, 3, 1)
    case 36 => WheelElem(4, 2, 1, 1) case 37 => WheelElem(3, 6, 3, 1) case 38 => WheelElem(0, 4, 1, 1) case 39 => WheelElem(6, 2, 1, 1)
    case 40 => WheelElem(5, 4, 2, 1) case 41 => WheelElem(2, 2, 1, 1) case 42 => WheelElem(1, 4, 1, 1) case 43 => WheelElem(7, 6, 3, 1)
    case 44 => WheelElem(4, 2, 1, 1) case 45 => WheelElem(3, 6, 3, 1) case 46 => WheelElem(0, 4, 1, 1) case _ => WheelElem(6, 2, 1, -47)
  }

  function Remainder17(j: nat): (e: WheelElem)
    requires j < SIZE
    ensures e.bit < BYTE_SIZE && e.next == SpokeStep(j)
  {
    match j
    case 0 => WheelElem(5, 2, 1, 1) case 1 => WheelElem(6, 4, 3, 1) case 2 => WheelElem(0, 6, 3, 1) case 3 => WheelElem(3, 2, 1, 1)
    case 4 => WheelElem(4, 6, 3, 1) case 5 => WheelElem(7, 4, 3, 1) case 6 => WheelElem(1, 2, 1, 1) case 7 => WheelElem(2, 4, 2, 1)
    case 8 => WheelElem(5, 2, 1, 1) case 9 => WheelElem(6, 4, 3, 1) case 10 => WheelElem(0, 6, 3, 1) case 11 => WheelElem(3, 2, 1, 1)
    case 12 => WheelElem(4, 6, 3, 1) case 13 => WheelElem(7, 4, 3, 1) case 14 => WheelElem(1, 2, 1, 1) case 15 => WheelElem(2, 4, 2, 1)
    case 16 => WheelElem(5, 2, 1, 1) case 17 => WheelElem(6, 4, 3, 1) case 18 => WheelElem(0, 6, 3, 1) case 19 => WheelElem(3, 2, 1, 1)
    case 20 => WheelElem(4, 6, 3, 1) case 21 => WheelElem(7, 4, 3, 1) case 22 => WheelElem(1, 2, 1, 1) case 23 => WheelElem(2, 4, 2, 1)
    case 24 => WheelElem(5, 2, 1, 1) case 25 => WheelElem(6, 4, 3, 1) case 26 => WheelElem(0, 6, 3, 1) case 27 => WheelElem(3, 2, 1, 1)
    case 28 => WheelElem(4, 6, 3, 1) case 29 => WheelElem(7, 4, 3, 1) case 30 => WheelElem(1, 2, 1, 1) case 31 => WheelElem(2, 4, 2, 1)
    case 32 => WheelElem(5, 2, 1, 1) case 33 => WheelElem(6, 4, 3, 1) case 34 => WheelElem(0, 6, 3, 1) case 35 => WheelElem(3, 2, 1, 1)
    case 36 => WheelElem(4, 6, 3, 1) case 37 => WheelElem(7, 4, 3, 1) case 38 => WheelElem(1, 2, 1, 1) case 39 => WheelElem(2, 4, 2, 1)
    case 40 => WheelElem(5, 2, 1, 1) case 41 => WheelElem(6, 4, 3, 1) case 42 => WheelElem(0, 6, 3, 1) case 43 => WheelElem(3, 2, 1, 1)
    case 44 => WheelElem(4, 6, 3, 1) case 45 => WheelElem(7, 4, 3, 1) case 46 => WheelElem(1, 2, 1, 1) case _ => WheelElem(2, 4, 2, -47)
  }

  function Remainder19(j: nat): (e: WheelElem)
    requires j < SIZE
    ensures e.bit < BYTE_SIZE && e.next == SpokeStep(j)
  {
    match j
    case 0 => WheelElem(0, 4, 2, 1) case 1 => WheelElem(4, 6, 4, 1) case 2 => WheelElem(2, 2, 1, 1) case 3 => WheelElem(5, 6, 4, 1)
    case 4 => WheelElem(3, 4, 2, 1) case 5 => WheelElem(7, 2, 2, 1) case 6 => WheelElem(1, 4, 2, 1) case 7 => WheelElem(6, 2, 2, 1)
    case 8 => WheelElem(0, 4, 2, 1) case 9 => WheelElem(4, 6, 4, 1) case 10 => WheelElem(2, 2, 1, 1) case 11 => WheelElem(5, 6, 4, 1)
    case 12 => WheelElem(3, 4, 2, 1) case 13 => WheelElem(7, 2, 2, 1) case 14 => WheelElem(1, 4, 2, 1) case 15 => WheelElem(6, 2, 2, 1)
    case 16 => WheelElem(0, 4, 2, 1) case 17 => WheelElem(4, 6, 4, 1) case 18 => WheelElem(2, 2, 1, 1) case 19 => WheelElem(5, 6, 4, 1)
    case 20 => WheelElem(3, 4, 2, 1) case 21 => WheelElem(7, 2, 2, 1) case 22 => WheelElem(1, 4, 2, 1) case 23 => WheelElem(6, 2, 2, 1)
    case 24 => WheelElem(0, 4, 2, 1) case 25 => WheelElem(4, 6, 4, 1) case 26 => WheelElem(2, 2, 1, 1) case 27 => WheelElem(5, 6, 4, 1)
    case 28 => WheelElem(3, 4, 2, 1) case 29 => WheelElem(7, 2, 2, 1) case 30 => WheelElem(1, 4, 2, 1) case 31 => WheelElem(6, 2, 2, 1)
    case 32 => WheelElem(0, 4, 2, 1) case 33 => WheelElem(4, 6, 4, 1) case 34 => WheelElem(2, 2, 1, 1) case 35 => WheelElem(5, 6, 4, 1)
    case 36 => WheelElem(3, 4, 2, 1) case 37 => WheelElem(7, 2, 2, 1) case 38 => WheelElem(1, 4, 2, 1) case 39 => WheelElem(6, 2, 2, 1)
    case 40 => WheelElem(0, 4, 2, 1) case 41 => WheelElem(4, 6, 4, 1) case 42 => WheelElem(2, 2, 1, 1) case 43 => WheelElem(5, 6, 4, 1)
    case 44 => WheelElem(3, 4, 2, 1) case 45 => WheelElem(7, 2, 2, 1) case 46 => WheelElem(1, 4, 2, 1) case _ => WheelElem(6, 2, 2, -47)
  }

  function Remainder23(j: nat): (e: WheelElem)
    requires j < SIZE
    ensures e.bit < BYTE_SIZE && e.next == SpokeStep(j)
  {
    match j
    case 0 => WheelElem(5, 6, 5, 1) case 1 => WheelElem(1, 2, 1, 1) case 2 => WheelElem(6, 6, 5, 1) case 3 => WheelElem(2, 4, 3, 1)
    case 4 => WheelElem(3, 2, 1, 1) case 5 => WheelElem(7, 4, 4, 1) case 6 => WheelElem(0, 2, 1, 1) case 7 => WheelElem(4, 4, 3, 1)
    case 8 => WheelElem(5, 6, 5, 1) case 9 => WheelElem(1, 2, 1, 1) case 10 => WheelElem(6, 6, 5, 1) case 11 => WheelElem(2, 4, 3, 1)
    case 12 => WheelElem(3, 2, 1, 1) case 13 => WheelElem(7, 4, 4, 1) case 14 => WheelElem(0, 2, 1, 1) case 15 => WheelElem(4, 4, 3, 1)
    case 16 => WheelElem(5, 6, 5, 1) case 17 => WheelElem(1, 2, 1, 1) case 18 => WheelElem(6, 6, 5, 1) case 19 => WheelElem(2, 4, 3, 1)
    case 20 => WheelElem(3, 2, 1, 1) case 21 => WheelElem(7, 4, 4, 1) case 22 => WheelElem(0, 2, 1, 1) case 23 => WheelElem(4, 4, 3, 1)
    case 24 => WheelElem(5, 6, 5, 1) case 25 => WheelElem(1, 2, 1, 1) case 26 => WheelElem(6, 6, 5, 1) case 27 => WheelElem(2, 4, 3, 1)
    case 28 => WheelElem(3, 2, 1, 1) case 29 => WheelElem(7, 4, 4, 1) case 30 => WheelElem(0, 2, 1, 1) case 31 => WheelElem(4, 4, 3, 1)
    case 32 => WheelElem(5, 6, 5, 1) case 33 => WheelElem(1, 2, 1, 1) case 34 => WheelElem(6, 6, 5, 1) case 35 => WheelElem(2, 4, 3, 1)
    case 36 => WheelElem(3, 2, 1, 1) case 37 => WheelElem(7, 4, 4, 1) case 38 => WheelElem(0, 2, 1, 1) case 39 => WheelElem(4, 4, 3, 1)
    case 40 => WheelElem(5, 6, 5, 1) case 41 => WheelElem(1, 2, 1, 1) case 42 => WheelElem(6, 6, 5, 1) case 43 => WheelElem(2, 4, 3, 1)
    case 44 => WheelElem(3, 2, 1, 1) case 45 => WheelElem(7, 4, 4, 1) case 46 => WheelElem(0, 2, 1, 1) case _ => WheelElem(4, 4, 3, -47)
  }

  function Remainder29(j: nat): (e: WheelElem)
    requires j < SIZE
    ensures e.bit < BYTE_SIZE && e.next == SpokeStep(j)
  {
    match j
    case 0 => WheelElem(0, 2, 1, 1) case 1 => WheelElem(7, 6, 6, 1) case 2 => WheelElem(6, 4, 4, 1) case 3 => WheelElem(5, 2, 2, 1)
    case 4 => WheelElem(4, 4, 4, 1) case 5 => WheelElem(3, 2, 2, 1) case 6 => WheelElem(2, 4, 4, 1) case 7 => WheelElem(1, 6, 6, 1)
    case 8 => WheelElem(0, 2, 1, 1) case 9 => WheelElem(7, 6, 6, 1) case 10 => WheelElem(6, 4, 4, 1) case 11 => WheelElem(5, 2, 2, 1)
    case 12 => WheelElem(4, 4, 4, 1) case 13 => WheelElem(3, 2, 2, 1) case 14 => WheelElem(2, 4, 4, 1) case 15 => WheelElem(1, 6, 6, 1)
    case 16 => WheelElem(0, 2, 1, 1) case 17 => WheelElem(7, 6, 6, 1) case 18 => WheelElem(6, 4, 4, 1) case 19 => WheelElem(5, 2, 2, 1)
    case 20 => WheelElem(4, 4, 4, 1) case 21 => WheelElem(3, 2, 2, 1) case 22 => WheelElem(2, 4, 4, 1) case 23 => WheelElem(1, 6, 6, 1)
    case 24 => WheelElem(0, 2, 1, 1) case 25 => WheelElem(7, 6, 6, 1) case 26 => WheelElem(6, 4, 4, 1) case 27 => WheelElem(5, 2, 2, 1)
    case 28 => WheelElem(4, 4, 4, 1) case 29 => WheelElem(3, 2, 2, 1) case 30 => WheelElem(2, 4, 4, 1) case 31 => WheelElem(1, 6, 6, 1)
    case 32 => WheelElem(0, 2, 1, 1) case 33 => WheelElem(7, 6, 6, 1) case 34 => WheelElem(6, 4, 4, 1) case 35 => WheelElem(5, 2, 2, 1)
    case 36 => WheelElem(4, 4, 4, 1) case 37 => WheelElem(3, 2, 2, 1) case 38 => WheelElem(2, 4, 4, 1) case 39 => WheelElem(1, 6, 6, 1)
    case 40 => WheelElem(0, 2, 1, 1) case 41 => WheelElem(7, 6, 6, 1) case 42 => WheelElem(6, 4, 4, 1) case 43 => WheelElem(5, 2, 2, 1)
    case 44 => WheelElem(4, 4, 4, 1) case 45 => WheelElem(3, 2, 2, 1) case 46 => WheelElem(2, 4, 4, 1) case _ => WheelElem(1, 6, 6, -47)
  }

  // Facts about the tables, checked by evaluating them entry by entry.

  /** Coprimality to 210 depends only on the residue modulo 210. */
  lemma CoprimeTo210Mod(n: int)
    ensures CoprimeTo210(n) <==> CoprimeTo210(n % MODULO)
  {
    var q, m := n / MODULO, n % MODULO;
    ShiftModulo2(m, 105 * q);
    ShiftModulo3(m, 70 * q);
    ShiftModulo5(m, 42 * q);
    ShiftModulo7(m, 30 * q);
  }

  lemma WheelOffsetsBounds()
    ensures |WHEEL_OFFSETS| == BYTE_MODULO
    ensures forall r :: 0 <= r < BYTE_MODULO ==> WHEEL_OFFSETS[r] < BYTE_SIZE
  {}

  /** A residue coprime to 30 is served by the spoke of that residue. */
  lemma WheelOffsetsSpokes()
    ensures forall r :: 0 <= r < BYTE_MODULO && CoprimeTo30(r) ==>
      WHEEL_OFFSETS[r] < BYTE_SIZE && BYTE_RESIDUES[WHEEL_OFFSETS[r]] == r
  {}

  /** Every residue with a factor 2, 3 or 5 is sent to spoke 0. */
  lemma WheelOffsetsOthers()
    ensures forall r :: 0 <= r < BYTE_MODULO && !CoprimeTo30(r) ==> WHEEL_OFFSETS[r] == 0
  {}

  lemma TrueAtBitAscending()
    ensures forall b :: 0 <= b < SIZE - 1 ==> TrueAtBit(b) < TrueAtBit(b + 1)
  {}

  /**
    * What one entry of INIT must satisfy: a residue coprime to 210 has factor
    * 0; a factor of 0 names the residue itself in TRUE_AT_BIT; a positive factor
    * is one more than the next entry's, for the same TRUE_AT_BIT index.
    */
  predicate InitEntryHolds(r: nat)
    requires r < MODULO
  {
    var e := InitTable(r);
    e.wheelIndex < SIZE &&
    (CoprimeTo210(r) ==> e.nextMultFactor == 0) &&
    (e.nextMultFactor == 0 ==> TrueAtBit(e.wheelIndex) == r) &&
    (e.nextMultFactor > 0 ==> r + 1 < MODULO && InitTable(r + 1) == WheelInit(e.nextMultFactor - 1, e.wheelIndex))
  }

  lemma InitEntries0To14()
    ensures forall r :: 0 <= r < 15 ==> InitEntryHolds(r)
  {}

  lemma InitEntries15To29()
    ensures forall r :: 15 <= r < 30 ==> InitEntryHolds(r)
  {}

  lemma InitEntries30To59()
    ensures forall r :: 30 <= r < 60 ==> InitEntryHolds(r)
  {}

  lemma InitEntries60To89()
    ensures forall r :: 60 <= r < 90 ==> InitEntryHolds(r)
  {}

  lemma InitEntries90To119()
    ensures forall r :: 90 <= r < 120 ==> InitEntryHolds(r)
  {}

  lemma InitEntries120To149()
    ensures forall r :: 120 <= r < 150 ==> InitEntryHolds(r)
  {}

  lemma InitEntries150To179()
    ensures forall r :: 150 <= r < 180 ==> InitEntryHolds(r)
  {}

  lemma InitEntries180To209()
    ensures forall r :: 180 <= r < 210 ==> InitEntryHolds(r)
  {}

  lemma InitEntry(r: nat)
    requires r < MODULO
    ensures InitEntryHolds(r)
  {
    if r < 15 {
      InitEntries0To14();
    } else if r < 30 {
      InitEntries15To29();
    } else if r < 60 {
      InitEntries30To59();
    } else if r < 90 {
      InitEntries60To89();
    } else if r < 120 {
      InitEntries90To119();
    } else if r < 150 {
      InitEntries120To149();
    } else if r < 180 {
      InitEntries150To179();
    } else {
      InitEntries180To209();
    }
  }

  /** Two transition states that mark the same bit and advance the byte cursor alike. */
  predicate SameStride(a: WheelElem, b: WheelElem) {
    a.bit == b.bit && a.nextMultFactor == b.nextMultFactor && a.correction == b.correction
  }

  /**
    * The stride that state t (modulo 8) of spoke s must hold. The spoke serves
    * primes p == r (mod 30) with r = BYTE_RESIDUES[s], and at its state t the
    * multiplier k of p is BYTE_RESIDUES[u] modulo 30, u = (s + t) % 8. Then p * k
    * is m = r * k (mod 30), which is the state's bit; the next multiplier is
    * k + RESIDUE_GAPS[u], so the byte cursor must advance by that gap times the
    * prime's byte quotient p / 30, plus the carry (m + r * gap) / 30.
    */
  predicate StrideMatches(e: WheelElem, s: nat, t: nat)
    requires s < BYTE_SIZE && t < BYTE_SIZE
  {
    e.bit < BYTE_SIZE && BYTE_RESIDUES[e.bit] == StrideResidue(s, t) &&
    e.nextMultFactor == StrideFactor(s, t) &&
    e.correction == StrideCorrection(s, t)
  }

  /** The residue m modulo 30 of the multiple that state t of a block of spoke s marks. */
  function StrideResidue(s: nat, t: nat): (m: nat)
    requires s < BYTE_SIZE && t < BYTE_SIZE
  {
    BYTE_RESIDUES[s] * BYTE_RESIDUES[(s + t) % BYTE_SIZE] % BYTE_MODULO
  }

  /** The factor of state t of a block of spoke s: the gap to the next multiplier. */
  function StrideFactor(s: nat, t: nat): (g: nat)
    requires s < BYTE_SIZE && t < BYTE_SIZE
  {
    RESIDUE_GAPS[(s + t) % BYTE_SIZE]
  }

  /** The correction of state t of a block of spoke s: the carry of m + r * gap past 30. */
  function StrideCorrection(s: nat, t: nat): (c: nat)
    requires s < BYTE_SIZE && t < BYTE_SIZE
  {
    (StrideResidue(s, t) + BYTE_RESIDUES[s] * StrideFactor(s, t)) / BYTE_MODULO
  }

  /**
    * The factors of block positions t to e - 1 of spoke s, summed; a position
    * past the block counts as its place in the next block.
    */
  function StrideFactors(s: nat, t: nat, e: nat): (f: nat)
    requires s < BYTE_SIZE && t <= e
    decreases e - t
  {
    if t == e then 0 else StrideFactor(s, t % BYTE_SIZE) + StrideFactors(s, t + 1, e)
  }

  /** The corrections of block positions t to e - 1 of spoke s, summed, in the same way. */
  function StrideCorrections(s: nat, t: nat, e: nat): (c: nat)
    requires s < BYTE_SIZE && t <= e
    decreases e - t
  {
    if t == e then 0 else StrideCorrection(s, t % BYTE_SIZE) + StrideCorrections(s, t + 1, e)
  }

  lemma SameStrideMatches(a: WheelElem, b: WheelElem, s: nat, t: nat)
    requires s < BYTE_SIZE && t < BYTE_SIZE
    requires SameStride(a, b) && StrideMatches(b, s, t)
    ensures StrideMatches(a, s, t)
  {}

  /** The step to the next state: one ahead, except from the last state of a spoke back to its first. */
  function SpokeStep(j: nat): (d: int) {
    if j == SIZE - 1 then 1 - SIZE as int else 1
  }

  lemma Remainder1Repeats()
    ensures forall j :: 0 <= j < SIZE - BYTE_SIZE ==> SameStride(Remainder1(j + BYTE_SIZE), Remainder1(j))
  {}

  lemma Remainder1Strides()
    ensures forall t :: 0 <= t < BYTE_SIZE ==> StrideMatches(Remainder1(t), 0, t)
  {}

  lemma Remainder7Repeats()
    ensures forall j :: 0 <= j < SIZE - BYTE_SIZE ==> SameStride(Remainder7(j + BYTE_SIZE), Remainder7(j))
  {}

  lemma Remainder7Strides()
    ensures forall t :: 0 <= t < BYTE_SIZE ==> StrideMatches(Remainder7(t), 1, t)
  {}

  lemma Remainder11Repeats()
    ensures forall j :: 0 <= j < SIZE - BYTE_SIZE ==> SameStride(Remainder11(j + BYTE_SIZE), Remainder11(j))
  {}

  lemma Remainder11Strides()
    ensures forall t :: 0 <= t < BYTE_SIZE ==> StrideMatches(Remainder11(t), 2, t)
  {}

  lemma Remainder13Repeats()
    ensures forall j :: 0 <= j < SIZE - BYTE_SIZE ==> SameStride(Remainder13(j + BYTE_SIZE), Remainder13(j))
  {}

  lemma Remainder13Strides()
    ensures forall t :: 0 <= t < BYTE_SIZE ==> StrideMatches(Remainder13(t), 3, t)
  {}

  lemma Remainder17Repeats()
    ensures forall j :: 0 <= j < SIZE - BYTE_SIZE ==> SameStride(Remainder17(j + BYTE_SIZE), Remainder17(j))
  {}

  lemma Remainder17Strides()
    ensures forall t :: 0 <= t < BYTE_SIZE ==> StrideMatches(Remainder17(t), 4, t)
  {}

  lemma Remainder19Repeats()
    ensures forall j :: 0 <= j < SIZE - BYTE_SIZE ==> SameStride(Remainder19(j + BYTE_SIZE), Remainder19(j))
  {}

  lemma Remainder19Strides()
    ensures forall t :: 0 <= t < BYTE_SIZE ==> StrideMatches(Remainder19(t), 5, t)
  {}

  lemma Remainder23Repeats()
    ensures forall j :: 0 <= j < SIZE - BYTE_SIZE ==> SameStride(Remainder23(j + BYTE_SIZE), Remainder23(j))
  {}

  lemma Remainder23Strides()
    ensures forall t :: 0 <= t < BYTE_SIZE ==> StrideMatches(Remainder23(t), 6, t)
  {}

  lemma Remainder29Repeats()
    ensures forall j :: 0 <= j < SIZE - BYTE_SIZE ==> SameStride(Remainder29(j + BYTE_SIZE), Remainder29(j))
  {}

  lemma Remainder29Strides()
    ensures forall t :: 0 <= t < BYTE_SIZE ==> StrideMatches(Remainder29(t), 7, t)
  {}

  /** State i of WHEEL, checked against the lemmas about its own spoke. */
  lemma WheelTableEntry(i: nat)
    requires i < WHEEL_LENGTH
    ensures WheelTable(i).next == SpokeStep(i % SIZE)
    ensures i % SIZE < BYTE_SIZE ==> StrideMatches(WheelTable(i), i / SIZE, i % SIZE)
    ensures i % SIZE >= BYTE_SIZE ==> SameStride(WheelTable(i), WheelTable(i - BYTE_SIZE))
  {
    var s, j := i / SIZE, i % SIZE;
    if j >= BYTE_SIZE {
      assert (i - BYTE_SIZE) / SIZE == s && (i - BYTE_SIZE) % SIZE == j - BYTE_SIZE;
    }
    if s == 0 {
      Remainder1Repeats();
      Remainder1Strides();
    } else if s == 1 {
      Remainder7Repeats();
      Remainder7Strides();
    } else if s == 2 {
      Remainder11Repeats();
      Remainder11Strides();
    } else if s == 3 {
      Remainder13Repeats();
      Remainder13Strides();
    } else if s == 4 {
      Remainder17Repeats();
      Remainder17Strides();
    } else if s == 5 {
      Remainder19Repeats();
      Remainder19Strides();
    } else if s == 6 {
      Remainder23Repeats();
      Remainder23Strides();
    } else {
      Remainder29Repeats();
      Remainder29Strides();
    }
  }

  /** State i - 8 is in the same spoke as state i, at the same position of the block of eight. */
  lemma PreviousBlock(i: nat)
    requires i < WHEEL_LENGTH && i % SIZE >= BYTE_SIZE
    ensures (i - BYTE_SIZE) / SIZE == i / SIZE && (i - BYTE_SIZE) % SIZE == i % SIZE - BYTE_SIZE
    ensures (i - BYTE_SIZE) % SIZE % BYTE_SIZE == i % SIZE % BYTE_SIZE
  {}

  /** Every state of WHEEL holds the stride its spoke and its position in the block of eight call for. */
  lemma {:induction false} WheelTableStride(i: nat)
    requires i < WHEEL_LENGTH
    ensures WheelTable(i).next == SpokeStep(i % SIZE)
    ensures StrideMatches(WheelTable(i), i / SIZE, i % SIZE % BYTE_SIZE)
    decreases i % SIZE
  {
    WheelTableEntry(i);
    if i % SIZE >= BYTE_SIZE {
      PreviousBlock(i);
      WheelTableStride(i - BYTE_SIZE);
      SameStrideMatches(WheelTable(i), WheelTable(i - BYTE_SIZE), i / SIZE, i % SIZE % BYTE_SIZE);
    }
  }

  /** TRUE_AT_BIT is strictly increasing. */
  lemma {:induction false} TrueAtBitIncreasing(a: nat, b: nat)
    requires a < b < SIZE
    ensures TrueAtBit(a) < TrueAtBit(b)
    decreases b - a
  {
    TrueAtBitAscending();
    if a + 1 < b {
      TrueAtBitIncreasing(a + 1, b);
    }
  }

  /**
    * INIT maps residue r to the least residue at or above r that is coprime to
    * 210: it lies nextMultFactor above r, at index wheelIndex of TRUE_AT_BIT,
    * and r itself is coprime to 210 exactly when the factor is 0.
    */
  lemma {:induction false} InitNextCoprime(r: nat)
    requires r < MODULO
    ensures var e := InitTable(r);
      e.wheelIndex < SIZE && r + e.nextMultFactor == TrueAtBit(e.wheelIndex) &&
      (e.nextMultFactor == 0 <==> CoprimeTo210(r)) &&
      forall n :: r <= n < r + e.nextMultFactor ==> !CoprimeTo210(n)
    decreases InitTable(r).nextMultFactor
  {
    InitEntry(r);
    var e := InitTable(r);
    if e.nextMultFactor > 0 {
      InitNextCoprime(r + 1);
    } else {
      assert CoprimeTo210(TrueAtBit(e.wheelIndex));
    }
  }

  /** INIT maps each residue of TRUE_AT_BIT to its own index with factor 0. */
  lemma TrueAtBitInInit(b: nat)
    requires b < SIZE
    ensures TrueAtBit(b) < MODULO && InitTable(TrueAtBit(b)) == WheelInit(0, b)
  {
    InitNextCoprime(TrueAtBit(b));
    var w := InitTable(TrueAtBit(b)).wheelIndex;
    if w < b {
      TrueAtBitIncreasing(w, b);
    } else if b < w {
      TrueAtBitIncreasing(b, w);
    }
  }
}
