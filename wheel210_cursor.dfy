// What the tables make a sieving cursor do. A cursor for prime p walks the
// multiples p * k whose cofactor k is coprime to 30, in increasing order:
// each `set_bit` marks the bit that stands for the current multiple and
// moves the byte index and the state index to the next one. The lemmas here
// connect `compute_wheel_elem` and `set_bit` of wheel210.rs (lines 23-54)
// to that walk, state by state of the WHEEL table (lines 129-241).

module Wheel210Cursor {
  import opened Wheel
  import opened Wheel210Tables
  import opened Wheel210

  /** The least integer above k that is coprime to 30. */
  function NextCoprime30(k: int): (k': int)
    requires CoprimeTo30(k)
    ensures k < k' && CoprimeTo30(k')
    ensures forall j :: k < j < k' ==> !CoprimeTo30(j)
  {
    CoprimeTo30Mod(k);
    var t := ResidueBit(k % BYTE_MODULO);
    ResidueGapsFacts();
    var k' := k + RESIDUE_GAPS[t];
    CoprimeTo30Shift(BYTE_RESIDUES[(t + 1) % BYTE_SIZE], k / BYTE_MODULO + (if t == BYTE_SIZE - 1 then 1 else 0));
    assert forall j :: k < j < k' ==> !CoprimeTo30(j) by {
      forall j | k < j < k'
        ensures !CoprimeTo30(j)
      {
        CoprimeTo30Shift(k % BYTE_MODULO + (j - k), k / BYTE_MODULO);
      }
    }
    k'
  }

  /** The cofactor after n steps of the walk from k. */
  function Multiplier(k: int, n: nat): (m: int)
    requires CoprimeTo30(k)
    ensures CoprimeTo30(m) && k <= m
    ensures n > 0 ==> k < m
    decreases n
  {
    if n == 0 then k else Multiplier(NextCoprime30(k), n - 1)
  }

  /** The cursor (byte index, state index) after n calls of `set_bit` from (si, wi). */
  function Cursor(si: nat, wi: nat, prime: nat, n: nat): (c: (nat, nat))
    requires wi < WHEEL_LENGTH
    ensures c.1 < WHEEL_LENGTH && c.1 / SIZE == wi / SIZE
    ensures c.1 == wi / SIZE * SIZE + (wi % SIZE + n) % SIZE
    decreases n
  {
    if n == 0 then (si, wi) else
      var next := NextCursor(si, wi, prime);
      StateStep(wi, next.1, n);
      Cursor(next.0, next.1, prime, n - 1)
  }

  /**
    * The cursor (si, wi) is at multiple p * k of prime p in a buffer starting
    * at `low`: state wi lies in the spoke for p's residue modulo 30, at the
    * position of the block of eight that belongs to k's residue modulo 30,
    * and si is the byte of p * k (k is coprime to 30).
    */
  predicate Tracks(p: nat, low: nat, k: nat, si: nat, wi: nat) {
    low % BYTE_MODULO == 0 && CoprimeTo30(p) && CoprimeTo30(k) && wi < WHEEL_LENGTH &&
    BYTE_RESIDUES[wi / SIZE] == p % BYTE_MODULO &&
    k % BYTE_MODULO == BYTE_RESIDUES[(wi / SIZE + wi % SIZE % BYTE_SIZE) % BYTE_SIZE] &&
    low <= p * k && si == (p * k - low) / BYTE_MODULO
  }

  /** The residue of a product modulo 30 is the product of the residues. */
  lemma ProductResidue(p: int, k: int)
    ensures p * k % BYTE_MODULO == (p % BYTE_MODULO) * (k % BYTE_MODULO) % BYTE_MODULO
  {
    var q, r := p / BYTE_MODULO, p % BYTE_MODULO;
    var a, b := k / BYTE_MODULO, k % BYTE_MODULO;
    assert p * k == r * b + BYTE_MODULO * (30 * q * a + q * b + r * a);
    SpanShift(r * b, 30 * q * a + q * b + r * a);
  }

  /** Adding whole spans of 30 moves the span and keeps the residue. */
  lemma SpanShift(x: int, n: int)
    ensures (x + BYTE_MODULO * n) / BYTE_MODULO == x / BYTE_MODULO + n
    ensures (x + BYTE_MODULO * n) % BYTE_MODULO == x % BYTE_MODULO
  {}

  /**
    * The byte of p * (k + g): the byte of p * k, plus g times p's span of 30,
    * plus the carry of p * k's residue m and g times p's residue r.
    */
  lemma NextByte(p: nat, k: nat, g: nat, low: nat, m: int, r: int)
    requires low <= p * k && (p * k - low) % BYTE_MODULO == m && p % BYTE_MODULO == r
    ensures low <= p * (k + g)
    ensures (p * (k + g) - low) / BYTE_MODULO == (p * k - low) / BYTE_MODULO + (p / BYTE_MODULO) * g + (m + r * g) / BYTE_MODULO
  {
    var d := p * k - low;
    var q := p / BYTE_MODULO;
    Distributes(p, k, g);
    assert p * g == BYTE_MODULO * (q * g) + r * g;
    assert p * (k + g) - low == (m + r * g) + BYTE_MODULO * (d / BYTE_MODULO + q * g);
    SpanShift(m + r * g, d / BYTE_MODULO + q * g);
  }

  /** The byte of a multiple stands, at the bit of its residue, for the multiple. */
  lemma MarksItsByte(low: nat, n: nat, bit: nat)
    requires low % BYTE_MODULO == 0 && low <= n
    requires bit < BYTE_SIZE && BYTE_RESIDUES[bit] == n % BYTE_MODULO
    ensures MarksInteger(low, (n - low) / BYTE_MODULO, bit, n)
  {
    SpanShift(n - low, low / BYTE_MODULO);
  }

  /** The entries of BYTE_RESIDUES are distinct. */
  lemma ByteResiduesDistinct(a: nat, b: nat)
    requires a < BYTE_SIZE && b < BYTE_SIZE && BYTE_RESIDUES[a] == BYTE_RESIDUES[b]
    ensures a == b
  {}

  /** Positions in a block of eight add modulo 8. */
  lemma AddPositions(a: nat, b: nat)
    ensures (a % BYTE_SIZE + b) % BYTE_SIZE == (a + b) % BYTE_SIZE
    ensures (a + b % BYTE_SIZE) % BYTE_SIZE == (a + b) % BYTE_SIZE
  {
    BlockShift(a % BYTE_SIZE + b, a / BYTE_SIZE);
    BlockShift(a + b % BYTE_SIZE, b / BYTE_SIZE);
  }

  /** Adding whole blocks of eight keeps the position in the block. */
  lemma BlockShift(x: int, n: int)
    ensures (x + BYTE_SIZE * n) % BYTE_SIZE == x % BYTE_SIZE
  {}

  /** The position of state i + 1 in the block of eight follows that of state i, cyclically. */
  lemma NextPosition(j: nat)
    requires j < SIZE
    ensures (j + 1) % SIZE % BYTE_SIZE == (j % BYTE_SIZE + 1) % BYTE_SIZE
  {}

  /** The cofactor after k, for k in the residue class BYTE_RESIDUES[u]. */
  lemma NextCofactor(k: nat, u: nat)
    requires u < BYTE_SIZE && k % BYTE_MODULO == BYTE_RESIDUES[u]
    ensures CoprimeTo30(k) && NextCoprime30(k) == k + RESIDUE_GAPS[u]
    ensures NextCoprime30(k) % BYTE_MODULO == BYTE_RESIDUES[(u + 1) % BYTE_SIZE]
  {
    CoprimeTo30Mod(k);
    ByteResiduesDistinct(ResidueBit(k % BYTE_MODULO), u);
    ResidueGapsFacts();
    SpanShift(k % BYTE_MODULO + RESIDUE_GAPS[u], k / BYTE_MODULO);
  }

  /** The bit that a stride for spoke s at position t marks is the bit of p * k. */
  lemma StrideBit(p: nat, low: nat, k: nat, s: nat, t: nat, e: WheelElem)
    requires s < BYTE_SIZE && t < BYTE_SIZE && StrideMatches(e, s, t)
    requires low % BYTE_MODULO == 0 && BYTE_RESIDUES[s] == p % BYTE_MODULO
    requires k % BYTE_MODULO == BYTE_RESIDUES[(s + t) % BYTE_SIZE]
    requires low <= p * k
    ensures (p * k - low) % BYTE_MODULO == BYTE_RESIDUES[e.bit]
    ensures MarksInteger(low, (p * k - low) / BYTE_MODULO, e.bit, p * k)
  {
    ProductResidue(p, k);
    SpanShift(p * k - low, low / BYTE_MODULO);
    MarksItsByte(low, p * k, e.bit);
  }

  /**
    * One step for a state e that holds the stride for spoke s at position t:
    * with p in the spoke's residue class and k in the class of position t,
    * byte si of p * k has e's bit standing for p * k, the next cofactor is
    * e's factor above k, and e's factor and correction lead to its byte.
    */
  lemma StrideStep(p: nat, low: nat, k: nat, si: nat, s: nat, t: nat, e: WheelElem)
    requires s < BYTE_SIZE && t < BYTE_SIZE && StrideMatches(e, s, t)
    requires low % BYTE_MODULO == 0 && BYTE_RESIDUES[s] == p % BYTE_MODULO
    requires k % BYTE_MODULO == BYTE_RESIDUES[(s + t) % BYTE_SIZE]
    requires low <= p * k && si == (p * k - low) / BYTE_MODULO
    ensures MarksInteger(low, si, e.bit, p * k)
    ensures CoprimeTo30(k) && NextCoprime30(k) == k + e.nextMultFactor
    ensures low <= p * NextCoprime30(k)
    ensures (p * NextCoprime30(k) - low) / BYTE_MODULO == si + (p / BYTE_MODULO) * e.nextMultFactor + e.correction
    ensures NextCoprime30(k) % BYTE_MODULO == BYTE_RESIDUES[(s + t + 1) % BYTE_SIZE]
  {
    var u := (s + t) % BYTE_SIZE;
    var r := BYTE_RESIDUES[s];
    var m := r * BYTE_RESIDUES[u] % BYTE_MODULO;
    StrideBit(p, low, k, s, t, e);
    NextCofactor(k, u);
    NextByte(p, k, RESIDUE_GAPS[u], low, m, r);
    AddPositions(s + t, 1);
  }

  /**
    * One `set_bit` step of a cursor at p * k marks the bit that stands for
    * p * k, and leaves the cursor at p times the next cofactor coprime to 30.
    */
  lemma Step(p: nat, low: nat, k: nat, si: nat, wi: nat)
    requires Tracks(p, low, k, si, wi)
    ensures MarksInteger(low, si, WheelTable(wi).bit, p * k)
    ensures Tracks(p, low, NextCoprime30(k), NextCursor(si, wi, p / BYTE_MODULO).0, NextCursor(si, wi, p / BYTE_MODULO).1)
  {
    var s, t := wi / SIZE, wi % SIZE % BYTE_SIZE;
    var e := WheelTable(wi);
    WheelTableStride(wi);
    StrideStep(p, low, k, si, s, t, e);
    NextState(si, wi, p / BYTE_MODULO);
  }

  /** One step stays in the spoke, moves one position on in the block of eight, and moves the byte as the state says. */
  lemma NextState(si: nat, wi: nat, q: nat)
    requires wi < WHEEL_LENGTH
    ensures NextCursor(si, wi, q).0 == si + q * WheelTable(wi).nextMultFactor + WheelTable(wi).correction
    ensures NextCursor(si, wi, q).1 / SIZE == wi / SIZE
    ensures (NextCursor(si, wi, q).1 / SIZE + NextCursor(si, wi, q).1 % SIZE % BYTE_SIZE) % BYTE_SIZE
      == (wi / SIZE + wi % SIZE % BYTE_SIZE + 1) % BYTE_SIZE
  {
    NextPosition(wi % SIZE);
    AddPositions(wi / SIZE, wi % SIZE % BYTE_SIZE + 1);
  }

  /** Tracks holds of equal arguments. */
  lemma TracksAt(p: nat, low: nat, k: nat, si: nat, wi: nat, k': int, si': nat, wi': nat)
    requires Tracks(p, low, k, si, wi) && k' == k && si' == si && wi' == wi
    ensures k' >= 0 && Tracks(p, low, k', si', wi')
  {}

  /** After n steps, a cursor at p * k is at p times the n-th cofactor after k. */
  lemma {:induction false} Walk(p: nat, low: nat, k: nat, si: nat, wi: nat, n: nat)
    requires Tracks(p, low, k, si, wi)
    ensures Multiplier(k, n) >= 0
    ensures Tracks(p, low, Multiplier(k, n), Cursor(si, wi, p / BYTE_MODULO, n).0, Cursor(si, wi, p / BYTE_MODULO, n).1)
    decreases n
  {
    var c := Cursor(si, wi, p / BYTE_MODULO, n);
    if n == 0 {
      TracksAt(p, low, k, si, wi, Multiplier(k, n), c.0, c.1);
    } else {
      Step(p, low, k, si, wi);
      var next := NextCursor(si, wi, p / BYTE_MODULO);
      var k' := NextCoprime30(k);
      Walk(p, low, k', next.0, next.1, n - 1);
      var c' := Cursor(next.0, next.1, p / BYTE_MODULO, n - 1);
      assert c == c';
      assert Multiplier(k, n) == Multiplier(k', n - 1);
      TracksAt(p, low, Multiplier(k', n - 1), c'.0, c'.1, Multiplier(k, n), c.0, c.1);
    }
  }

  /**
    * The walk from k reaches every cofactor at or above k that is coprime to
    * 30: it skips none.
    */
  lemma {:induction false} MultiplierReaches(k: int, k2: int)
    requires CoprimeTo30(k) && CoprimeTo30(k2) && k <= k2
    ensures exists n: nat :: Multiplier(k, n) == k2
    decreases k2 - k
  {
    if k == k2 {
      assert Multiplier(k, 0) == k2;
    } else {
      var k' := NextCoprime30(k);
      assert k' <= k2;
      MultiplierReaches(k', k2);
      var n: nat :| Multiplier(k', n) == k2;
      assert Multiplier(k, n + 1) == k2;
    }
  }

  /**
    * The cursor that `compute_wheel_elem` returns for a prime p coprime to 210
    * and a buffer starting at `low` (a multiple of 30, at most p * p) is at
    * p * p.
    */
  lemma StartTracks(p: nat, low: nat)
    requires CoprimeTo210(p) && low % BYTE_MODULO == 0 && low <= p * p
    ensures low <= p * p + p * InitTable(p % MODULO).nextMultFactor
    ensures var w := ComputeWheelElem(p, low);
      Tracks(p, low, p, w.sieveIndex, w.wheelIndex)
  {
    FirstMultiplier(p);
    FromBitIndexOfBitIndex(p);
    var w := ComputeWheelElem(p, low);
    SpokeStart(w.wheelIndex / SIZE);
    assert CoprimeTo30(p);
    assert (w.wheelIndex / SIZE + w.wheelIndex % SIZE % BYTE_SIZE) % BYTE_SIZE == w.wheelIndex / SIZE;
    assert w.sieveIndex == (p * p - low) / BYTE_MODULO;
  }

  /**
    * The byte and the bit that the n-th `set_bit` call marks when sieving with
    * p from the cursor that `compute_wheel_elem` returns.
    */
  function MarkedBit(p: nat, low: nat, n: nat): (m: (nat, nat))
    requires low <= p * p + p * InitTable(p % MODULO).nextMultFactor
    ensures m.1 < BYTE_SIZE
  {
    var w := ComputeWheelElem(p, low);
    var c := Cursor(w.sieveIndex, w.wheelIndex, w.prime, n);
    (c.0, WheelTable(c.1).bit)
  }

  /** The n-th call marks p times the n-th cofactor coprime to 30 from p on. */
  lemma MarkedBitIsMultiple(p: nat, low: nat, n: nat)
    requires CoprimeTo210(p) && low % BYTE_MODULO == 0 && low <= p * p
    ensures low <= p * p + p * InitTable(p % MODULO).nextMultFactor
    ensures MarksInteger(low, MarkedBit(p, low, n).0, MarkedBit(p, low, n).1, p * Multiplier(p, n))
  {
    StartTracks(p, low);
    var w := ComputeWheelElem(p, low);
    Walk(p, low, p, w.sieveIndex, w.wheelIndex, n);
    var c := Cursor(w.sieveIndex, w.wheelIndex, w.prime, n);
    Step(p, low, Multiplier(p, n), c.0, c.1);
  }

  /** The walk's cofactors strictly increase, so no multiple is marked twice. */
  lemma {:induction false} MultiplierIncreasing(k: int, m: nat, n: nat)
    requires CoprimeTo30(k) && m < n
    ensures Multiplier(k, m) < Multiplier(k, n)
    decreases m
  {
    if m > 0 {
      MultiplierIncreasing(NextCoprime30(k), m - 1, n - 1);
    }
  }

  /**
    * Sieving with prime p (coprime to 210) from the start cursor marks exactly
    * the multiples p * k with k at or above p and coprime to 30: every call
    * marks the bit for such a multiple, and every such multiple is marked by
    * some call.
    */
  lemma SievesMultiples(p: nat, low: nat)
    requires CoprimeTo210(p) && low % BYTE_MODULO == 0 && low <= p * p
    ensures low <= p * p + p * InitTable(p % MODULO).nextMultFactor
    ensures forall n: nat :: exists k :: (p <= k && CoprimeTo30(k) &&
      MarksInteger(low, MarkedBit(p, low, n).0, MarkedBit(p, low, n).1, p * k))
    ensures forall k :: p <= k && CoprimeTo30(k) ==> exists n: nat ::
      MarksInteger(low, MarkedBit(p, low, n).0, MarkedBit(p, low, n).1, p * k)
  {
    StartTracks(p, low);
    forall n: nat
      ensures exists k :: (p <= k && CoprimeTo30(k) &&
        MarksInteger(low, MarkedBit(p, low, n).0, MarkedBit(p, low, n).1, p * k))
    {
      MarkedBitIsMultiple(p, low, n);
      var k := Multiplier(p, n);
      assert p <= k && CoprimeTo30(k);
    }
    forall k | p <= k && CoprimeTo30(k)
      ensures exists n: nat :: MarksInteger(low, MarkedBit(p, low, n).0, MarkedBit(p, low, n).1, p * k)
    {
      CoprimeTo30Mod(p);
      MultiplierReaches(p, k);
      var n: nat :| Multiplier(p, n) == k;
      MarkedBitIsMultiple(p, low, n);
    }
  }

  // Blocks and turns: the six blocks of eight states of a spoke are six turns
  // of the 30-wheel for the cofactor.

  /**
    * The cofactor that position x of a walk along spoke s stands for,
    * unwrapped: BYTE_RESIDUES[(s + x) % 8] plus 30 for every turn of the
    * 30-wheel that the walk has completed.
    */
  function WalkCofactor(s: nat, x: nat): (k: nat)
    requires s < BYTE_SIZE
  {
    BYTE_RESIDUES[(s + x) % BYTE_SIZE] + BYTE_MODULO * ((s + x) / BYTE_SIZE)
  }

  /** One position on, the cofactor grows by the factor of the stride at the old position. */
  lemma WalkCofactorStep(s: nat, x: nat)
    requires s < BYTE_SIZE
    ensures WalkCofactor(s, x + 1) == WalkCofactor(s, x) + StrideFactor(s, x % BYTE_SIZE)
  {
    AddPositions(s, x);
    ResidueGapsSteps();
    PositionCarry(s + x);
  }

  /** One position on inside a block of eight, or into the next block from its last position. */
  lemma PositionCarry(z: nat)
    ensures z % BYTE_SIZE < BYTE_SIZE - 1 ==> (z + 1) % BYTE_SIZE == z % BYTE_SIZE + 1 && (z + 1) / BYTE_SIZE == z / BYTE_SIZE
    ensures z % BYTE_SIZE == BYTE_SIZE - 1 ==> (z + 1) % BYTE_SIZE == 0 && (z + 1) / BYTE_SIZE == z / BYTE_SIZE + 1
  {}

  /** k blocks of eight positions on, the cofactor has grown by k turns of 30. */
  lemma WalkCofactorTurns(s: nat, x: nat, k: nat)
    requires s < BYTE_SIZE
    ensures WalkCofactor(s, x + BYTE_SIZE * k) == WalkCofactor(s, x) + BYTE_MODULO * k
  {
    BlockShift(s + x, k);
  }

  /** The carry of one stride at position t of a block of spoke s. */
  lemma StrideCarryAt(s: nat, t: nat)
    requires s < BYTE_SIZE && t < BYTE_SIZE
    ensures BYTE_MODULO * StrideCorrection(s, t) + StrideResidue(s, (t + 1) % BYTE_SIZE)
      == StrideResidue(s, t) + BYTE_RESIDUES[s] * StrideFactor(s, t)
  {
    var r, u := BYTE_RESIDUES[s], (s + t) % BYTE_SIZE;
    var a, g, b := BYTE_RESIDUES[u], RESIDUE_GAPS[u], BYTE_RESIDUES[(u + 1) % BYTE_SIZE];
    var x := StrideResidue(s, t) + r * StrideFactor(s, t);
    GapResidue(u);
    NextInBlock(s, t);
    CarryResidue(r, a, g, b);
    SpanSplit(x);
  }

  /** The residue one gap past BYTE_RESIDUES[u] is the next of BYTE_RESIDUES, cyclically. */
  lemma GapResidue(u: nat)
    requires u < BYTE_SIZE
    ensures (BYTE_RESIDUES[u] + RESIDUE_GAPS[u]) % BYTE_MODULO == BYTE_RESIDUES[(u + 1) % BYTE_SIZE]
    ensures BYTE_RESIDUES[(u + 1) % BYTE_SIZE] < BYTE_MODULO
  {}

  /** The position after t in a block of spoke s, shifted by the spoke. */
  lemma NextInBlock(s: nat, t: nat)
    ensures (s + (t + 1) % BYTE_SIZE) % BYTE_SIZE == ((s + t) % BYTE_SIZE + 1) % BYTE_SIZE
  {
    AddPositions(s, t + 1);
    AddPositions(s + t, 1);
  }

  /** A number is 30 times its span plus its residue. */
  lemma SpanSplit(x: int)
    ensures BYTE_MODULO * (x / BYTE_MODULO) + x % BYTE_MODULO == x
  {}

  /** If a + g is b modulo 30, then r * a reduced, plus r * g, is r * b modulo 30. */
  lemma CarryResidue(r: nat, a: nat, g: nat, b: nat)
    requires b < BYTE_MODULO && (a + g) % BYTE_MODULO == b
    ensures (r * a % BYTE_MODULO + r * g) % BYTE_MODULO == r * b % BYTE_MODULO
  {
    var x, d := r * a % BYTE_MODULO + r * g, r * a / BYTE_MODULO;
    MulCongruent(r, a + g, b);
    Distributes(r, a, g);
    SpanSplit(r * a);
    SpanShift(x, d);
    calc {
      x % BYTE_MODULO;
      (x + BYTE_MODULO * d) % BYTE_MODULO;
      { assert x + BYTE_MODULO * d == r * (a + g); }
      r * (a + g) % BYTE_MODULO;
      r * b % BYTE_MODULO;
    }
  }

  /**
    * The carry of one stride: 30 times the correction, plus the residue of
    * the next position, is the residue of this position plus r times the factor.
    */
  lemma StrideCarry(s: nat, x: nat)
    requires s < BYTE_SIZE
    ensures BYTE_MODULO * StrideCorrection(s, x % BYTE_SIZE) + StrideResidue(s, (x + 1) % BYTE_SIZE)
      == StrideResidue(s, x % BYTE_SIZE) + BYTE_RESIDUES[s] * StrideFactor(s, x % BYTE_SIZE)
  {
    AddPositions(x, 1);
    StrideCarryAt(s, x % BYTE_SIZE);
  }

  /** The factors of positions t to e - 1 add up to the growth of the cofactor. */
  lemma {:induction false} FactorsTelescope(s: nat, t: nat, e: nat)
    requires s < BYTE_SIZE && t <= e
    ensures StrideFactors(s, t, e) == WalkCofactor(s, e) - WalkCofactor(s, t)
    decreases e - t
  {
    if t < e {
      WalkCofactorStep(s, t);
      FactorsTelescope(s, t + 1, e);
    }
  }

  /** The corrections of positions t to e - 1 carry the residues along. */
  lemma {:induction false} CorrectionsTelescope(s: nat, t: nat, e: nat)
    requires s < BYTE_SIZE && t <= e
    ensures BYTE_MODULO * StrideCorrections(s, t, e) + StrideResidue(s, e % BYTE_SIZE)
      == StrideResidue(s, t % BYTE_SIZE) + BYTE_RESIDUES[s] * StrideFactors(s, t, e)
    decreases e - t
  {
    if t < e {
      StrideCarry(s, t);
      Distributes(BYTE_RESIDUES[s], StrideFactor(s, t % BYTE_SIZE), StrideFactors(s, t + 1, e));
      CorrectionsTelescope(s, t + 1, e);
    }
  }

  /**
    * One block of eight states of spoke s: its factors add up to 30, one turn
    * of the 30-wheel for the cofactor, and its corrections add up to the
    * spoke's residue r.
    */
  lemma BlockSums(s: nat)
    requires s < BYTE_SIZE
    ensures StrideFactors(s, 0, BYTE_SIZE) == BYTE_MODULO
    ensures StrideCorrections(s, 0, BYTE_SIZE) == BYTE_RESIDUES[s]
  {
    FactorsTelescope(s, 0, BYTE_SIZE);
    WalkCofactorTurns(s, 0, 1);
    CorrectionsTelescope(s, 0, BYTE_SIZE);
    assert BYTE_SIZE % BYTE_SIZE == 0 % BYTE_SIZE;
  }

  /** Multiplying by a residue coprime to 30 does not merge two residues coprime to 30. */
  lemma ResidueCancel(s: nat, a: nat, b: nat)
    requires s < BYTE_SIZE && a < BYTE_SIZE && b < BYTE_SIZE
    requires BYTE_RESIDUES[s] * BYTE_RESIDUES[a] % BYTE_MODULO == BYTE_RESIDUES[s] * BYTE_RESIDUES[b] % BYTE_MODULO
    ensures a == b
  {
    var r := BYTE_RESIDUES[s];
    // The inverse of r modulo 30.
    var v: nat := if r == 7 then 13 else if r == 13 then 7 else if r == 17 then 23 else if r == 23 then 17 else r;
    assert r * v % BYTE_MODULO == 1;
    assert BYTE_RESIDUES[a] < BYTE_MODULO && BYTE_RESIDUES[b] < BYTE_MODULO;
    InverseCancel(r, v, BYTE_RESIDUES[a], BYTE_RESIDUES[b]);
    ByteResiduesDistinct(a, b);
  }

  /** With v an inverse of r modulo 30, r * x and r * y agree modulo 30 only for x and y that agree. */
  lemma InverseCancel(r: nat, v: nat, x: nat, y: nat)
    requires r * v % BYTE_MODULO == 1 && x < BYTE_MODULO && y < BYTE_MODULO
    requires r * x % BYTE_MODULO == r * y % BYTE_MODULO
    ensures x == y
  {
    MulCongruent(v, r * x, r * y);
    Reassociate(v, r, x);
    Reassociate(v, r, y);
    MulOne(r * v, x);
    MulOne(r * v, y);
    calc {
      x;
      (r * v) * x % BYTE_MODULO;
      v * (r * x) % BYTE_MODULO;
      v * (r * y) % BYTE_MODULO;
      (r * v) * y % BYTE_MODULO;
      y;
    }
  }

  lemma Reassociate(v: int, r: int, x: int)
    ensures v * (r * x) == (r * v) * x
  {}

  /** Multiplying two numbers that agree modulo 30 by v keeps them agreeing modulo 30. */
  lemma MulCongruent(v: int, a: int, b: int)
    requires a % BYTE_MODULO == b % BYTE_MODULO
    ensures v * a % BYTE_MODULO == v * b % BYTE_MODULO
  {
    var d := a / BYTE_MODULO - b / BYTE_MODULO;
    assert a == b + BYTE_MODULO * d;
    Distributes(v, b, BYTE_MODULO * d);
    assert v * a == v * b + BYTE_MODULO * (v * d);
    SpanShift(v * b, v * d);
  }

  /** Multiplying by a number that is 1 modulo 30 keeps a residue modulo 30. */
  lemma MulOne(m: int, x: int)
    requires m % BYTE_MODULO == 1
    ensures m * x % BYTE_MODULO == x % BYTE_MODULO
  {
    var d := m / BYTE_MODULO;
    assert m == BYTE_MODULO * d + 1;
    Distributes(x, BYTE_MODULO * d, 1);
    assert m * x == x + BYTE_MODULO * (d * x);
    SpanShift(x, d * x);
  }

  /** The eight positions of a block of spoke s mark eight different residues modulo 30. */
  lemma BlockResidues(s: nat)
    requires s < BYTE_SIZE
    ensures forall t, u :: 0 <= t < u < BYTE_SIZE ==> StrideResidue(s, t) != StrideResidue(s, u)
  {
    forall t, u | 0 <= t < u < BYTE_SIZE
      ensures StrideResidue(s, t) != StrideResidue(s, u)
    {
      if StrideResidue(s, t) == StrideResidue(s, u) {
        ResidueCancel(s, (s + t) % BYTE_SIZE, (s + u) % BYTE_SIZE);
      }
    }
  }

  /**
    * Two states of one block of eight mark different bits; as the block has
    * eight states, it marks each bit of a byte exactly once.
    */
  lemma BlockBitsDistinct(i: nat, j: nat)
    requires i < j < WHEEL_LENGTH && i / BYTE_SIZE == j / BYTE_SIZE
    ensures WheelTable(i).bit != WheelTable(j).bit
  {
    SameBlock(i, j);
    WheelTableStride(i);
    WheelTableStride(j);
    BlockResidues(i / SIZE);
  }

  /** Two states of one block of eight lie in one spoke, in the order of their positions in the block. */
  lemma SameBlock(i: nat, j: nat)
    requires i < j && i / BYTE_SIZE == j / BYTE_SIZE
    ensures i / SIZE == j / SIZE && i % SIZE % BYTE_SIZE < j % SIZE % BYTE_SIZE
  {
    StateInBlock(i);
    StateInBlock(j);
  }

  /** The spoke of state i is its block of eight divided by 6, and its position in the block is i modulo 8. */
  lemma StateInBlock(i: nat)
    ensures i / SIZE == i / BYTE_SIZE / 6 && i % SIZE % BYTE_SIZE == i % BYTE_SIZE
  {
    var a, m := i / SIZE, i % SIZE;
    var c, e := m / BYTE_SIZE, m % BYTE_SIZE;
    assert i == BYTE_SIZE * (6 * a + c) + e && c < 6;
  }

  /** The state one on from wi, then n - 1 more, is n states on from wi. */
  lemma StateStep(wi: nat, wi': nat, n: nat)
    requires n > 0 && wi' / SIZE == wi / SIZE && wi' % SIZE == (wi % SIZE + 1) % SIZE
    ensures wi' / SIZE * SIZE + (wi' % SIZE + (n - 1)) % SIZE == wi / SIZE * SIZE + (wi % SIZE + n) % SIZE
  {
    StatesOn(wi % SIZE, n);
  }

  /** One state on, then n - 1 more, is n states on, cyclically. */
  lemma StatesOn(j: nat, n: nat)
    requires n > 0
    ensures ((j + 1) % SIZE + (n - 1)) % SIZE == (j + n) % SIZE
  {
    var k := (j + 1) / SIZE;
    assert (j + 1) % SIZE + (n - 1) == j + n + SIZE * (-k);
    SpokeShift(j + n, -k);
  }

  /** Adding whole spokes of SIZE does not change a position in the spoke. */
  lemma SpokeShift(x: int, k: int)
    ensures (x + SIZE * k) % SIZE == x % SIZE
  {}

  /** SIZE states on in its spoke, a state is back where it was. */
  lemma WholeSpoke(wi: nat)
    ensures wi / SIZE * SIZE + (wi % SIZE + SIZE) % SIZE == wi
  {}

  /** A walk position x in the class of state position j steps on together with it. */
  lemma PositionStep(x: nat, j: nat)
    requires j < SIZE && x % BYTE_SIZE == j % BYTE_SIZE
    ensures (x + 1) % BYTE_SIZE == (j + 1) % SIZE % BYTE_SIZE
  {
    NextPosition(j);
    AddPositions(x, 1);
  }

  /** A position in a block of eight is its own position. */
  lemma PositionOfPosition(x: nat)
    ensures x % BYTE_SIZE % BYTE_SIZE == x % BYTE_SIZE
  {}

  /** A prime p = 30 * q + r times a factor g. */
  lemma PrimeTimes(p: nat, q: nat, r: nat, g: nat)
    requires p == BYTE_MODULO * q + r
    ensures p * g == BYTE_MODULO * (q * g) + r * g
  {}

  /**
    * One call keeps the quantity of the invariant below: on spoke s, with
    * p = 30 * q + r for the spoke's residue r, and a walk position x in the
    * class of the state's position in its block.
    */
  lemma CursorStep(si: nat, wi: nat, q: nat, s: nat, p: nat, x: nat)
    requires wi < WHEEL_LENGTH && s == wi / SIZE && p == BYTE_MODULO * q + BYTE_RESIDUES[s]
    requires x % BYTE_SIZE == wi % SIZE % BYTE_SIZE
    ensures (x + 1) % BYTE_SIZE == NextCursor(si, wi, q).1 % SIZE % BYTE_SIZE
    ensures BYTE_MODULO * NextCursor(si, wi, q).0 + StrideResidue(s, (x + 1) % BYTE_SIZE) - p * WalkCofactor(s, x + 1)
      == BYTE_MODULO * si + StrideResidue(s, x % BYTE_SIZE) - p * WalkCofactor(s, x)
  {
    WheelTableStride(wi);
    NextState(si, wi, q);
    PositionStep(x, wi % SIZE);
    StrideCarry(s, x);
    WalkCofactorStep(s, x);
    Distributes(p, WalkCofactor(s, x), StrideFactor(s, x % BYTE_SIZE));
    PrimeTimes(p, q, BYTE_RESIDUES[s], StrideFactor(s, x % BYTE_SIZE));
  }

  /**
    * What the calls keep. On spoke s, with p = 30 * q + r for the spoke's
    * residue r and a walk position x in the class of the state's position in
    * its block, 30 * si plus the residue of the position, less p times the
    * walk's cofactor, is the same after n calls, at walk position y = x + n,
    * as before.
    */
  lemma {:induction false} CursorInvariant(si: nat, wi: nat, q: nat, s: nat, p: nat, x: nat, n: nat, y: nat)
    requires wi < WHEEL_LENGTH && s == wi / SIZE && p == BYTE_MODULO * q + BYTE_RESIDUES[s]
    requires x % BYTE_SIZE == wi % SIZE % BYTE_SIZE && y == x + n
    ensures BYTE_MODULO * Cursor(si, wi, q, n).0 + StrideResidue(s, y % BYTE_SIZE) - p * WalkCofactor(s, y)
      == BYTE_MODULO * si + StrideResidue(s, x % BYTE_SIZE) - p * WalkCofactor(s, x)
    decreases n
  {
    if n > 0 {
      var next := NextCursor(si, wi, q);
      CursorStep(si, wi, q, s, p, x);
      CursorInvariant(next.0, next.1, q, s, p, x + 1, n - 1, y);
    }
  }

  /** The invariant across k turns of 30 for the cofactor gives k times p on the byte index. */
  lemma TurnsArith(c: int, si: int, a: int, b: int, p: int, w: int, w': int, k: int)
    requires BYTE_MODULO * c + a - p * w' == BYTE_MODULO * si + b - p * w
    requires a == b && w' == w + BYTE_MODULO * k
    ensures c == si + k * p
  {
    assert p * w' == p * w + BYTE_MODULO * (k * p);
  }

  /**
    * 8 * k calls from any state, k turns of the 30-wheel for the cofactor,
    * move the byte index on by k times p = 30 * q + r: the prime whose byte
    * quotient is q and whose residue is the spoke's r.
    */
  lemma CursorTurns(si: nat, wi: nat, q: nat, k: nat, n: nat)
    requires wi < WHEEL_LENGTH && n == BYTE_SIZE * k
    ensures Cursor(si, wi, q, n).0 == si + k * (BYTE_MODULO * q + BYTE_RESIDUES[wi / SIZE])
  {
    var s, t, p := wi / SIZE, wi % SIZE % BYTE_SIZE, BYTE_MODULO * q + BYTE_RESIDUES[wi / SIZE];
    PositionOfPosition(wi % SIZE);
    CursorInvariant(si, wi, q, s, p, t, n, t + BYTE_SIZE * k);
    WalkCofactorTurns(s, t, k);
    BlockShift(t, k);
    TurnsArith(Cursor(si, wi, q, n).0, si, StrideResidue(s, (t + BYTE_SIZE * k) % BYTE_SIZE),
      StrideResidue(s, t % BYTE_SIZE), p, WalkCofactor(s, t), WalkCofactor(s, t + BYTE_SIZE * k), k);
  }

  /**
    * Eight calls from any state, one block of the spoke, move the byte index
    * on by p = 30 * q + r and the state index eight states on in its spoke.
    */
  lemma CursorTurn(si: nat, wi: nat, q: nat)
    requires wi < WHEEL_LENGTH
    ensures Cursor(si, wi, q, BYTE_SIZE).0 == si + (BYTE_MODULO * q + BYTE_RESIDUES[wi / SIZE])
    ensures Cursor(si, wi, q, BYTE_SIZE).1 == wi / SIZE * SIZE + (wi % SIZE + BYTE_SIZE) % SIZE
  {
    CursorTurns(si, wi, q, 1, BYTE_SIZE);
  }

  /**
    * SIZE calls, all six blocks of the spoke, bring the state index back to
    * where it started and move the byte index on by 6 * p.
    */
  lemma CursorClosure(si: nat, wi: nat, q: nat)
    requires wi < WHEEL_LENGTH
    ensures Cursor(si, wi, q, SIZE).0 == si + 6 * (BYTE_MODULO * q + BYTE_RESIDUES[wi / SIZE])
    ensures Cursor(si, wi, q, SIZE).1 == wi
  {
    CursorTurns(si, wi, q, 6, SIZE);
    WholeSpoke(wi);
  }

  /** The marks of a walk, read off the start cursor. */
  lemma MarkedBitFrom(p: nat, low: nat, n: nat, si: nat, wi: nat)
    requires low <= p * p + p * InitTable(p % MODULO).nextMultFactor
    requires ComputeWheelElem(p, low) == WheelInfo(p, p / BYTE_MODULO, si, wi)
    ensures wi < WHEEL_LENGTH
    ensures MarkedBit(p, low, n) == (Cursor(si, wi, p / BYTE_MODULO, n).0, WheelTable(Cursor(si, wi, p / BYTE_MODULO, n).1).bit)
  {}

  /** `compute_wheel_elem` for 11 from 0: byte 4, the span of 121, and the first state of the spoke for 11. */
  lemma Prime11Start()
    ensures ComputeWheelElem(11, 0) == WheelInfo(11, 0, 4, 96)
  {
    FromBitIndexOfBitIndex(11);
  }

  /** The byte indices of the cursor for 11 from 0 and of its first eight steps. */
  const PRIME_11_BYTES: seq<nat> := [4, 4, 6, 6, 8, 10, 11, 13, 15]

  /** The bits that the first eight steps for 11 from 0 mark. */
  const PRIME_11_BITS: seq<nat> := [0, 6, 1, 7, 3, 5, 2, 4]

  /** The first eight integers at or above 11 that are coprime to 30. */
  const PRIME_11_COFACTORS: seq<nat> := [11, 13, 17, 19, 23, 29, 31, 37]

  /** Step j for 11 from 0, read off the spoke for 11 (states 96 to 143). */
  lemma Prime11Step(j: nat)
    requires j < 8
    ensures NextCursor(PRIME_11_BYTES[j], 96 + j, 0) == (PRIME_11_BYTES[j + 1], 97 + j)
    ensures WheelTable(96 + j).bit == PRIME_11_BITS[j]
  {
    if j == 0 {
      assert NextCursor(4, 96, 0) == (4, 97);
      assert WheelTable(96).bit == 0;
    } else if j == 1 {
      assert NextCursor(4, 97, 0) == (6, 98);
      assert WheelTable(97).bit == 6;
    } else if j == 2 {
      assert NextCursor(6, 98, 0) == (6, 99);
      assert WheelTable(98).bit == 1;
    } else if j == 3 {
      assert NextCursor(6, 99, 0) == (8, 100);
      assert WheelTable(99).bit == 7;
    } else if j == 4 {
      assert NextCursor(8, 100, 0) == (10, 101);
      assert WheelTable(100).bit == 3;
    } else if j == 5 {
      assert NextCursor(10, 101, 0) == (11, 102);
      assert WheelTable(101).bit == 5;
    } else if j == 6 {
      assert NextCursor(11, 102, 0) == (13, 103);
      assert WheelTable(102).bit == 2;
    } else {
      assert NextCursor(13, 103, 0) == (15, 104);
      assert WheelTable(103).bit == 4;
    }
  }

  /**
    * From the cursor of step j of the first eight for 11 from 0, n more steps
    * lead to step j + n; from the start, to state 96 + n.
    */
  lemma {:induction false} Prime11Cursor(si: nat, wi: nat, j: nat, n: nat)
    requires j + n <= 8 && si == PRIME_11_BYTES[j] && wi == 96 + j
    ensures Cursor(si, wi, 0, n) == (PRIME_11_BYTES[j + n], wi + n)
    decreases n
  {
    if n > 0 {
      Prime11Step(j);
      Prime11Cursor(PRIME_11_BYTES[j + 1], wi + 1, j + 1, n - 1);
    }
  }

  /**
    * Sieving with 11 from 0: the cursor starts at byte 4 (the span of 121) in
    * the spoke for residue 11, and its first eight calls mark 121, 143, 187,
    * 209, 253, 319, 341 and 407, that is 11 times 11, 13, 17, 19, 23, 29, 31
    * and 37, leaving the cursor at byte 15 (the span of 11 * 41 = 451), eight
    * states on.
    */
  lemma Prime11Trace(n: nat)
    requires n < 8
    ensures MarkedBit(11, 0, n) == (PRIME_11_BYTES[n], PRIME_11_BITS[n])
    ensures MarksInteger(0, MarkedBit(11, 0, n).0, MarkedBit(11, 0, n).1, 11 * PRIME_11_COFACTORS[n])
  {
    Prime11Start();
    MarkedBitFrom(11, 0, n, 4, 96);
    Prime11Cursor(4, 96, 0, n);
    Prime11Step(n);
    Prime11Marks(n);
  }

  /** Bit PRIME_11_BITS[n] of byte PRIME_11_BYTES[n] stands for 11 * PRIME_11_COFACTORS[n]. */
  lemma Prime11Marks(n: nat)
    requires n < 8
    ensures MarksInteger(0, PRIME_11_BYTES[n], PRIME_11_BITS[n], 11 * PRIME_11_COFACTORS[n])
  {
    if n == 0 {} else if n == 1 {} else if n == 2 {} else if n == 3 {} else if n == 4 {} else if n == 5 {} else if n == 6 {} else {}
  }

  /**
    * `compute_wheel_elem` for 7 from 0: byte 2, the span of 77 = 7 * 11, but
    * state 48, the first state of the spoke for 7, which stands for the
    * cofactor 7 and marks bit 5 (residue 19).
    */
  lemma Prime7Start()
    ensures ComputeWheelElem(7, 0) == WheelInfo(7, 0, 2, 48)
  {
    BitIndexNextRepresentable(7);
  }

  /**
    * Sieving with 7 from 0: the first three calls mark 79, 107 and 121, none
    * of them a multiple of 7. They are 30 more than 7 * 7, 7 * 11 and 7 * 13:
    * the byte is that of 7 * 11 while the state is that of 7 * 7.
    */
  lemma Prime7Marks()
    ensures MarkedBit(7, 0, 0) == (2, 5) && MarksInteger(0, 2, 5, 79) && 79 % 7 != 0
    ensures MarkedBit(7, 0, 1) == (3, 4) && MarksInteger(0, 3, 4, 107) && 107 % 7 != 0
    ensures MarkedBit(7, 0, 2) == (4, 0) && MarksInteger(0, 4, 0, 121) && 121 % 7 != 0
  {
    Prime7Start();
    MarkedBitFrom(7, 0, 0, 2, 48);
    MarkedBitFrom(7, 0, 1, 2, 48);
    MarkedBitFrom(7, 0, 2, 2, 48);
    assert NextCursor(2, 48, 0) == (3, 49);
    assert NextCursor(3, 49, 0) == (4, 50);
    assert WheelTable(48).bit == 5 && WheelTable(49).bit == 4 && WheelTable(50).bit == 0;
  }
}
