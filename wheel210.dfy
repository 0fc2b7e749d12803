// The operations of wheel210.rs: the position mapping between integers and
// the bits of the 210-wheel (`bit_index`, `from_bit_index`, lines 15-21),
// one marking step of a sieving cursor (`set_bit`, lines 23-33) and the
// cursor's start for a prime (`compute_wheel_elem`, lines 35-54).

module Wheel210 {
  import opened Wheel
  import opened Wheel210Tables

  /** 2^64: `usize` arithmetic on the 64-bit targets the sieve is built for. */
  const USIZE_MODULUS: int := 0x1_0000_0000_0000_0000

  /** `usize::wrapping_add` of a sign-extended step, as `set_bit` moves the state index. */
  function WrappingAdd(a: nat, d: int): (r: nat)
    ensures r < USIZE_MODULUS
    ensures 0 <= a + d < USIZE_MODULUS ==> r == a + d
  {
    (a + d) % USIZE_MODULUS
  }

  /** n splits into its period n / 210 and its residue n % 210. */
  lemma PeriodSplit(q: int, y: int)
    requires 0 <= y < MODULO
    ensures (q * MODULO + y) / MODULO == q && (q * MODULO + y) % MODULO == y
  {}

  /**
    * `bit_index`: whether n is representable on the wheel, that is coprime to
    * 210, and the position of the least representable integer at or above n,
    * counting SIZE positions per period of MODULO integers.
    */
  function BitIndex(n: nat): (r: (bool, nat))
    ensures r.0 <==> CoprimeTo210(n)
    ensures r.1 / SIZE == n / MODULO
  {
    var init := InitTable(n % MODULO);
    InitNextCoprime(n % MODULO);
    CoprimeTo210Mod(n);
    (init.nextMultFactor == 0, (n / MODULO) * SIZE + init.wheelIndex)
  }

  /** `from_bit_index`: the representable integer at a position. */
  function FromBitIndex(bit: nat): (n: nat)
    ensures CoprimeTo210(n)
    ensures n / MODULO == bit / SIZE
  {
    var n := (bit / SIZE) * MODULO + TrueAtBit(bit % SIZE);
    PeriodSplit(bit / SIZE, TrueAtBit(bit % SIZE));
    CoprimeTo210Mod(n);
    n
  }

  /** Every position is the position of the integer it stands for. */
  lemma BitIndexOfFromBitIndex(bit: nat)
    ensures BitIndex(FromBitIndex(bit)) == (true, bit)
  {
    var q, b := bit / SIZE, bit % SIZE;
    TrueAtBitInInit(b);
    PeriodSplit(q, TrueAtBit(b));
  }

  /** Every representable integer is the integer at its own position. */
  lemma FromBitIndexOfBitIndex(n: nat)
    requires BitIndex(n).0
    ensures FromBitIndex(BitIndex(n).1) == n
  {
    BitIndexNextRepresentable(n);
  }

  /**
    * A position names the least integer at or above n that is representable:
    * the integer there is representable, not below n, and nothing from n up
    * to it is representable.
    */
  lemma BitIndexNextRepresentable(n: nat)
    ensures var m := FromBitIndex(BitIndex(n).1);
      n <= m && CoprimeTo210(m) &&
      forall x :: n <= x < m ==> !CoprimeTo210(x)
  {
    var q, r := n / MODULO, n % MODULO;
    var e := InitTable(r);
    InitNextCoprime(r);
    var bit := BitIndex(n).1;
    assert bit / SIZE == q && bit % SIZE == e.wheelIndex;
    var m := FromBitIndex(bit);
    assert m == n + e.nextMultFactor;
    forall x | n <= x < m
      ensures !CoprimeTo210(x)
    {
      PeriodSplit(q, r + (x - n));
      CoprimeTo210Mod(x);
    }
  }

  /** Positions and the integers they stand for are in the same order. */
  lemma FromBitIndexOrder(a: nat, b: nat)
    ensures a < b <==> FromBitIndex(a) < FromBitIndex(b)
  {
    if a < b {
      FromBitIndexIncreasing(a, b);
    } else if b < a {
      FromBitIndexIncreasing(b, a);
    }
  }

  lemma FromBitIndexIncreasing(a: nat, b: nat)
    requires a < b
    ensures FromBitIndex(a) < FromBitIndex(b)
  {
    if a / SIZE == b / SIZE {
      TrueAtBitIncreasing(a % SIZE, b % SIZE);
    } else {
      assert (a / SIZE + 1) * MODULO <= (b / SIZE) * MODULO;
    }
  }

  /** Positions do not decrease as the integer grows. */
  lemma BitIndexMonotone(m: nat, n: nat)
    requires m <= n
    ensures BitIndex(m).1 <= BitIndex(n).1
  {
    var a, b := BitIndex(m).1, BitIndex(n).1;
    FromBitIndexOrder(b, a);
    BitIndexNextRepresentable(m);
    BitIndexNextRepresentable(n);
    assert m <= FromBitIndex(b);
  }

  /** One period further on, the position is SIZE further on. */
  lemma BitIndexPeriodic(n: nat)
    ensures BitIndex(n + MODULO) == (BitIndex(n).0, BitIndex(n).1 + SIZE)
  {
    PeriodSplit(n / MODULO + 1, n % MODULO);
  }

  /**
    * The cursor after one marking step from state wi of WHEEL, for a prime
    * whose byte quotient (the prime divided by 30) is `prime`: the byte index
    * moves on by that quotient times the state's factor plus its correction,
    * and the state index moves on by the state's step, wrapping as `usize`.
    * The new state is the next one of the same spoke, cyclically.
    */
  function NextCursor(si: nat, wi: nat, prime: nat): (r: (nat, nat))
    requires wi < WHEEL_LENGTH
    ensures r.1 < WHEEL_LENGTH && r.1 / SIZE == wi / SIZE
    ensures r.1 % SIZE == (wi % SIZE + 1) % SIZE
    ensures si <= r.0
  {
    var e := WheelTable(wi);
    WheelTableStride(wi);
    (si + prime * e.nextMultFactor + e.correction, WrappingAdd(wi, e.next))
  }

  /**
    * `set_bit`: marks the bit of state wi in byte si of the sieve buffer and
    * returns the cursor moved on by one step. The byte is combined with the
    * state's mask by OR, so the bit is set and no other bit changes.
    */
  method SetBit(x: array<bv8>, si: nat, wi: nat, prime: nat) returns (si': nat, wi': nat)
    requires si < x.Length && wi < WHEEL_LENGTH
    modifies x
    ensures WheelTable(wi).bit < BYTE_SIZE
    ensures x[..] == old(x[..])[si := old(x[si]) | WheelTable(wi).UnsetBit()]
    ensures (si', wi') == NextCursor(si, wi, prime)
  {
    WheelTableStride(wi);
    var e := WheelTable(wi);
    x[si] := x[si] | e.UnsetBit();
    si' := si + prime * e.nextMultFactor;
    si' := si' + e.correction;
    wi' := WrappingAdd(wi, e.next);
  }

  lemma Distributes(p: int, a: int, b: int)
    ensures p * (a + b) == p * a + p * b
  {}

  /** The byte offset of a multiple, as `compute_wheel_elem` computes it, is its span of 30. */
  lemma ByteOffset(d: nat)
    ensures d * BYTE_SIZE / BYTE_MODULO / 8 == d / BYTE_MODULO
  {
    var q, m := d / BYTE_MODULO, d % BYTE_MODULO;
    assert d * BYTE_SIZE == 30 * (8 * q) + 8 * m;
    assert d * BYTE_SIZE / BYTE_MODULO == 8 * q + 8 * m / 30;
  }

  /** The spoke that WHEEL_OFFSETS gives a prime serves the prime's residue modulo 30. */
  lemma SpokeOfPrime(p: nat)
    ensures WHEEL_OFFSETS[p % BYTE_MODULO] < BYTE_SIZE
    ensures CoprimeTo30(p) ==> BYTE_RESIDUES[WHEEL_OFFSETS[p % BYTE_MODULO]] == p % BYTE_MODULO
    ensures !CoprimeTo30(p) ==> WHEEL_OFFSETS[p % BYTE_MODULO] == 0
  {
    WheelOffsetsBounds();
    WheelOffsetsSpokes();
    WheelOffsetsOthers();
    CoprimeTo30Mod(p);
  }

  /** The first state of spoke s. */
  lemma SpokeStart(s: nat)
    requires s < BYTE_SIZE
    ensures s * SIZE < WHEEL_LENGTH && (s * SIZE) / SIZE == s && (s * SIZE) % SIZE == 0
  {}

  /** INIT's factor for p leads to the least integer at or above p that is coprime to 210. */
  lemma FirstMultiplier(p: nat)
    ensures FromBitIndex(BitIndex(p).1) == p + InitTable(p % MODULO).nextMultFactor
  {
    InitNextCoprime(p % MODULO);
  }

  /** The byte offset that `compute_wheel_elem` computes is that of p times the first multiplier. */
  lemma FirstMultipleByte(p: nat, low: nat)
    requires low <= p * p + p * InitTable(p % MODULO).nextMultFactor
    ensures low <= p * FromBitIndex(BitIndex(p).1)
    ensures (p * p + p * InitTable(p % MODULO).nextMultFactor - low) * BYTE_SIZE / BYTE_MODULO / 8
      == (p * FromBitIndex(BitIndex(p).1) - low) / BYTE_MODULO
  {
    var nextMultFactor := InitTable(p % MODULO).nextMultFactor;
    FirstMultiplier(p);
    Distributes(p, p, nextMultFactor);
    ByteOffset(p * p + p * nextMultFactor - low);
  }

  /**
    * `compute_wheel_elem`: the cursor that starts sieving with prime p in a
    * buffer whose first byte starts at `low`. The first multiple is p times
    * the least integer at or above p that is coprime to 210; the byte index
    * is that multiple's span of 30 counted from `low`; the state index is the
    * first state of the spoke for p's residue modulo 30, and state 0 when p
    * has a factor 2, 3 or 5.
    */
  function ComputeWheelElem(p: nat, low: nat): (w: WheelInfo)
    requires low <= p * p + p * InitTable(p % MODULO).nextMultFactor
    ensures w.truePrime == p && w.prime == p / BYTE_MODULO
    ensures w.wheelIndex < WHEEL_LENGTH && w.wheelIndex % SIZE == 0
    ensures CoprimeTo30(p) ==> BYTE_RESIDUES[w.wheelIndex / SIZE] == p % BYTE_MODULO
    ensures !CoprimeTo30(p) ==> w.wheelIndex == 0
    ensures low <= p * FromBitIndex(BitIndex(p).1)
    ensures w.sieveIndex == (p * FromBitIndex(BitIndex(p).1) - low) / BYTE_MODULO
  {
    var mult := p * p;
    var init := InitTable(p % MODULO);
    var nextMultFactor := init.nextMultFactor;
    var mult := mult + p * nextMultFactor;
    var lowOffset := mult - low;
    var wheelIndex := WHEEL_OFFSETS[p % BYTE_MODULO] * SIZE;
    var sieveIndex := lowOffset * BYTE_SIZE / BYTE_MODULO / 8;
    SpokeOfPrime(p);
    SpokeStart(WHEEL_OFFSETS[p % BYTE_MODULO]);
    FirstMultipleByte(p, low);
    WheelInfo(p, p / BYTE_MODULO, sieveIndex, wheelIndex)
  }
}
