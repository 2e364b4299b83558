/**
 * The unsigned 64-bit word that backs a feature set, seen bit by bit.
 *
 * Bit positions are natural numbers below 64. The facts about the machine
 * operators (`|`, `&`, `~`, shifts) are first proved with the position held
 * as an 8-bit vector, where the solver reasons about them directly, and then
 * transferred to natural-number positions through the three conversion
 * lemmas below.
 */
module Word64 {

  /** Bit `k` of `w`, counting from the least significant bit. */
  predicate BitAt(w: bv64, k: bv8)
    requires k < 64
  {
    (w >> k) & 1 == 1
  }

  /** Bit `i` of `w`: the view every other module uses. */
  predicate Bit(w: bv64, i: nat)
    requires i < 64
  {
    BitAt(w, i as bv8)
  }

  /** The positions of the set bits of `w`. */
  ghost function Positions(w: bv64): set<nat>
  {
    PositionsFrom(w, 0)
  }

  /** The positions in `lo .. 63` whose bit is set. */
  ghost function PositionsFrom(w: bv64, lo: nat): set<nat>
  {
    set i: nat | lo <= i < 64 && Bit(w, i)
  }

  /** Membership in `Positions`, bit by bit. */
  lemma PositionsSpec(w: bv64)
    ensures forall i: nat :: i in Positions(w) <==> i < 64 && Bit(w, i)
  {
  }

  /** The positions below `n`. */
  function Range(n: nat): (r: set<nat>)
    ensures forall i: nat :: i in r <==> i < n
    ensures |r| == n
  {
    if n == 0 then {} else
      assert n - 1 !in Range(n - 1);
      Range(n - 1) + {n - 1}
  }

  /** The word with only bit `i` set: `UINT64_C(1) << i`. */
  function SingleBit(i: nat): (w: bv64)
    requires i < 64
    ensures Positions(w) == {i}
  {
    var w := (1 as bv64) << (i as bv8);
    SingleBitSpec(i, w);
    w
  }

  /** The word with exactly bits `0 .. n-1` set: `(UINT64_C(1) << n) - 1`. */
  function LowMask(n: nat): (w: bv64)
    requires n < 64
    ensures Positions(w) == Range(n)
  {
    var w := ((1 as bv64) << (n as bv8)) - 1;
    LowMaskIsBelowMask(n as bv8);
    BelowMaskPositions(n);
    w
  }

  // ---------------------------------------------------------------------
  // Conversions between natural-number and 8-bit positions.

  lemma ToBvToNat(i: nat)
    requires i < 64
    ensures (i as bv8) as nat == i
  {
  }

  lemma BvLessIsNatLess(k: bv8, l: bv8)
    ensures (k < l) <==> (k as nat < l as nat)
  {
  }

  lemma ToBvMonotone(i: nat, j: nat)
    requires i < 64 && j < 64
    ensures (i as bv8 < j as bv8) <==> i < j
    ensures (i as bv8 == j as bv8) <==> i == j
  {
    ToBvToNat(i);
    ToBvToNat(j);
    BvLessIsNatLess(i as bv8, j as bv8);
  }

  // ---------------------------------------------------------------------
  // Bit-level facts about the machine operators.

  lemma ZeroPositions()
    ensures Positions(0) == {}
  {
    PositionsSpec(0);
    forall i: nat | i < 64
      ensures !Bit(0, i)
    {
      ZeroBitAt(i as bv8);
    }
  }

  lemma ZeroBitAt(k: bv8)
    requires k < 64
    ensures !BitAt(0, k)
  {
  }

  lemma OrBitAt(a: bv64, b: bv64, k: bv8)
    requires k < 64
    ensures BitAt(a | b, k) <==> BitAt(a, k) || BitAt(b, k)
  {
  }

  lemma AndBitAt(a: bv64, b: bv64, k: bv8)
    requires k < 64
    ensures BitAt(a & b, k) <==> BitAt(a, k) && BitAt(b, k)
  {
  }

  lemma AndNotBitAt(a: bv64, b: bv64, k: bv8)
    requires k < 64
    ensures BitAt(a & !b, k) <==> BitAt(a, k) && !BitAt(b, k)
  {
  }

  lemma OrPositions(a: bv64, b: bv64)
    ensures Positions(a | b) == Positions(a) + Positions(b)
  {
    PositionsSpec(a);
    PositionsSpec(b);
    PositionsSpec(a | b);
    forall i: nat | i < 64
      ensures Bit(a | b, i) <==> Bit(a, i) || Bit(b, i)
    {
      OrBitAt(a, b, i as bv8);
    }
  }

  lemma AndPositions(a: bv64, b: bv64)
    ensures Positions(a & b) == Positions(a) * Positions(b)
  {
    PositionsSpec(a);
    PositionsSpec(b);
    PositionsSpec(a & b);
    forall i: nat | i < 64
      ensures Bit(a & b, i) <==> Bit(a, i) && Bit(b, i)
    {
      AndBitAt(a, b, i as bv8);
    }
  }

  lemma AndNotPositions(a: bv64, b: bv64)
    ensures Positions(a & !b) == Positions(a) - Positions(b)
  {
    PositionsSpec(a);
    PositionsSpec(b);
    PositionsSpec(a & !b);
    forall i: nat | i < 64
      ensures Bit(a & !b, i) <==> Bit(a, i) && !Bit(b, i)
    {
      AndNotBitAt(a, b, i as bv8);
    }
  }

  lemma SingleBitAt(l: bv8, k: bv8)
    requires l < 64 && k < 64
    ensures BitAt((1 as bv64) << l, k) <==> k == l
  {
  }

  lemma SingleBitSpec(i: nat, w: bv64)
    requires i < 64 && w == (1 as bv64) << (i as bv8)
    ensures Positions(w) == {i}
  {
    PositionsSpec(w);
    forall j: nat | j < 64
      ensures Bit(w, j) <==> j == i
    {
      SingleBitAt(i as bv8, j as bv8);
      ToBvMonotone(i, j);
    }
  }

  /** The word whose set bits are exactly those below `k`, written without subtraction. */
  function BelowMask(k: bv8): bv64
    requires k <= 64
  {
    !((!(0 as bv64)) << k)
  }

  lemma LowMaskIsBelowMask(m: bv8)
    requires m < 64
    ensures ((1 as bv64) << m) - 1 == BelowMask(m)
  {
  }

  lemma BelowMaskBitAt(m: bv8, k: bv8)
    requires m < 64 && k < 64
    ensures BitAt(BelowMask(m), k) <==> k < m
  {
    HighBitAt(m, k);
    NotBitAt((!(0 as bv64)) << m, k);
  }

  lemma HighBitAt(m: bv8, k: bv8)
    requires m < 64 && k < 64
    ensures BitAt((!(0 as bv64)) << m, k) <==> m <= k
  {
  }

  lemma NotBitAt(a: bv64, k: bv8)
    requires k < 64
    ensures BitAt(!a, k) <==> !BitAt(a, k)
  {
  }

  lemma BelowMaskPositions(n: nat)
    requires n < 64
    ensures Positions(BelowMask(n as bv8)) == Range(n)
  {
    var w := BelowMask(n as bv8);
    PositionsSpec(w);
    forall j: nat | j < 64
      ensures Bit(w, j) <==> j < n
    {
      BelowMaskBit(n, j);
    }
  }

  lemma BelowMaskBit(n: nat, j: nat)
    requires n < 64 && j < 64
    ensures Bit(BelowMask(n as bv8), j) <==> j < n
  {
    BelowMaskBitAt(n as bv8, j as bv8);
    ToBvMonotone(n, j);
  }

  // ---------------------------------------------------------------------
  // A word is determined by its 64 bits.

  lemma NatToBvToNat(k: bv8)
    ensures (k as nat) as bv8 == k
  {
  }

  lemma BvSuccToNat(k: bv8)
    requires k < 64
    ensures (k + 1) as nat == k as nat + 1
  {
  }

  lemma SuccToBv(i: nat)
    requires i < 64
    ensures (i + 1) as bv8 == (i as bv8) + 1
  {
    var k := i as bv8;
    ToBvToNat(i);
    BvSuccToNat(k);
    NatToBvToNat(k + 1);
  }

  /** Adding bit `k` to the mask of the bits below `k` gives the mask of the bits below `k + 1`. */
  lemma BelowMaskStep(k: bv8)
    requires k < 64
    ensures BelowMask(k) | ((1 as bv64) << k) == BelowMask(k + 1)
  {
  }

  lemma ClearStep(x: bv64, k: bv8, l: bv8)
    requires k < 64 && l == k + 1
    requires x & BelowMask(k) == 0 && !BitAt(x, k)
    ensures x & BelowMask(l) == 0
  {
    SingleBitAnd(x, k);
    AndOrZero(x, BelowMask(k), (1 as bv64) << k);
    BelowMaskStep(k);
  }

  lemma SingleBitAnd(x: bv64, k: bv8)
    requires k < 64
    ensures x & ((1 as bv64) << k) == 0 <==> !BitAt(x, k)
  {
  }

  lemma AndOrZero(x: bv64, a: bv64, b: bv64)
    requires x & a == 0 && x & b == 0
    ensures x & (a | b) == 0
  {
  }

  /** If bits `0 .. i-1` of `x` are clear, `x` shares no bit with the mask of the bits below `i`. */
  lemma {:induction false} ClearBelow(x: bv64, i: nat)
    requires i <= 64
    requires forall j: nat :: j < i ==> !Bit(x, j)
    ensures x & BelowMask(i as bv8) == 0
  {
    if i > 0 {
      var k := i - 1;
      ClearBelow(x, k);
      assert !Bit(x, k);
      SuccToBv(k);
      ClearStep(x, k as bv8, i as bv8);
    }
  }

  /** A word none of whose bits is set is zero. */
  lemma NoBitsIsZero(w: bv64)
    requires forall i: nat :: i < 64 ==> !Bit(w, i)
    ensures w == 0
  {
    ClearBelow(w, 64);
  }

  lemma XorBitAt(a: bv64, b: bv64, k: bv8)
    requires k < 64
    ensures BitAt(a ^ b, k) <==> BitAt(a, k) != BitAt(b, k)
  {
  }

  lemma XorZero(a: bv64, b: bv64)
    requires a ^ b == 0
    ensures a == b
  {
  }

  /** Two words with the same set bits are the same word. */
  lemma PositionsDetermineWord(a: bv64, b: bv64)
    requires Positions(a) == Positions(b)
    ensures a == b
  {
    var x := a ^ b;
    PositionsSpec(a);
    PositionsSpec(b);
    forall i: nat | i < 64
      ensures !Bit(x, i)
    {
      assert i in Positions(a) <==> i in Positions(b);
      XorBitAt(a, b, i as bv8);
    }
    NoBitsIsZero(x);
    XorZero(a, b);
  }

  // ---------------------------------------------------------------------
  // Population count and trailing zeros, specified bit by bit.

  /** Number of set bits among positions `lo .. 63`. */
  function PopCountFrom(w: bv64, lo: nat): (c: nat)
    requires lo <= 64
    ensures c == |PositionsFrom(w, lo)|
    decreases 64 - lo
  {
    if lo == 64 then
      assert PositionsFrom(w, lo) == {};
      0
    else
      assert PositionsFrom(w, lo) == (if Bit(w, lo) then {lo} else {}) + PositionsFrom(w, lo + 1);
      (if Bit(w, lo) then 1 else 0) + PopCountFrom(w, lo + 1)
  }

  /** `CountSetBits`: the number of bits set in the whole word. */
  function PopCount(w: bv64): (c: nat)
    ensures c == |Positions(w)|
  {
    PopCountFrom(w, 0)
  }

  /** The lowest set bit at position `lo` or above, or 64 when there is none. */
  function LowestSetBitFrom(w: bv64, lo: nat): (r: nat)
    requires lo <= 64
    ensures lo <= r <= 64
    ensures r < 64 ==> Bit(w, r)
    ensures forall j: nat :: lo <= j < r ==> !Bit(w, j)
    decreases 64 - lo
  {
    if lo == 64 || Bit(w, lo) then lo else LowestSetBitFrom(w, lo + 1)
  }

  /** A non-zero word has a set bit. */
  lemma NonZeroHasLowestBit(w: bv64)
    ensures LowestSetBitFrom(w, 0) == 64 ==> w == 0
  {
    if LowestSetBitFrom(w, 0) == 64 {
      NoBitsIsZero(w);
    }
  }

  /** `CountTrailingZeros` of a non-zero word: the position of its lowest set bit. */
  function CountTrailingZeros(w: bv64): (r: nat)
    requires w != 0
    ensures r in Positions(w)
    ensures forall j :: j in Positions(w) ==> r <= j
  {
    NonZeroHasLowestBit(w);
    PositionsSpec(w);
    LowestSetBitFrom(w, 0)
  }
}
