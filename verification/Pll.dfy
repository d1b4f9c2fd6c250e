/** The PLL parameter search of the K210 (dependency/k210-soc/src/sysctl/pll_compute.rs). */
module Pll {
  import opened Bits
  import opened Options

  const VCO_MIN: nat := 340_000_000
  const VCO_MAX: nat := 1_750_000_000
  const ONE: nat := 0x1_0000_0000 // 1.0 in 32.32 fixed point

  // ---------------------------------------------------------------- the table of factors

  /** Column `r` of the table FACTORS. */
  function R(i: nat): nat {
    if i < 10 then
      (match i
       case 0 => 1 case 1 => 1 case 2 => 1 case 3 => 1 case 4 => 1
       case 5 => 1 case 6 => 1 case 7 => 1 case 8 => 1 case _ => 3)
    else if i < 20 then
      (match i
       case 10 => 1 case 11 => 1 case 12 => 1 case 13 => 3 case 14 => 1
       case 15 => 1 case 16 => 1 case 17 => 3 case 18 => 1 case _ => 4)
    else if i < 30 then
      (match i
       case 20 => 2 case 21 => 2 case 22 => 3 case 23 => 2 case 24 => 2
       case 25 => 5 case 26 => 2 case 27 => 3 case 28 => 2 case _ => 2)
    else if i < 40 then
      (match i
       case 30 => 2 case 31 => 3 case 32 => 5 case 33 => 3 case 34 => 3
       case 35 => 4 case 36 => 3 case 37 => 4 case 38 => 3 case _ => 3)
    else if i < 50 then
      (match i
       case 40 => 7 case 41 => 5 case 42 => 4 case 43 => 6 case 44 => 5
       case 45 => 4 case 46 => 4 case 47 => 7 case 48 => 4 case _ => 5)
    else if i < 60 then
      (match i
       case 50 => 6 case 51 => 5 case 52 => 6 case 53 => 5 case 54 => 7
       case 55 => 6 case 56 => 5 case 57 => 9 case 58 => 6 case _ => 8)
    else if i < 70 then
      (match i
       case 60 => 6 case 61 => 7 case 62 => 6 case 63 => 7 case 64 => 9
       case 65 => 10 case 66 => 8 case 67 => 7 case 68 => 9 case _ => 10)
    else if i < 80 then
      (match i
       case 70 => 7 case 71 => 9 case 72 => 8 case 73 => 11 case 74 => 9
       case 75 => 8 case 76 => 10 case 77 => 11 case 78 => 9 case _ => 10)
    else if i < 90 then
      (match i
       case 80 => 11 case 81 => 9 case 82 => 10 case 83 => 11 case 84 => 12
       case 85 => 10 case 86 => 11 case 87 => 12 case 88 => 13 case _ => 11)
    else if i < 100 then
      (match i
       case 90 => 12 case 91 => 13 case 92 => 12 case 93 => 13 case 94 => 14
       case 95 => 13 case 96 => 14 case 97 => 14 case 98 => 15 case _ => 15)
    else 16
  }

  /** Column `od` of the table. */
  function Od(i: nat): nat {
    if i < 10 then
      (match i
       case 0 => 1 case 1 => 2 case 2 => 3 case 3 => 4 case 4 => 5
       case 5 => 6 case 6 => 7 case 7 => 8 case 8 => 9 case _ => 3)
    else if i < 20 then
      (match i
       case 10 => 10 case 11 => 11 case 12 => 12 case 13 => 4 case 14 => 13
       case 15 => 14 case 16 => 15 case 17 => 5 case 18 => 16 case _ => 4)
    else if i < 30 then
      (match i
       case 20 => 9 case 21 => 10 case 22 => 7 case 23 => 11 case 24 => 12
       case 25 => 5 case 26 => 13 case 27 => 9 case 28 => 14 case _ => 15)
    else if i < 40 then
      (match i
       case 30 => 16 case 31 => 11 case 32 => 7 case 33 => 12 case 34 => 13
       case 35 => 10 case 36 => 14 case 37 => 11 case 38 => 15 case _ => 16)
    else if i < 50 then
      (match i
       case 40 => 7 case 41 => 10 case 42 => 13 case 43 => 9 case 44 => 11
       case 45 => 14 case 46 => 15 case 47 => 9 case 48 => 16 case _ => 13)
    else if i < 60 then
      (match i
       case 50 => 11 case 51 => 14 case 52 => 12 case 53 => 15 case 54 => 11
       case 55 => 13 case 56 => 16 case 57 => 9 case 58 => 14 case _ => 11)
    else if i < 70 then
      (match i
       case 60 => 15 case 61 => 13 case 62 => 16 case 63 => 14 case 64 => 11
       case 65 => 10 case 66 => 13 case 67 => 15 case 68 => 12 case _ => 11)
    else if i < 80 then
      (match i
       case 70 => 16 case 71 => 13 case 72 => 15 case 73 => 11 case 74 => 14
       case 75 => 16 case 76 => 13 case 77 => 12 case 78 => 15 case _ => 14)
    else if i < 90 then
      (match i
       case 80 => 13 case 81 => 16 case 82 => 15 case 83 => 14 case 84 => 13
       case 85 => 16 case 86 => 15 case 87 => 14 case 88 => 13 case _ => 16)
    else if i < 100 then
      (match i
       case 90 => 15 case 91 => 14 case 92 => 16 case 93 => 15 case 94 => 14
       case 95 => 16 case 96 => 15 case 97 => 16 case 98 => 15 case _ => 16)
    else 16
  }

  /** What a pair divides by. */
  function Times(r: nat, od: nat): nat {
    r * od
  }

  function Product(i: nat): nat {
    Times(R(i), Od(i))
  }

  /** `pack`: two four-bit fields in a byte. */
  function Pack(r: nat, od: nat): nat
    requires r >= 1 && od >= 1
  {
    Or(Shl(And(r - 1, 15), 4), And(od - 1, 15))
  }

  function UnpackR(packed: nat): nat {
    And(Shr(packed, 4), 15) + 1
  }

  function UnpackOd(packed: nat): nat {
    And(packed, 15) + 1
  }

  lemma PackRoundTrip(r: nat, od: nat)
    requires 1 <= r <= 16 && 1 <= od <= 16
    ensures UnpackR(Pack(r, od)) == r && UnpackOd(Pack(r, od)) == od && Pack(r, od) < 256
  {
    hide And, Or;
    assert Pow2(4) == 16;
    AndMask(r - 1, 4);
    AndMask(od - 1, 4);
    UnpackFields(r - 1, od - 1, 4);
    OrPack(r - 1, od - 1, 4);
    AndMask(r - 1, 4);
  }

  /** What the cursor yields at table position `i`. */
  function Factor(i: nat): nat
    requires i < 101
  {
    FactorRange(i);
    Pack(R(i), Od(i))
  }

  lemma FactorRange(i: nat)
    ensures 1 <= R(i) <= 16 && 1 <= Od(i) <= 16
  {
  }

  lemma ProductRange(i: nat)
    ensures 1 <= Product(i) <= 256
  {
    hide R, Od;
    FactorRange(i);
    MulRange(R(i), Od(i));
  }

  lemma MulRange(r: nat, od: nat)
    requires 1 <= r <= 16 && 1 <= od <= 16
    ensures 1 <= Times(r, od) <= 256
  {
  }

  lemma FactorReads(i: nat)
    requires i < 101
    ensures UnpackR(Factor(i)) == R(i) && UnpackOd(Factor(i)) == Od(i)
  {
    hide Pack, UnpackR, UnpackOd, R, Od;
    FactorRange(i);
    PackRoundTrip(R(i), Od(i));
  }

  lemma StepsLow(i: nat)
    requires i < 34
    ensures Product(i) <= Product(i + 1)
  {
  }

  lemma StepsMid(i: nat)
    requires 34 <= i < 67
    ensures Product(i) <= Product(i + 1)
  {
  }

  lemma StepsHigh(i: nat)
    requires 67 <= i < 100
    ensures Product(i) <= Product(i + 1)
  {
  }

  /** The table is ordered by product. */
  lemma {:induction false} TableSorted(i: nat, j: nat)
    requires i <= j < 101
    ensures Product(i) <= Product(j)
    decreases j
  {
    hide Product;
    if i < j {
      TableSorted(i, j - 1);
      if j - 1 < 34 { StepsLow(j - 1); } else if j - 1 < 67 { StepsMid(j - 1); } else { StepsHigh(j - 1); }
    }
  }

  /** Where the products of `r` with `r`, `r + 1` and so on up to 16 are in the table. */
  function Slots(r: nat): seq<nat> {
    match r
    case 1 => [0, 1, 2, 3, 4, 5, 6, 7, 8, 10, 11, 12, 14, 15, 16, 18]
    case 2 => [3, 5, 7, 10, 12, 15, 18, 20, 21, 23, 24, 26, 28, 29, 30]
    case 3 => [8, 12, 16, 20, 22, 24, 27, 29, 31, 33, 34, 36, 38, 39]
    case 4 => [18, 21, 24, 28, 30, 33, 35, 37, 39, 42, 45, 46, 48]
    case 5 => [25, 29, 32, 35, 38, 41, 44, 46, 49, 51, 53, 56]
    case 6 => [33, 36, 39, 43, 46, 50, 52, 55, 58, 60, 62]
    case 7 => [40, 45, 47, 51, 54, 58, 61, 63, 67, 70]
    case 8 => [48, 52, 56, 59, 62, 66, 70, 72, 75]
    case 9 => [57, 60, 64, 68, 71, 74, 78, 81]
    case 10 => [65, 69, 72, 76, 79, 82, 85]
    case 11 => [73, 77, 80, 83, 86, 89]
    case 12 => [81, 84, 87, 90, 92]
    case 13 => [88, 91, 93, 95]
    case 14 => [94, 96, 97]
    case 15 => [98, 99]
    case _ => [100]
  }

  lemma SlotsFrom1(r: nat, od: nat)
    requires 1 <= r <= 2 && r <= od <= 16
    ensures |Slots(r)| == 17 - r && Slots(r)[od - r] < 101 && Product(Slots(r)[od - r]) == r * od
  {
  }

  lemma SlotsFrom3(r: nat, od: nat)
    requires 3 <= r <= 5 && r <= od <= 16
    ensures |Slots(r)| == 17 - r && Slots(r)[od - r] < 101 && Product(Slots(r)[od - r]) == r * od
  {
  }

  lemma SlotsFrom6(r: nat, od: nat)
    requires 6 <= r <= 9 && r <= od <= 16
    ensures |Slots(r)| == 17 - r && Slots(r)[od - r] < 101 && Product(Slots(r)[od - r]) == r * od
  {
  }

  lemma SlotsFrom10(r: nat, od: nat)
    requires 10 <= r <= 16 && r <= od <= 16
    ensures |Slots(r)| == 17 - r && Slots(r)[od - r] < 101 && Product(Slots(r)[od - r]) == r * od
  {
  }

  /** Every product of two numbers from 1 to 16 is in the table. */
  lemma TableComplete(r: nat, od: nat) returns (i: nat)
    requires 1 <= r <= 16 && 1 <= od <= 16
    ensures i < 101 && Product(i) == r * od
  {
    hide Slots, Product;
    var a, b := if r <= od then r else od, if r <= od then od else r;
    if a <= 2 { SlotsFrom1(a, b); } else if a <= 5 { SlotsFrom3(a, b); } else if a <= 9 { SlotsFrom6(a, b); } else {
      SlotsFrom10(a, b);
    }
    i := Slots(a)[b - a];
  }

  /** Every power of two up to 256 is a product, so a product lies within a factor of two above any goal. */
  lemma ProductNear(goal: nat) returns (i: nat)
    requires 1 <= goal <= 256
    ensures i < 101 && goal <= Product(i) < 2 * goal
  {
    i := if goal == 1 then 0 else if goal == 2 then 1 else if goal <= 4 then 3 else if goal <= 8 then 7
         else if goal <= 16 then 18 else if goal <= 32 then 30 else if goal <= 64 then 48 else if goal <= 128 then 75
                 else 100;
  }

  // ---------------------------------------------------------------- limits and error

  /** `div_round_closest`. */
  function DivRound(n: nat, d: nat): nat
    requires d > 0
  {
    (n + d / 2) / d
  }

  function Distance(a: int, b: int): nat {
    if a < b then b - a else a - b
  }

  /** The divided clock and the VCO stay within their limits; `od` plays no part. */
  predicate InSpec(freqIn: nat, f: nat, r: nat) {
    1 <= r <= freqIn / 13_300_000 && VCO_MIN <= DivRound(freqIn * f, r) <= VCO_MAX
  }

  /** The relative error of `f / product` against the wanted ratio, without its lower 16 bits. */
  function ErrorOf(f: nat, invRatio: nat, product: nat): nat
    requires product > 0
  {
    var e := DivRound(f * invRatio, product);
    (if e >= ONE then e - ONE else ONE - e) / 0x1_0000
  }

  /** A setting within the VCO's limits never needs more than 131 for `f`, so eight bits hold `f - 1`. */
  lemma FeedbackBound(freqIn: nat, f: nat, r: nat)
    requires InSpec(freqIn, f, r)
    ensures f <= 131
  {
    var vco := DivRound(freqIn * f, r);
    assert freqIn * f < (vco + 1) * r by { DivBounds(freqIn * f + r / 2, r); }
    assert (vco + 1) * r <= (VCO_MAX + 1) * r by { MulMonotone(vco + 1, VCO_MAX + 1, r); }
    assert freqIn >= 13_300_000 * r;
    assert freqIn * f >= 13_300_000 * r * f by { MulMonotone(13_300_000 * r, freqIn, f); }
    if f >= 132 {
      MulMonotone(132, f, 13_300_000 * r);
      assert false;
    }
  }

  lemma DivBounds(n: nat, d: nat)
    requires d > 0
    ensures n / d * d <= n < (n / d + 1) * d
  {
    assert n == n / d * d + n % d;
  }

  lemma MulMonotone(a: nat, b: nat, c: nat)
    requires a <= b
    ensures a * c <= b * c
  {
  }

  datatype Params = Params(clkr: nat, clkf: nat, clkod: nat, bwadj: nat)

  /** The parameters fit their registers, and the divided clock and the VCO stay within limits. */
  ghost predicate WithinLimits(freqIn: nat, p: Params) {
    p.clkr <= 15 && p.clkod <= 15 && p.clkf <= 130 && p.bwadj == p.clkf && InSpec(freqIn, p.clkf + 1, p.clkr + 1)
  }

  /** The limits in hertz, the VCO's up to rounding: what is divided by `clkr + 1` is at least 13.3 MHz, and times
      `clkf + 1` from 340 MHz to 1.75 GHz. */
  lemma LimitsInHertz(freqIn: nat, p: Params)
    requires WithinLimits(freqIn, p)
    ensures p.clkr < 16 && p.clkod < 16 && p.clkf < 131 && p.bwadj == p.clkf && freqIn >= 13_300_000 * (p.clkr + 1)
    ensures var r, vco := p.clkr + 1, freqIn * (p.clkf + 1);
            (2 * 340_000_000 - 1) * r <= 2 * vco <= (2 * 1_750_000_000 + 1) * r
  {
    VcoInHertz(freqIn, p.clkf + 1, p.clkr + 1);
  }

  lemma VcoInHertz(freqIn: nat, f: nat, r: nat)
    requires InSpec(freqIn, f, r)
    ensures freqIn >= 13_300_000 * r && (2 * 340_000_000 - 1) * r <= 2 * (freqIn * f) <= (2 * 1_750_000_000 + 1) * r
  {
    var n := freqIn * f;
    RoundNear(n, r);
    MulMonotone(340_000_000, DivRound(n, r), r);
    MulMonotone(DivRound(n, r), 1_750_000_000, r);
  }

  lemma RoundNear(n: nat, d: nat)
    requires d > 0
    ensures 2 * Distance(DivRound(n, d) * d, n) <= d
  {
    DivBounds(n + d / 2, d);
  }

  function Divisor(p: Params): (d: nat)
    ensures d > 0
  {
    (p.clkr + 1) * (p.clkod + 1)
  }

  function ParamsError(p: Params, invRatio: nat): nat {
    ErrorOf(p.clkf + 1, invRatio, Divisor(p))
  }

  /** The best setting so far is within limits and has error `e`. */
  ghost predicate Sound(freqIn: nat, invRatio: nat, best: Option<Params>, e: int) {
    best.Some? ==> WithinLimits(freqIn, best.value) && e == ParamsError(best.value, invRatio)
  }

  // ---------------------------------------------------------------- enforcing the limits

  datatype Outcome = Scored | Rejected | Exhausted

  /** The pair looked at last, as it stands. */
  ghost function LastLook(r0: nat, od0: nat, cursor0: nat, cursor: nat): (nat, nat) {
    if cursor <= cursor0 then (r0, od0) else (R(cursor - 1), Od(cursor - 1))
  }

  /** The arrangements are looked at in order: the pair given, then the entries up to `cursor`, each first as it stands
      and then swapped. This one is the first within limits. */
  ghost predicate FirstFit(freqIn: nat, f: nat, r0: nat, od0: nat, cursor0: nat, r: nat, od: nat, cursor: nat)
    requires cursor0 <= cursor <= 101
  {
    var (a, b) := LastLook(r0, od0, cursor0, cursor);
    && InSpec(freqIn, f, r) && ((r, od) == (a, b) || ((r, od) == (b, a) && !InSpec(freqIn, f, a)))
    && (cursor > cursor0 ==> !InSpec(freqIn, f, r0) && !InSpec(freqIn, f, od0))
    && (forall j | cursor0 <= j < cursor - 1 :: !InSpec(freqIn, f, R(j)) && !InSpec(freqIn, f, Od(j)))
  }

  /** The pair found has the product asked for. It is the first within limits, or no arrangement of that product in the
      rest of the table is. */
  ghost predicate Enforced(freqIn: nat, f: nat, r0: nat, od0: nat, cursor0: nat, r: nat, od: nat, cursor: nat,
                           outcome: Outcome) {
    && 1 <= r <= 16 && 1 <= od <= 16 && Times(r, od) == Times(r0, od0) && cursor0 <= cursor <= 101
    && (forall j | cursor0 <= j < cursor :: Product(j) == Times(r0, od0))
    && (outcome == Scored ==> InSpec(freqIn, f, r) && FirstFit(freqIn, f, r0, od0, cursor0, r, od, cursor))
    && (outcome != Scored ==> (od, r) == LastLook(r0, od0, cursor0, cursor))
    && (outcome != Scored ==> !InSpec(freqIn, f, r0) && !InSpec(freqIn, f, od0))
    && (outcome != Scored ==> forall j | cursor0 <= j < cursor :: !InSpec(freqIn, f, R(j)) && !InSpec(freqIn, f, Od(j)))
    && (outcome == Rejected ==> cursor < 101 && Product(cursor) != Times(r0, od0))
    && (outcome == Exhausted ==> cursor == 101)
  }

  /** The inner loop: try the pair, then the pair swapped, then further pairs of the same product. */
  method Enforce(freqIn: nat, f: nat, r0: nat, od0: nat, cursor0: nat)
    returns (r: nat, od: nat, cursor: nat, outcome: Outcome)
    requires 1 <= r0 <= 16 && 1 <= od0 <= 16 && cursor0 <= 101
    ensures Enforced(freqIn, f, r0, od0, cursor0, r, od, cursor, outcome)
  {
    hide InSpec, R, Od, Factor, UnpackR, UnpackOd;
    r, od, cursor := r0, od0, cursor0;
    var swapped := false;
    while true
      invariant 1 <= r <= 16 && 1 <= od <= 16 && Times(r, od) == Times(r0, od0) && cursor0 <= cursor <= 101
      invariant forall j | cursor0 <= j < cursor :: Product(j) == Times(r0, od0)
      invariant swapped ==> !InSpec(freqIn, f, od)
      invariant !swapped ==> (if cursor == cursor0 then r == r0 && od == od0
                              else r == R(cursor - 1) && od == Od(cursor - 1))
      invariant swapped ==> (if cursor == cursor0 then r == od0 && od == r0
                             else r == Od(cursor - 1) && od == R(cursor - 1))
      invariant cursor > cursor0 ==> !InSpec(freqIn, f, r0) && !InSpec(freqIn, f, od0)
      invariant forall j | cursor0 <= j < cursor - 1 :: !InSpec(freqIn, f, R(j)) && !InSpec(freqIn, f, Od(j))
      decreases 101 - cursor, !swapped
    {
      if InSpec(freqIn, f, r) {
        return r, od, cursor, Scored;
      }
      if !swapped {
        r, od, swapped := od, r, true;
      } else if cursor < 101 {
        FactorReads(cursor);
        FactorRange(cursor);
        var newR, newOd := UnpackR(Factor(cursor)), UnpackOd(Factor(cursor));
        if Times(r, od) == Times(newR, newOd) {
          cursor, r, od, swapped := cursor + 1, newR, newOd, false;
        } else {
          return r, od, cursor, Rejected;
        }
      } else {
        return r, od, cursor, Exhausted;
      }
    }
  }

  // ---------------------------------------------------------------- raising the frequency

  /** The feedback factor for a product when the frequency is to be raised: rounded, and at most 64. */
  function FeedbackFor(product: nat, ratio: nat): nat {
    var f := (product * ratio + 0x8000_0000) / ONE;
    if f > 64 then 64 else f
  }

  /** It is the whole number nearest to the product times the ratio, or 64 if that is less. */
  lemma FeedbackNearest(product: nat, ratio: nat)
    ensures FeedbackFor(product, ratio) < 64 ==>
              2 * Distance(0x1_0000_0000 * FeedbackFor(product, ratio), product * ratio) <= 0x1_0000_0000
    ensures FeedbackFor(product, ratio) <= 64
    ensures FeedbackFor(product, ratio) == 64 ==> 2 * (product * ratio) >= 127 * 0x1_0000_0000
  {
    DivBounds(product * ratio + 0x8000_0000, ONE);
  }

  /** Some factorization of the product in the table, or its swap, is within limits. */
  ghost predicate Arranged(freqIn: nat, f: nat, product: nat) {
    exists j :: 0 <= j < 101 && Product(j) == product && (InSpec(freqIn, f, R(j)) || InSpec(freqIn, f, Od(j)))
  }

  ghost predicate Feasible(freqIn: nat, ratio: nat, product: nat) {
    Arranged(freqIn, FeedbackFor(product, ratio), product)
  }

  /** Whatever `r`, `od` and `f` are within limits, the table has factors with the same product that are. */
  ghost predicate TableSuffices(freqIn: nat) {
    forall r: nat, od: nat, f: nat {:trigger InSpec(freqIn, f, r), Times(r, od)} |
      1 <= r <= 16 && 1 <= od <= 16 && f <= 64 && InSpec(freqIn, f, r) :: Arranged(freqIn, f, Times(r, od))
  }

  lemma OneInTable(od: nat) returns (j: nat)
    requires 1 <= od <= 16
    ensures j < 101 && R(j) == 1 && Od(j) == od
  {
    j := Slots(1)[od - 1];
  }

  lemma TwoInTable(od: nat) returns (j: nat)
    requires 9 <= od <= 16
    ensures j < 101 && R(j) == 2 && Od(j) == od
  {
    j := Slots(2)[od - 2];
  }

  lemma OnlyFourteen(j: nat)
    requires j < 101 && Product(j) == 14
    ensures R(j) == 1 && Od(j) == 14
  {
    assert Product(15) == 14 && R(15) == 1 && Od(15) == 14 && Product(14) == 13 && Product(16) == 15;
    hide Product, R, Od;
    if j < 15 { TableSorted(j, 14); }
    if j > 15 { TableSorted(16, j); }
  }

  /** Half the VCO's rate is within limits at `r = 2`, and the whole of it at `r = 1`. */
  lemma OneForTwo(freqIn: nat, f: nat)
    requires freqIn <= 27_343_750 && f <= 64 && InSpec(freqIn, f, 2)
    ensures InSpec(freqIn, f, 1)
  {
    MulMonotone(f, 64, freqIn);
  }

  lemma SufficesBelow(freqIn: nat, r: nat, od: nat, f: nat)
    requires freqIn <= 27_343_750 && 1 <= r <= 16 && 1 <= od <= 16 && f <= 64 && InSpec(freqIn, f, r)
    ensures Arranged(freqIn, f, Times(r, od))
  {
    hide R, Od;
    assert r <= 2;
    if r == 1 {
      var j := OneInTable(od);
      assert Product(j) == Times(r, od);
    } else if od <= 8 {
      var j := OneInTable(2 * od);
      OneForTwo(freqIn, f);
      assert Product(j) == Times(r, od);
    } else {
      var j := TwoInTable(od);
      assert Product(j) == Times(r, od);
    }
  }

  /** The feedback factor that takes the clock just above the VCO's limit. */
  lemma FailsAbove(freqIn: nat) returns (f: nat)
    requires 27_343_750 < freqIn <= 1_750_000_000
    ensures 1 <= f <= 64 && InSpec(freqIn, f, 2) && !Arranged(freqIn, f, 14)
  {
    f := 1_750_000_000 / freqIn + 1;
    DivBounds(1_750_000_000, freqIn);
    assert f <= 64 by { if f >= 65 { MulMonotone(64, f - 1, freqIn); assert false; } }
    assert (f - 1) * freqIn == freqIn * f - freqIn;
    assert 1_750_000_000 < freqIn * f <= 3_500_000_000;
    forall j | 0 <= j < 101 && Product(j) == 14 ensures !InSpec(freqIn, f, R(j)) && !InSpec(freqIn, f, Od(j)) {
      OnlyFourteen(j);
    }
  }

  /** The table leaves out factorizations that, its comment says, would make no difference to the limits. That holds
      exactly up to 27.34375 MHz, such as for the 26 MHz crystal. */
  lemma TableSufficesExactly(freqIn: nat)
    requires freqIn <= 1_750_000_000
    ensures TableSuffices(freqIn) <==> freqIn <= 27_343_750
  {
    hide Arranged, InSpec;
    if freqIn <= 27_343_750 {
      forall r: nat, od: nat, f: nat | 1 <= r <= 16 && 1 <= od <= 16 && f <= 64 && InSpec(freqIn, f, r)
        ensures Arranged(freqIn, f, Times(r, od))
      {
        SufficesBelow(freqIn, r, od, f);
      }
    } else {
      var f := FailsAbove(freqIn);
      assert Times(2, 7) == 14;
    }
  }

  /** The best setting so far is at least as good as this product's, if the product is feasible. */
  ghost predicate Beaten(freqIn: nat, ratio: nat, invRatio: nat, product: nat, best: Option<Params>, bestError: nat)
    requires product > 0
  {
    Feasible(freqIn, ratio, product) ==> best.Some?
                                         && bestError <= ErrorOf(FeedbackFor(product, ratio), invRatio, product)
  }

  ghost predicate BeatenBefore(freqIn: nat, ratio: nat, invRatio: nat, cursor: nat, best: Option<Params>,
                               bestError: nat) {
    forall i | 0 <= i < cursor :: Product(i) > 0 && Beaten(freqIn, ratio, invRatio, Product(i), best, bestError)
  }

  /** All factorizations of a product were tried and none is within limits. */
  lemma NotFeasible(freqIn: nat, ratio: nat, product: nat, first: nat, cursor: nat)
    requires first < cursor <= 101
    requires forall i | 0 <= i < first :: Product(i) < product
    requires forall i | first <= i < cursor :: Product(i) == product
    requires cursor < 101 ==> Product(cursor) != product
    requires forall j | first <= j < cursor :: !InSpec(freqIn, FeedbackFor(product, ratio), R(j))
                                               && !InSpec(freqIn, FeedbackFor(product, ratio), Od(j))
    ensures !Feasible(freqIn, ratio, product)
  {
    hide InSpec, Product, R, Od, FeedbackFor;
    forall j | 0 <= j < 101 && Product(j) == product ensures first <= j < cursor {
      if j >= cursor {
        TableSorted(cursor, j);
        TableSorted(first, cursor);
      }
    }
  }

  /** A smaller best error still beats what the larger one did. */
  lemma BetterStillBeats(freqIn: nat, ratio: nat, invRatio: nat, cursor: nat, best: Option<Params>, e: nat,
                         best': Option<Params>, e': nat)
    requires BeatenBefore(freqIn, ratio, invRatio, cursor, best, e)
    requires best.Some? ==> best'.Some? && e' <= e
    ensures BeatenBefore(freqIn, ratio, invRatio, cursor, best', e')
  {
    hide Product, Feasible, ErrorOf, FeedbackFor;
  }

  /** More entries of a product that is already beaten. */
  lemma BeatenExtends(freqIn: nat, ratio: nat, invRatio: nat, from: nat, to: nat, product: nat, best: Option<Params>,
                      e: nat)
    requires from <= to && BeatenBefore(freqIn, ratio, invRatio, from, best, e)
    requires product > 0 && Beaten(freqIn, ratio, invRatio, product, best, e)
    requires forall i | from <= i < to :: Product(i) == product
    ensures BeatenBefore(freqIn, ratio, invRatio, to, best, e)
  {
    hide Product, Feasible, ErrorOf, FeedbackFor, Beaten;
  }

  /** The next entry whose product differs from the last one tried, if any. */
  method NextProduct(last: nat, cursor0: nat) returns (r: nat, od: nat, cursor: nat, found: bool)
    requires cursor0 <= 101
    ensures cursor0 <= cursor <= 101
    ensures found ==> cursor0 < cursor && r == R(cursor - 1) && od == Od(cursor - 1) && Product(cursor - 1) != last
    ensures found ==> forall i | cursor0 <= i < cursor - 1 :: Product(i) == last
    ensures !found ==> cursor == 101 && forall i | cursor0 <= i < 101 :: Product(i) == last
  {
    hide R, Od, Factor, UnpackR, UnpackOd;
    r, od, cursor := 0, 0, cursor0;
    while cursor < 101
      invariant cursor0 <= cursor <= 101 && forall i | cursor0 <= i < cursor :: Product(i) == last
    {
      FactorReads(cursor);
      r, od := UnpackR(Factor(cursor)), UnpackOd(Factor(cursor));
      cursor := cursor + 1;
      if Times(r, od) != last {
        return r, od, cursor, true;
      }
    }
    return r, od, cursor, false;
  }

  /** Scoring one setting against the best so far. */
  method Score(freqIn: nat, invRatio: nat, f: nat, r: nat, od: nat, best0: Option<Params>, bestError0: nat)
    returns (best: Option<Params>, bestError: nat, error: nat)
    requires InSpec(freqIn, f, r) && f >= 1 && 1 <= r <= 16 && 1 <= od <= 16
    requires Sound(freqIn, invRatio, best0, bestError0) && (best0.None? ==> bestError0 == 0x7fff_ffff_ffff_ffff)
    requires ErrorOf(f, invRatio, Times(r, od)) < 0x7fff_ffff_ffff_ffff
    ensures Sound(freqIn, invRatio, best, bestError) && best.Some?
    ensures Times(r, od) > 0 && error == ErrorOf(f, invRatio, Times(r, od)) && bestError <= error
            && bestError <= bestError0
    ensures (best, bestError) == if error < bestError0 then (Some(Params(r - 1, f - 1, od - 1, f - 1)), error)
                else (best0, bestError0)
  {
    hide InSpec, ErrorOf;
    FeedbackBound(freqIn, f, r);
    MulRange(r, od);
    best, bestError := best0, bestError0;
    error := ErrorOf(f, invRatio, Times(r, od));
    if error < bestError {
      bestError := error;
      best := Some(Params(r - 1, f - 1, od - 1, f - 1));
    }
  }

  lemma ErrorFits(f: nat, invRatio: nat, product: nat)
    requires f <= 257 && invRatio <= 256 * ONE && product > 0
    ensures ErrorOf(f, invRatio, product) < 0x7fff_ffff_ffff_ffff
  {
    var n := f * invRatio;
    assert n <= 257 * (256 * ONE) by { MulMonotone(f, 257, invRatio); MulMonotone(invRatio, 256 * ONE, 257); }
    DivAtMost(n + product / 2, product);
    assert DivRound(n, product) <= n + 1;
  }

  lemma DivAtMost(n: nat, d: nat)
    requires d > 0
    ensures n / d <= n && (n >= d / 2 ==> n / d <= n - d / 2 + 1)
  {
    var q := n / d;
    assert n == q * d + n % d;
    MulMonotone(1, d, q);
    if q > 0 {
      MulMonotone(1, q, d - 1);
      assert q * d == q * (d - 1) + q;
    }
  }

  lemma FeedbackPositive(product: nat, ratio: nat)
    requires product >= 1 && ratio >= ONE
    ensures 1 <= FeedbackFor(product, ratio) <= 64
  {
    MulMonotone(1, product, ratio);
  }

  /** The setting divides by a product of the table and multiplies by the factor that goes with it. */
  ghost predicate FromTable(ratio: nat, p: Params) {
    exists i :: 0 <= i < 101 && Arranges(i, p.clkr + 1, p.clkod + 1) && p.clkf + 1 == FeedbackFor(Product(i), ratio)
  }

  /** The pair is entry `i`, as it stands or swapped. */
  ghost predicate Arranges(i: nat, r: nat, od: nat) {
    (r, od) == (R(i), Od(i)) || (od, r) == (R(i), Od(i))
  }

  lemma SettingFromTable(ratio: nat, i: nat, r: nat, od: nat, f: nat)
    requires i < 101 && r >= 1 && od >= 1 && f >= 1 && Arranges(i, r, od) && f == FeedbackFor(Product(i), ratio)
    ensures FromTable(ratio, Params(r - 1, f - 1, od - 1, f - 1))
  {
    hide R, Od, Product, FeedbackFor, Arranges;
    var p := Params(r - 1, f - 1, od - 1, f - 1);
    assert Arranges(i, p.clkr + 1, p.clkod + 1);
  }

  /** A setting from the table within limits shows that its product is feasible. */
  lemma SettingFeasible(freqIn: nat, ratio: nat, p: Params) returns (i: nat)
    requires FromTable(ratio, p) && WithinLimits(freqIn, p)
    ensures i < 101 && Feasible(freqIn, ratio, Product(i)) && Divisor(p) == Product(i)
  {
    hide R, Od, FeedbackFor, InSpec, Product, Times, Divisor;
    i :| 0 <= i < 101 && Arranges(i, p.clkr + 1, p.clkod + 1) && p.clkf + 1 == FeedbackFor(Product(i), ratio);
    ProductIs(i);
    TimesSwap(R(i), Od(i));
    DivisorIs(p);
  }

  lemma DivisorIs(p: Params)
    ensures Divisor(p) == Times(p.clkr + 1, p.clkod + 1)
  {
  }

  /** The search when the output is faster than the input: it visits every product of the table, and its
      result is at least as good as every feasible one. */
  method SearchUp(freqIn: nat, ratio: nat, invRatio: nat) returns (best: Option<Params>, bestError: nat)
    requires ONE <= ratio && invRatio <= ONE
    ensures Sound(freqIn, invRatio, best, bestError)
            && (best.Some? ==> best.value.clkf <= 63 && FromTable(ratio, best.value))
    ensures BeatenBefore(freqIn, ratio, invRatio, 101, best, bestError)
  {
    hide InSpec, R, Od, Product, ErrorOf, FeedbackFor, Feasible, Sound, Beaten, BeatenBefore, FromTable, Divisor, Times;
    best, bestError := None, 0x7fff_ffff_ffff_ffff;
    var cursor, last := 0, 0;
    NothingBefore(freqIn, ratio, invRatio, best, bestError);
    while true
      invariant cursor <= 101 && Sound(freqIn, invRatio, best, bestError)
                && (best.None? ==> bestError == 0x7fff_ffff_ffff_ffff)
      invariant best.Some? ==> best.value.clkf <= 63 && FromTable(ratio, best.value)
      invariant BeatenBefore(freqIn, ratio, invRatio, cursor, best, bestError)
      invariant forall i | 0 <= i < cursor :: Product(i) <= last
      invariant cursor > 0 ==> last > 0 && Product(cursor - 1) == last
      invariant last > 0 ==> Beaten(freqIn, ratio, invRatio, last, best, bestError)
      invariant cursor == 0 ==> last == 0
      decreases 101 - cursor
    {
      var r, od, next, found := NextProduct(last, cursor);
      Skipped(freqIn, ratio, invRatio, cursor, if found then next - 1 else next, last, best, bestError);
      if !found { return; }
      ghost var first := next - 1;
      FactorRange(first);
      ProductRange(first);
      var product := Times(r, od);
      assert product == Product(first) by { ProductIs(first); }
      ProductsRise(cursor, first, last);
      FeedbackPositive(product, ratio);
      var f := FeedbackFor(product, ratio);
      var outcome;
      r, od, cursor, outcome := Enforce(freqIn, f, r, od, next);
      if outcome == Scored {
        ghost var best0, e0 := best, bestError;
        var error;
        ErrorFits(f, invRatio, Times(r, od));
        best, bestError, error := Score(freqIn, invRatio, f, r, od, best, bestError);
        assert Arranges(cursor - 1, r, od) && Product(cursor - 1) == product;
        SettingFromTable(ratio, cursor - 1, r, od, f);
        BetterStillBeats(freqIn, ratio, invRatio, first, best0, e0, best, bestError);
        NowBeaten(freqIn, ratio, invRatio, product, best, bestError);
        if error == 0 {
          AllBeaten(freqIn, ratio, invRatio, best);
          return;
        }
      } else {
        NotFeasible(freqIn, ratio, product, first, cursor);
        InfeasibleBeaten(freqIn, ratio, invRatio, product, best, bestError);
      }
      BeatenExtends(freqIn, ratio, invRatio, first, cursor, product, best, bestError);
      last := product;
      if outcome == Exhausted { return; }
    }
  }

  lemma ProductIs(i: nat)
    ensures Product(i) == Times(R(i), Od(i))
  {
  }

  lemma NothingBefore(freqIn: nat, ratio: nat, invRatio: nat, best: Option<Params>, e: nat)
    ensures BeatenBefore(freqIn, ratio, invRatio, 0, best, e) && Sound(freqIn, invRatio, None, e)
  {
  }

  /** Entries of the product just handled are handled too. */
  lemma Skipped(freqIn: nat, ratio: nat, invRatio: nat, from: nat, to: nat, last: nat, best: Option<Params>, e: nat)
    requires from <= to <= 101 && BeatenBefore(freqIn, ratio, invRatio, from, best, e)
    requires last > 0 ==> Beaten(freqIn, ratio, invRatio, last, best, e)
    requires forall i | from <= i < to :: Product(i) == last
    ensures BeatenBefore(freqIn, ratio, invRatio, to, best, e)
  {
    hide Product, Beaten;
    forall i | 0 <= i < to
      ensures Product(i) > 0 && Beaten(freqIn, ratio, invRatio, Product(i), best, e) { ProductRange(i); }
  }

  lemma ProductsRise(cursor: nat, first: nat, last: nat)
    requires cursor <= first < 101 && Product(first) != last
    requires forall i | 0 <= i < cursor :: Product(i) <= last
    requires forall i | cursor <= i < first :: Product(i) == last
    requires cursor > 0 ==> Product(cursor - 1) == last
    requires cursor == 0 ==> last == 0
    ensures forall i | 0 <= i < first :: Product(i) < Product(first)
  {
    hide Product;
    ProductRange(first);
    if cursor > 0 { TableSorted(cursor - 1, first); }
    else { ProductRange(0); }
  }

  lemma NowBeaten(freqIn: nat, ratio: nat, invRatio: nat, product: nat, best: Option<Params>, e: nat)
    requires product > 0 && best.Some? && e <= ErrorOf(FeedbackFor(product, ratio), invRatio, product)
    ensures Beaten(freqIn, ratio, invRatio, product, best, e)
  {
  }

  lemma InfeasibleBeaten(freqIn: nat, ratio: nat, invRatio: nat, product: nat, best: Option<Params>, e: nat)
    requires product > 0 && !Feasible(freqIn, ratio, product)
    ensures Beaten(freqIn, ratio, invRatio, product, best, e)
  {
  }

  lemma AllBeaten(freqIn: nat, ratio: nat, invRatio: nat, best: Option<Params>)
    requires best.Some?
    ensures BeatenBefore(freqIn, ratio, invRatio, 101, best, 0)
  {
    hide Product, Feasible, ErrorOf, FeedbackFor;
    forall i | 0 <= i < 101 ensures Product(i) > 0 { ProductRange(i); }
  }

  // ---------------------------------------------------------------- lowering the frequency

  function AbsDiff(a: nat, b: nat): nat {
    if a > b then a - b else b - a
  }

  /** The first remaining entry whose product reaches the goal, or the end of the table. */
  method SkipBelow(goal: nat, cursor0: nat) returns (cursor: nat)
    requires cursor0 <= 101
    ensures cursor0 <= cursor <= 101 && forall i | cursor0 <= i < cursor :: Product(i) < goal
    ensures cursor < 101 ==> Product(cursor) >= goal
  {
    hide R, Od, Factor, UnpackR, UnpackOd;
    cursor := cursor0;
    while cursor < 101
      invariant cursor0 <= cursor <= 101 && forall i | cursor0 <= i < cursor :: Product(i) < goal
    {
      FactorReads(cursor);
      if UnpackR(Factor(cursor)) * UnpackOd(Factor(cursor)) >= goal { return; }
      cursor := cursor + 1;
    }
  }

  /** Entry `c` is the first from `from` on whose product reaches the goal. */
  ghost predicate FirstReach(from: nat, c: nat, goal: nat) {
    from <= c < 101 && Product(c) >= goal && forall i | from <= i < c :: Product(i) < goal
  }

  /** What a choice amounts to, `c` being the first remaining entry that reaches the goal: that entry or the last
      pair, whichever is closer, the last pair on a tie if the goal was rounded up; at the start, that entry. */
  ghost predicate ChoiceOk(goal: nat, roundUp: bool, lastR: nat, lastOd: nat, cursor0: nat, r: nat, od: nat,
                           cursor: nat, c: nat) {
    && FirstReach(cursor0, c, goal)
    && AbsDiff(Times(r, od), goal) <= AbsDiff(Times(lastR, lastOd), goal)
       && AbsDiff(Times(r, od), goal) <= AbsDiff(Product(c), goal)
    && ((cursor == c && (r, od) == (lastR, lastOd) && lastR != 0) || (cursor == c + 1 && (r, od) == (R(c), Od(c))))
    && (AbsDiff(Times(lastR, lastOd), goal) == AbsDiff(Product(c), goal) && lastR != 0 ==> (cursor == c <==> roundUp))
  }

  /** The pair for one value of `f`. The very first choice is never the pair (0, 0) the search starts from. */
  method Choose(goal: nat, roundUp: bool, lastR: nat, lastOd: nat, cursor0: nat)
    returns (r: nat, od: nat, cursor: nat, found: bool, ghost c: nat)
    requires cursor0 <= 101 && goal >= 1
    requires (1 <= lastR <= 16 && 1 <= lastOd <= 16) || (lastR == lastOd == 0 && cursor0 == 0)
    ensures cursor0 <= cursor <= 101 && (found ==> 1 <= r <= 16 && 1 <= od <= 16 && goal <= 256)
    ensures found ==> ChoiceOk(goal, roundUp, lastR, lastOd, cursor0, r, od, cursor, c)
    ensures !found ==> cursor == 101 && forall i | cursor0 <= i < 101 :: Product(i) < goal
  {
    hide R, Od, Product, Factor, UnpackR, UnpackOd, Times;
    NoPair();
    cursor := SkipBelow(goal, cursor0);
    c := cursor;
    if cursor == 101 { return 0, 0, cursor, false, c; }
    FactorReads(cursor);
    FactorRange(cursor);
    ProductRange(cursor);
    ProductIs(cursor);
    r, od := UnpackR(Factor(cursor)), UnpackOd(Factor(cursor));
    if lastR == 0 { FirstIsCloser(goal, cursor); }
    var product, lastProduct := Times(r, od), Times(lastR, lastOd);
    var err, lastErr := AbsDiff(product, goal), AbsDiff(lastProduct, goal);
    if lastErr < err || (roundUp && lastErr == err) {
      r, od := lastR, lastOd;
    } else {
      cursor := cursor + 1;
    }
    found := true;
  }

  lemma NoPair()
    ensures Times(0, 0) == 0
  {
  }

  lemma FirstIsCloser(goal: nat, cursor: nat)
    requires 1 <= goal <= Product(cursor) && cursor < 101 && forall i | 0 <= i < cursor :: Product(i) < goal
    ensures Product(cursor) < 2 * goal
  {
    hide Product;
    ProductRange(cursor);
    var i := ProductNear(goal);
    TableSorted(cursor, i);
  }

  predicate RoundsUp(f: nat, invRatio: nat) {
    And(f * invRatio, Pow2(31)) != 0
  }

  /** The product wanted for `f`: `f * invRatio`, rounded to the nearest integer. */
  function Goal(f: nat, invRatio: nat): nat {
    f * invRatio / ONE + if RoundsUp(f, invRatio) then 1 else 0
  }

  /** What the search did for one `f`: the pair it chose and the entry `reach` it chose from, the cursor then, and the
      pair and cursor it was left with after enforcing the limits. */
  datatype Trial = Trial(r: nat, od: nat, reach: nat, cursor: nat, endR: nat, endOd: nat, next: nat, outcome: Outcome)

  ghost predicate TrialOk(freqIn: nat, invRatio: nat, f: nat, lastR: nat, lastOd: nat, cursor0: nat, t: Trial) {
    && 1 <= t.r <= 16 && 1 <= t.od <= 16
    && ChoiceOk(Goal(f, invRatio), RoundsUp(f, invRatio), lastR, lastOd, cursor0, t.r, t.od, t.cursor, t.reach)
    && Enforced(freqIn, f, t.r, t.od, t.cursor, t.endR, t.endOd, t.next, t.outcome)
  }

  /** Where the search stands before turn `k`; it starts from the pair (0, 0). */
  ghost function Before(tried: seq<Trial>, k: nat): (nat, nat, nat)
    requires k <= |tried|
  {
    if k == 0 then (0, 0, 0) else (tried[k - 1].endR, tried[k - 1].endOd, tried[k - 1].next)
  }

  /** Trial `k` was for `f = k + 1`, and each went on from the one before. */
  ghost predicate Traced(freqIn: nat, invRatio: nat, tried: seq<Trial>) {
    forall k | 0 <= k < |tried| ::
        var (r, od, cursor) := Before(tried, k); TrialOk(freqIn, invRatio, k + 1, r, od, cursor, tried[k])
  }

  ghost function TrialError(invRatio: nat, k: nat, t: Trial): nat {
    if Times(t.r, t.od) > 0 then ErrorOf(k + 1, invRatio, Times(t.r, t.od)) else 0
  }

  /** The setting is the one scored in trial `k`, and no earlier trial scored as well. */
  ghost predicate BestAt(invRatio: nat, tried: seq<Trial>, k: nat, p: Params, e: nat) {
    && k < |tried| && tried[k].outcome == Scored && tried[k].endR >= 1 && tried[k].endOd >= 1
    && p == Params(tried[k].endR - 1, k, tried[k].endOd - 1, k) && e == TrialError(invRatio, k, tried[k])
    && forall j | 0 <= j < k && tried[j].outcome == Scored :: e < TrialError(invRatio, j, tried[j])
  }

  /** The result is the first of the scored trials with the least error; there is none only if none was scored. */
  ghost predicate LeastOf(invRatio: nat, tried: seq<Trial>, best: Option<Params>, e: nat) {
    && (best.None? <==> NoneScored(tried))
    && (best.Some? ==> exists k: nat :: BestAt(invRatio, tried, k, best.value, e))
    && (forall k | 0 <= k < |tried| && tried[k].outcome == Scored :: e <= TrialError(invRatio, k, tried[k]))
  }

  ghost predicate NoneScored(tried: seq<Trial>) {
    forall k | 0 <= k < |tried| :: tried[k].outcome != Scored
  }

  ghost predicate Topped(tried: seq<Trial>) {
    exists k :: 0 <= k < |tried| && Times(tried[k].r, tried[k].od) == 256
  }

  /** How a search without a perfect match ends: the table is exhausted, or no entry left reaches the next goal. */
  ghost predicate Ended(invRatio: nat, tried: seq<Trial>) {
    && tried != []
    && (tried[|tried| - 1].outcome == Exhausted
        || forall i | tried[|tried| - 1].next <= i < 101 :: Product(i) < Goal(|tried| + 1, invRatio))
  }

  /** The search state between turns: the pair and cursor reached, and the best so far. */
  datatype Search = Search(r: nat, od: nat, cursor: nat, best: Option<Params>, bestError: nat, error: nat)

  ghost predicate SearchOk(freqIn: nat, invRatio: nat, s: Search) {
    && s.cursor <= 101 && s.bestError <= s.error && Sound(freqIn, invRatio, s.best, s.bestError)
    && (s.best.None? ==> s.bestError == 0x7fff_ffff_ffff_ffff)
    && ((1 <= s.r <= 16 && 1 <= s.od <= 16) || (s.r == s.od == 0 && s.cursor == 0))
  }

  /** What a turn does: it finds no entry that reaches the goal, or makes a trial. */
  ghost predicate TurnOk(freqIn: nat, invRatio: nat, f: nat, s: Search, s': Search, stop: bool, t: Option<Trial>) {
    && (t.None? ==> stop && s' == s && forall i | s.cursor <= i < 101 :: Product(i) < Goal(f, invRatio))
    && (t.Some? ==> TrialOk(freqIn, invRatio, f, s.r, s.od, s.cursor, t.value) && f <= 256
                    && (s'.r, s'.od, s'.cursor) == (t.value.endR, t.value.endOd, t.value.next)
                       && (stop <==> t.value.outcome == Exhausted))
    && (t.Some? && t.value.outcome != Scored ==> (s'.best, s'.bestError, s'.error) == (s.best, s.bestError, s.error))
    && (t.Some? && t.value.outcome == Scored ==> ScoredOk(invRatio, f, s, s', t.value))
  }

  ghost predicate ScoredOk(invRatio: nat, f: nat, s: Search, s': Search, t: Trial) {
    && f >= 1 && t.endR >= 1 && t.endOd >= 1 && s'.error == TrialError(invRatio, f - 1, t)
    && if s'.error < s.bestError then s'.bestError == s'.error
       && s'.best == Some(Params(t.endR - 1, f - 1, t.endOd - 1, f - 1))
       else (s'.best, s'.bestError) == (s.best, s.bestError) && s.best.Some?
  }

  /** One turn of the loop, for one value of `f`. */
  method Turn(freqIn: nat, invRatio: nat, f: nat, s: Search) returns (s': Search, stop: bool, ghost t: Option<Trial>)
    requires ONE <= invRatio <= 256 * ONE && 1 <= f <= 257 && SearchOk(freqIn, invRatio, s)
    ensures SearchOk(freqIn, invRatio, s') && TurnOk(freqIn, invRatio, f, s, s', stop, t)
  {
    hide InSpec, R, Od, Product, ErrorOf, Sound, RoundsUp, Goal, Times, ChoiceOk;
    var goal, roundUp := Goal(f, invRatio), RoundsUp(f, invRatio);
    GoalAtLeast(f, invRatio);
    var r, od, cursor, found;
    ghost var reach;
    r, od, cursor, found, reach := Choose(goal, roundUp, s.r, s.od, s.cursor);
    if !found { return s, true, None; }
    ghost var trial := Trial(r, od, reach, cursor, r, od, cursor, Rejected);
    var outcome;
    r, od, cursor, outcome := Enforce(freqIn, f, r, od, cursor);
    trial := trial.(endR := r, endOd := od, next := cursor, outcome := outcome);
    if outcome != Scored {
      return s.(r := r, od := od, cursor := cursor), outcome == Exhausted, Some(trial);
    }
    MulRange(r, od);
    ErrorFits(f, invRatio, Times(r, od));
    var best, bestError, error := Score(freqIn, invRatio, f, r, od, s.best, s.bestError);
    return Search(r, od, cursor, best, bestError, error), false, Some(trial);
  }

  /** The search when the output is no faster than the input. Every trial it makes is on record, at least one; its
      result is the first of those scored with the least error; it stops only on a perfect match or at the largest
      product. It ends because the goal for `f` is at least `f`, and no product exceeds 256. */
  method SearchDown(freqIn: nat, invRatio: nat) returns (best: Option<Params>, bestError: nat, ghost tried: seq<Trial>)
    requires ONE <= invRatio <= 256 * ONE
    ensures Sound(freqIn, invRatio, best, bestError)
    ensures tried != [] && Traced(freqIn, invRatio, tried) && LeastOf(invRatio, tried, best, bestError)
    ensures bestError == 0 || Topped(tried) || Goal(|tried| + 1, invRatio) > 256
    ensures bestError == 0 || Ended(invRatio, tried)
    ensures best.Some? <==> Finds(freqIn, invRatio, 1, -1)
  {
    hide InSpec, R, Od, Product, ErrorOf, Sound, Traced, TrialOk, Goal, Topped, NoneScored, LeastOf, TrialError;
    tried := [];
    var s, f, stop := Search(0, 0, 0, None, 0x7fff_ffff_ffff_ffff, 0x7fff_ffff_ffff_ffff), 0, false;
    NoTrials(freqIn, invRatio, s.bestError);
    while !stop && s.error != 0
      invariant SearchOk(freqIn, invRatio, s) && (!stop ==> f == |tried|) && f <= 257 && |tried| <= 256
      invariant (tried == [] ==> s.error != 0) && (s.r, s.od, s.cursor) == Before(tried, |tried|)
      invariant Traced(freqIn, invRatio, tried) && LeastOf(invRatio, tried, s.best, s.bestError)
                && (s.cursor == 101 ==> Topped(tried))
      invariant stop ==> tried != [] && (Topped(tried) || Goal(|tried| + 1, invRatio) > 256)
      invariant stop ==> Ended(invRatio, tried)
      decreases !stop, 257 - f
    {
      ghost var t;
      ghost var s0 := s;
      f := f + 1;
      s, stop, t := Turn(freqIn, invRatio, f, s);
      if t.None? {
        NoneReach(s0.cursor, Goal(f, invRatio), invRatio, tried);
      } else {
        OneMoreTrial(freqIn, invRatio, tried, s0, s, stop, t.value);
        tried := tried + [t.value];
      }
    }
    best, bestError := s.best, s.bestError;
    FoundExactly(freqIn, invRatio, tried, best, bestError);
  }

  // ---------------------------------------------------------------- when lowering finds a setting

  /** The first entry from `from` on whose product reaches the goal, or 101. */
  function Reach(from: nat, goal: nat): (c: nat)
    requires from <= 101
    ensures from <= c <= 101 && (forall i | from <= i < c :: Product(i) < goal) && (c < 101 ==> Product(c) >= goal)
    decreases 101 - from
  {
    if from == 101 || Product(from) >= goal then from else Reach(from + 1, goal)
  }

  /** The last entry with the product of entry `c`. */
  function End(c: nat): (e: nat)
    requires c < 101
    ensures c <= e < 101
    decreases 101 - c
  {
    if c < 100 && Product(c + 1) == Product(c) then End(c + 1) else c
  }

  lemma {:induction false} EndFacts(c: nat)
    requires c < 101
    ensures (forall j | c <= j <= End(c) :: Product(j) == Product(c))
            && (End(c) < 100 ==> Product(End(c) + 1) != Product(c))
    decreases 101 - c
  {
    hide Product;
    if c < 100 && Product(c + 1) == Product(c) { EndFacts(c + 1); }
  }

  /** Entry `j`, as it stands or swapped, is within limits for `f`. */
  predicate Fits(freqIn: nat, f: nat, j: nat) {
    InSpec(freqIn, f, R(j)) || InSpec(freqIn, f, Od(j))
  }

  /** The last product is kept for a goal rather than the next one that reaches it. */
  predicate Keeps(goal: nat, roundUp: bool, last: nat, next: nat) {
    AbsDiff(last, goal) < AbsDiff(next, goal) || (roundUp && AbsDiff(last, goal) == AbsDiff(next, goal))
  }

  /** Whether the lowering search finds anything from `f` on, told by products alone. `last` is the last entry of the
      product tried before, or -1. For each `f` the search considers the next product that reaches the goal and the one
      before; of a product it comes to it tries every entry, of one it keeps only the last. */
  predicate Finds(freqIn: nat, invRatio: nat, f: nat, last: int)
    requires -1 <= last < 101
    decreases 300 - f
  {
    f <= 257 &&
    var goal := Goal(f, invRatio);
    var c := Reach(last + 1, goal);
    if c == 101 then false
    else if last >= 0 && Keeps(goal, RoundsUp(f, invRatio), Product(last), Product(c)) then
      Fits(freqIn, f, last) || Finds(freqIn, invRatio, f + 1, last)
    else
      (exists j | c <= j <= End(c) :: Fits(freqIn, f, j)) || (End(c) < 100 && Finds(freqIn, invRatio, f + 1, End(c)))
  }

  /** Where a search that has scored nothing stands before `f`: on the last entry of a product, and between it and the
      cursor nothing reaches the goals to come. */
  ghost predicate Stands(invRatio: nat, f: nat, r: nat, od: nat, cursor: nat, last: int) {
    && -1 <= last < 101 && cursor <= 101 && (last == -1 ==> (r, od, cursor) == (0, 0, 0))
    && (last >= 0 ==> last < cursor && End(last) == last && r > 0
                      && ((r, od) == (R(last), Od(last)) || (od, r) == (R(last), Od(last))))
    && (forall i: nat | last < i < cursor :: Product(i) < Goal(f, invRatio))
  }

  lemma GoalRises(f: nat, invRatio: nat)
    requires invRatio >= ONE
    ensures Goal(f, invRatio) <= Goal(f + 1, invRatio)
  {
    hide RoundsUp;
    assert (f + 1) * invRatio == f * invRatio + invRatio;
    DivMonotone(f * invRatio + ONE, (f + 1) * invRatio, ONE);
    assert (f * invRatio + ONE) / ONE == f * invRatio / ONE + 1;
  }

  lemma ReachUnique(from: nat, c: nat, goal: nat)
    requires from <= c < 101 && Product(c) >= goal && forall i | from <= i < c :: Product(i) < goal
    ensures Reach(from, goal) == c
  {
    hide Product;
  }

  lemma EndUnique(c: nat, e: nat)
    requires c <= e < 101 && (forall j | c <= j <= e :: Product(j) == Product(c))
             && (e < 100 ==> Product(e + 1) != Product(c))
    ensures End(c) == e && End(e) == e
  {
    hide Product;
    EndFacts(c);
    EndFacts(e);
  }

  /** Beyond the last entry of a product come larger ones. */
  lemma BeyondEnd(last: nat, c: nat)
    requires last < c < 101 && End(last) == last
    ensures Product(c) > Product(last)
  {
    hide Product;
    EndFacts(last);
    TableSorted(last, last + 1);
    TableSorted(last + 1, c);
  }

  /** A trial looks at the product that `Finds` says it looks at. */
  lemma TrialReach(freqIn: nat, invRatio: nat, f: nat, r: nat, od: nat, cursor: nat, last: int, t: Trial)
    requires Stands(invRatio, f, r, od, cursor, last) && TrialOk(freqIn, invRatio, f, r, od, cursor, t)
    ensures Reach(last + 1, Goal(f, invRatio)) == t.reach < 101 && last < t.reach
    ensures t.cursor == t.reach <==> last >= 0
                                     && Keeps(Goal(f, invRatio), RoundsUp(f, invRatio), Product(last), Product(t.reach))
    ensures t.cursor != t.reach ==> t.cursor == t.reach + 1 && (t.r, t.od) == (R(t.reach), Od(t.reach))
    ensures t.cursor == t.reach ==> last >= 0 && (t.r, t.od) == (r, od)
  {
    hide R, Od, Product, Goal, RoundsUp, Enforced, End;
    ReachUnique(last + 1, t.reach, Goal(f, invRatio));
    if last >= 0 {
      ProductIs(last);
      TimesSwap(R(last), Od(last));
      ProductIs(t.reach);
    }
  }

  lemma TimesSwap(r: nat, od: nat)
    ensures Times(r, od) == Times(od, r)
  {
  }

  /** A product kept: only its last entry is tried. */
  lemma KeptStep(freqIn: nat, invRatio: nat, f: nat, r: nat, od: nat, cursor: nat, last: nat, t: Trial)
    requires invRatio >= ONE && Stands(invRatio, f, r, od, cursor, last) && t.cursor == t.reach
    requires TrialOk(freqIn, invRatio, f, r, od, cursor, t)
    ensures t.outcome == Scored <==> Fits(freqIn, f, last)
    ensures t.outcome != Scored ==> t.outcome == Rejected && Stands(invRatio, f + 1, t.endR, t.endOd, t.next, last)
  {
    hide R, Od, Product, Goal, RoundsUp, InSpec, ChoiceOk, End;
    TrialReach(freqIn, invRatio, f, r, od, cursor, last, t);
    BeyondEnd(last, t.reach);
    ProductIs(last);
    TimesSwap(R(last), Od(last));
    assert t.next == t.cursor;
    GoalRises(f, invRatio);
    SkippedBelow(last, t.reach, Goal(f, invRatio));
  }

  lemma SkippedBelow(last: nat, c: nat, goal: nat)
    requires last < 101 && Reach(last + 1, goal) == c
    ensures forall i: nat | last < i < c :: Product(i) < goal
  {
  }

  /** A product come to: every entry of it is tried, as it stands and swapped. */
  lemma FreshScored(freqIn: nat, f: nat, c: nat, t: Trial)
    requires c < 101 && t.cursor == c + 1 && (t.r, t.od) == (R(c), Od(c)) && t.outcome == Scored
    requires Enforced(freqIn, f, t.r, t.od, t.cursor, t.endR, t.endOd, t.next, t.outcome)
    ensures exists j | c <= j <= End(c) :: Fits(freqIn, f, j)
  {
    hide R, Od, Product, InSpec, End;
    ProductIs(c);
    InGroup(c, t.next - 1);
    assert Fits(freqIn, f, t.next - 1);
  }

  lemma FreshUnscored(freqIn: nat, f: nat, c: nat, t: Trial)
    requires c < 101 && t.cursor == c + 1 && (t.r, t.od) == (R(c), Od(c)) && t.outcome != Scored
    requires Enforced(freqIn, f, t.r, t.od, t.cursor, t.endR, t.endOd, t.next, t.outcome)
    ensures (forall j | c <= j <= End(c) :: !Fits(freqIn, f, j)) && End(c) == t.next - 1 && End(End(c)) == End(c)
    ensures t.outcome == Exhausted ==> End(c) == 100
    ensures t.outcome == Rejected ==> End(c) < 100
    ensures (t.endOd, t.endR) == (R(End(c)), Od(End(c)))
  {
    hide R, Od, Product, InSpec, End;
    ProductIs(c);
    EndUnique(c, t.next - 1);
  }

  lemma FreshStep(freqIn: nat, invRatio: nat, f: nat, r: nat, od: nat, cursor: nat, last: int, t: Trial)
    requires invRatio >= ONE && Stands(invRatio, f, r, od, cursor, last) && t.cursor != t.reach
    requires TrialOk(freqIn, invRatio, f, r, od, cursor, t)
    ensures t.reach < 101 && (t.outcome == Scored <==> exists j | t.reach <= j <= End(t.reach) :: Fits(freqIn, f, j))
    ensures t.outcome == Exhausted ==> End(t.reach) == 100
    ensures t.outcome == Rejected ==> End(t.reach) < 100
                                      && Stands(invRatio, f + 1, t.endR, t.endOd, t.next, End(t.reach))
  {
    hide R, Od, Product, Goal, RoundsUp, InSpec, ChoiceOk, End, Enforced, Fits;
    TrialReach(freqIn, invRatio, f, r, od, cursor, last, t);
    if t.outcome == Scored {
      FreshScored(freqIn, f, t.reach, t);
    } else {
      FreshUnscored(freqIn, f, t.reach, t);
      FactorRange(End(t.reach));
    }
  }

  lemma InGroup(c: nat, j: nat)
    requires c <= j < 101 && forall i | c <= i <= j :: Product(i) == Product(c)
    ensures j <= End(c)
  {
    hide Product;
    EndFacts(c);
  }

  /** One step of `Finds`. */
  lemma FindsKept(freqIn: nat, invRatio: nat, f: nat, last: nat, c: nat)
    requires last < 101 && 1 <= f <= 257 && Reach(last + 1, Goal(f, invRatio)) == c < 101
    requires Keeps(Goal(f, invRatio), RoundsUp(f, invRatio), Product(last), Product(c))
    ensures Finds(freqIn, invRatio, f, last) <==> Fits(freqIn, f, last) || Finds(freqIn, invRatio, f + 1, last)
  {
    hide R, Od, Product, Goal, RoundsUp, End, Keeps, Fits;
  }

  lemma FindsFresh(freqIn: nat, invRatio: nat, f: nat, last: int, c: nat)
    requires -1 <= last < 101 && 1 <= f <= 257 && Reach(last + 1, Goal(f, invRatio)) == c < 101
    requires last >= 0 ==> !Keeps(Goal(f, invRatio), RoundsUp(f, invRatio), Product(last), Product(c))
    ensures Finds(freqIn, invRatio, f, last) <==>
            (exists j | c <= j <= End(c) :: Fits(freqIn, f, j))
                || (End(c) < 100 && Finds(freqIn, invRatio, f + 1, End(c)))
  {
    hide R, Od, Product, Goal, RoundsUp, End, Keeps, Fits;
  }

  lemma FindsNothing(freqIn: nat, invRatio: nat, f: nat, last: int)
    requires -1 <= last < 101 && Reach(last + 1, Goal(f, invRatio)) == 101
    ensures !Finds(freqIn, invRatio, f, last)
  {
    hide R, Od, Product, Goal, RoundsUp, End, Keeps, Fits;
  }

  /** One trial, and one step of `Finds`. */
  lemma TrialFinds(freqIn: nat, invRatio: nat, tried: seq<Trial>, k: nat, last: int) returns (last': int)
    requires invRatio >= ONE && Traced(freqIn, invRatio, tried) && k < |tried| <= 256
    requires var (r, od, cursor) := Before(tried, k); Stands(invRatio, k + 1, r, od, cursor, last)
    ensures tried[k].outcome == Scored ==> Finds(freqIn, invRatio, k + 1, last)
    ensures tried[k].outcome == Exhausted ==> !Finds(freqIn, invRatio, k + 1, last)
    ensures tried[k].outcome == Rejected ==>
              var (r, od, cursor) := Before(tried, k + 1); Stands(invRatio, k + 2, r, od, cursor, last')
    ensures tried[k].outcome == Rejected ==>
              (Finds(freqIn, invRatio, k + 1, last) <==> Finds(freqIn, invRatio, k + 2, last'))
  {
    hide R, Od, Product, Goal, RoundsUp, TrialOk, End, Keeps, Fits, Finds, Reach;
    var t := tried[k];
    var (r, od, cursor) := Before(tried, k);
    assert TrialOk(freqIn, invRatio, k + 1, r, od, cursor, t);
    TrialReach(freqIn, invRatio, k + 1, r, od, cursor, last, t);
    if t.cursor == t.reach {
      KeptStep(freqIn, invRatio, k + 1, r, od, cursor, last, t);
      FindsKept(freqIn, invRatio, k + 1, last, t.reach);
      last' := last;
    } else {
      FreshStep(freqIn, invRatio, k + 1, r, od, cursor, last, t);
      FindsFresh(freqIn, invRatio, k + 1, last, t.reach);
      last' := End(t.reach);
    }
  }

  /** As long as nothing is scored, the search stands where `Finds` has come to. */
  lemma {:induction false} Unscored(freqIn: nat, invRatio: nat, tried: seq<Trial>, k: nat) returns (last: int)
    requires invRatio >= ONE && Traced(freqIn, invRatio, tried) && k <= |tried| <= 256
    requires forall j | 0 <= j < k :: tried[j].outcome == Rejected
    ensures var (r, od, cursor) := Before(tried, k); Stands(invRatio, k + 1, r, od, cursor, last)
    ensures Finds(freqIn, invRatio, 1, -1) <==> Finds(freqIn, invRatio, k + 1, last)
  {
    hide Product, Goal, Traced, End, Finds;
    last := -1;
    if k > 0 {
      last := Unscored(freqIn, invRatio, tried, k - 1);
      last := TrialFinds(freqIn, invRatio, tried, k - 1, last);
    }
  }

  lemma CursorInside(freqIn: nat, invRatio: nat, tried: seq<Trial>, k: nat)
    requires Traced(freqIn, invRatio, tried) && k < |tried|
    ensures Before(tried, k).2 < 101
    ensures tried[k].outcome == Exhausted ==> tried[k].next == 101
  {
    hide R, Od, Product, Goal, RoundsUp, InSpec;
    var (r, od, cursor) := Before(tried, k);
    assert TrialOk(freqIn, invRatio, k + 1, r, od, cursor, tried[k]);
  }

  /** Only the last trial can exhaust the table. */
  lemma ExhaustedLast(freqIn: nat, invRatio: nat, tried: seq<Trial>, j: nat)
    requires Traced(freqIn, invRatio, tried) && j < |tried| && tried[j].outcome == Exhausted
    ensures j == |tried| - 1
  {
    hide Traced;
    CursorInside(freqIn, invRatio, tried, j);
    if j + 1 < |tried| { CursorInside(freqIn, invRatio, tried, j + 1); }
  }

  /** The search finds a setting exactly when `Finds` says so. */
  lemma FoundExactly(freqIn: nat, invRatio: nat, tried: seq<Trial>, best: Option<Params>, e: nat)
    requires invRatio >= ONE && Traced(freqIn, invRatio, tried) && LeastOf(invRatio, tried, best, e) && |tried| <= 256
    requires best.None? ==> Ended(invRatio, tried)
    ensures best.Some? <==> Finds(freqIn, invRatio, 1, -1)
  {
    hide R, Od, Product, Goal, RoundsUp, Traced, BestAt, TrialError;
    if best.Some? {
      var k := FirstScored(tried);
      ScoredFinds(freqIn, invRatio, tried, k);
    } else {
      NothingFound(freqIn, invRatio, tried);
    }
  }

  lemma FirstScored(tried: seq<Trial>) returns (k: nat)
    requires !NoneScored(tried)
    ensures k < |tried| && tried[k].outcome == Scored && forall j | 0 <= j < k :: tried[j].outcome != Scored
  {
    k := 0;
    while tried[k].outcome != Scored
      invariant k < |tried| && forall j | 0 <= j < k :: tried[j].outcome != Scored
      decreases |tried| - k
    {
      k := k + 1;
    }
  }

  lemma ScoredFinds(freqIn: nat, invRatio: nat, tried: seq<Trial>, k: nat)
    requires invRatio >= ONE && Traced(freqIn, invRatio, tried) && k < |tried| <= 256 && tried[k].outcome == Scored
    requires forall j | 0 <= j < k :: tried[j].outcome != Scored
    ensures Finds(freqIn, invRatio, 1, -1)
  {
    hide Product, Goal, Traced, End, Finds;
    forall j | 0 <= j < k ensures tried[j].outcome == Rejected {
      if tried[j].outcome == Exhausted { ExhaustedLast(freqIn, invRatio, tried, j); }
    }
    var last := Unscored(freqIn, invRatio, tried, k);
    var _ := TrialFinds(freqIn, invRatio, tried, k, last);
  }

  lemma NothingFound(freqIn: nat, invRatio: nat, tried: seq<Trial>)
    requires invRatio >= ONE && Traced(freqIn, invRatio, tried) && NoneScored(tried) && Ended(invRatio, tried)
    requires |tried| <= 256
    ensures !Finds(freqIn, invRatio, 1, -1)
  {
    hide Product, Goal, Traced, End, Finds, Reach;
    var n := |tried|;
    forall j | 0 <= j < n - 1 ensures tried[j].outcome == Rejected {
      if tried[j].outcome == Exhausted { ExhaustedLast(freqIn, invRatio, tried, j); }
    }
    if tried[n - 1].outcome == Exhausted {
      var last := Unscored(freqIn, invRatio, tried, n - 1);
      var _ := TrialFinds(freqIn, invRatio, tried, n - 1, last);
    } else {
      var last := Unscored(freqIn, invRatio, tried, n);
      FindsNothing(freqIn, invRatio, n + 1, last);
    }
  }

  lemma NoTrials(freqIn: nat, invRatio: nat, e: nat)
    ensures Traced(freqIn, invRatio, []) && LeastOf(invRatio, [], None, e) && Sound(freqIn, invRatio, None, e)
  {
  }

  lemma FirstGoal(invRatio: nat)
    requires invRatio <= 256 * ONE
    ensures Goal(1, invRatio) <= 256
  {
    hide Pow2, And;
    if invRatio < 256 * ONE {
      assert invRatio / ONE <= 255;
    } else {
      FortyIsTop();
      AndPow2(invRatio, 31);
      BitOfPow2(40, 31);
    }
  }

  lemma FortyIsTop()
    ensures Pow2(40) == 256 * ONE
  {
    assert Pow2(5) == 32;
    Pow2Add(5, 5);
    Pow2Add(10, 10);
    Pow2Add(20, 20);
  }

  /** No entry is left for the next goal: the largest product has been tried, or the goal lies beyond it. */
  lemma NoneReach(cursor: nat, goal: nat, invRatio: nat, tried: seq<Trial>)
    requires (forall i | cursor <= i < 101 :: Product(i) < goal) && cursor <= 101 && (cursor == 101 ==> Topped(tried))
    requires goal == Goal(|tried| + 1, invRatio) && invRatio <= 256 * ONE && (tried == [] ==> cursor == 0)
    ensures tried != [] && (Topped(tried) || Goal(|tried| + 1, invRatio) > 256)
  {
    hide Goal;
    FirstGoal(invRatio);
    assert Product(100) == 256;
  }

  lemma TrialTops(freqIn: nat, invRatio: nat, f: nat, lastR: nat, lastOd: nat, cursor0: nat, t: Trial)
    requires TrialOk(freqIn, invRatio, f, lastR, lastOd, cursor0, t)
    ensures (t.outcome == Exhausted ==> t.next == 101) && (t.next == 101 ==> Times(t.r, t.od) == 256)
  {
    hide R, Od, Product, Goal, RoundsUp, InSpec;
    TopProduct();
  }

  lemma TopProduct()
    ensures Product(100) == 256 && Times(R(100), Od(100)) == 256
  {
  }

  lemma OneMoreTrial(freqIn: nat, invRatio: nat, tried: seq<Trial>, s: Search, s': Search, stop: bool, t: Trial)
    requires Traced(freqIn, invRatio, tried) && LeastOf(invRatio, tried, s.best, s.bestError)
    requires (s.r, s.od, s.cursor) == Before(tried, |tried|) && SearchOk(freqIn, invRatio, s)
    requires TurnOk(freqIn, invRatio, |tried| + 1, s, s', stop, Some(t))
    ensures Traced(freqIn, invRatio, tried + [t]) && LeastOf(invRatio, tried + [t], s'.best, s'.bestError)
    ensures stop || s'.cursor == 101 ==> Topped(tried + [t])
  {
    hide Traced, TrialOk, LeastOf, Sound, ScoredOk;
    TracedMore(freqIn, invRatio, tried, s, t);
    TrialTops(freqIn, invRatio, |tried| + 1, s.r, s.od, s.cursor, t);
    assert (tried + [t])[|tried|] == t;
    StillLeast(invRatio, tried, s, s', t);
  }

  lemma TracedMore(freqIn: nat, invRatio: nat, tried: seq<Trial>, s: Search, t: Trial)
    requires Traced(freqIn, invRatio, tried) && (s.r, s.od, s.cursor) == Before(tried, |tried|)
    requires TrialOk(freqIn, invRatio, |tried| + 1, s.r, s.od, s.cursor, t)
    ensures Traced(freqIn, invRatio, tried + [t])
  {
    hide TrialOk;
    var all := tried + [t];
    forall k | 0 <= k < |all|
      ensures var (r, od, cursor) := Before(all, k); TrialOk(freqIn, invRatio, k + 1, r, od, cursor, all[k])
    {
      assert Before(all, k) == Before(tried, k);
      if k < |tried| { assert all[k] == tried[k]; }
    }
  }

  lemma StillLeast(invRatio: nat, tried: seq<Trial>, s: Search, s': Search, t: Trial)
    requires LeastOf(invRatio, tried, s.best, s.bestError)
    requires s.best.None? ==> s.bestError == 0x7fff_ffff_ffff_ffff
    requires t.outcome != Scored ==> (s'.best, s'.bestError) == (s.best, s.bestError)
    requires t.outcome == Scored ==> ScoredOk(invRatio, |tried| + 1, s, s', t)
    ensures LeastOf(invRatio, tried + [t], s'.best, s'.bestError)
  {
    hide TrialError;
    var all := tried + [t];
    assert all[|tried|] == t && forall k | 0 <= k < |tried| :: all[k] == tried[k];
    if t.outcome == Scored && s'.error < s.bestError {
      assert BestAt(invRatio, all, |tried|, s'.best.value, s'.bestError);
    } else if s.best.Some? {
      var k: nat :| BestAt(invRatio, tried, k, s.best.value, s.bestError);
      assert BestAt(invRatio, all, k, s'.best.value, s'.bestError);
    }
  }

  lemma GoalAtLeast(f: nat, invRatio: nat)
    requires invRatio >= ONE
    ensures Goal(f, invRatio) >= f
  {
    MulMonotone(ONE, invRatio, f);
    DivMonotone(f * ONE, f * invRatio, ONE);
    ModUnique(f * ONE, ONE, f, 0);
  }

  lemma DivMonotone(a: nat, b: nat, d: nat)
    requires a <= b && d > 0
    ensures a / d <= b / d
  {
    DivBounds(b, d);
    assert a == a / d * d + a % d;
    MulCancel(a / d, b / d + 1, d);
  }

  lemma MulCancel(x: nat, y: nat, d: nat)
    requires x * d < y * d
    ensures x < y
  {
    if y <= x { MulMonotone(y, x, d); }
  }

  /** The result is no worse than `f = 1` with the smallest product that reaches the goal, if that is within the
      limits. */
  ghost predicate FirstMatched(freqIn: nat, invRatio: nat, result: Option<Params>) {
    forall c: nat | FirstReach(0, c, Goal(1, invRatio)) && (InSpec(freqIn, 1, R(c)) || InSpec(freqIn, 1, Od(c))) ::
      result.Some? && Product(c) > 0 && ParamsError(result.value, invRatio) <= ErrorOf(1, invRatio, Product(c))
  }

  lemma FirstTried(freqIn: nat, invRatio: nat, best: Option<Params>, bestError: nat, tried: seq<Trial>)
    requires tried != [] && Traced(freqIn, invRatio, tried) && LeastOf(invRatio, tried, best, bestError)
    requires Sound(freqIn, invRatio, best, bestError)
    ensures FirstMatched(freqIn, invRatio, best)
  {
    hide InSpec, R, Od, Product, ErrorOf, Goal, RoundsUp;
    var t := tried[0];
    var (r, od, cursor) := Before(tried, 0);
    assert TrialOk(freqIn, invRatio, 1, r, od, cursor, t);
    forall c: nat | FirstReach(0, c, Goal(1, invRatio)) && (InSpec(freqIn, 1, R(c)) || InSpec(freqIn, 1, Od(c)))
      ensures best.Some? && Product(c) > 0 && ParamsError(best.value, invRatio) <= ErrorOf(1, invRatio, Product(c))
    {
      assert c == t.reach && t.outcome == Scored;
      ProductIs(c);
      MulRange(t.r, t.od);
      assert bestError <= TrialError(invRatio, 0, t);
    }
  }

  // ---------------------------------------------------------------- compute_params

  function Ratio(a: nat, b: nat): nat
    requires b > 0
  {
    DivRound(a * ONE, b)
  }

  lemma ScaleDistance(a: int, b: int, c: nat, bound: nat)
    requires 2 * Distance(a, b) <= bound
    ensures 2 * Distance(a * c, b * c) <= bound * c
  {
    if a < b {
      assert b * c - a * c == (b - a) * c;
      MulMonotone(2 * (b - a), bound, c);
    } else {
      assert a * c - b * c == (a - b) * c;
      MulMonotone(2 * (a - b), bound, c);
    }
  }

  lemma Triangle(a: int, b: int, c: int, m: nat, n: nat)
    requires 2 * Distance(a, b) <= m && 2 * Distance(b, c) <= n
    ensures 2 * Distance(a, c) <= m + n
  {
  }

  lemma Reorder(a: int, b: int, c: int)
    ensures a * b * c == a * (b * c) == b * c * a
  {
  }

  /** The rounded quotient of a rounded quotient is near the exact one. */
  lemma QuotientNear(freqIn: nat, freqOut: nat, f: nat, product: nat)
    requires freqOut > 0 && product > 0
    ensures var x := DivRound(f * Ratio(freqIn, freqOut), product);
            2 * Distance(x * (product * freqOut), f * (freqIn * ONE)) <= product * freqOut + freqOut * f
  {
    var a := Ratio(freqIn, freqOut);
    var x := DivRound(f * a, product);
    RatioNear(freqIn, freqOut);
    RoundNear(f * a, product);
    hide *;
    ScaleDistance(x * product, f * a, freqOut, product);
    ScaleDistance(a * freqOut, freqIn * ONE, f, freqOut);
    Reorder(x, product, freqOut);
    Reorder(f, a, freqOut);
    Reorder(f, freqIn, ONE);
    Triangle(x * product * freqOut, f * a * freqOut, f * (freqIn * ONE), product * freqOut, freqOut * f);
  }

  lemma RatioNear(a: nat, b: nat)
    requires b > 0
    ensures 2 * Distance(Ratio(a, b) * b, a * ONE) <= b
  {
    RoundNear(a * ONE, b);
  }

  /** The score of a setting is its relative error: how far freqIn * f / (r * od) is from the frequency asked for, in
      parts of 65536 of that frequency, with less than one such part and the rounding of two quotients to spare. */
  lemma ScoreIsRelativeError(freqIn: nat, freqOut: nat, p: Params)
    requires freqOut > 0
    ensures var f, product := p.clkf + 1, (p.clkr + 1) * (p.clkod + 1);
            var got, wanted := freqIn * f, freqOut * product;
            2 * Distance(0x1_0000 * ParamsError(p, Ratio(freqIn, freqOut)) * wanted,
                         0x1_0000_0000 * Distance(got, wanted))
            <= 2 * 0x1_0000 * wanted + product * freqOut + freqOut * f
  {
    var f, product := p.clkf + 1, Divisor(p);
    var got, wanted := freqIn * f, freqOut * product;
    var x := DivRound(f * Ratio(freqIn, freqOut), product);
    var e := ParamsError(p, Ratio(freqIn, freqOut));
    QuotientNear(freqIn, freqOut, f, product);
    assert 0x1_0000 * e <= Distance(x, ONE) < 0x1_0000 * e + 0x1_0000;
    hide DivRound, Ratio, ParamsError, ErrorOf, Distance;
    Reorder(f, freqIn, ONE);
    assert got * ONE == f * (freqIn * ONE) && product * freqOut == wanted;
    ScoreBound(x, e, got, wanted, product * freqOut + freqOut * f);
  }

  lemma ScoreBound(x: nat, e: nat, got: nat, wanted: nat, slack: nat)
    requires 0x1_0000 * e <= Distance(x, ONE) < 0x1_0000 * e + 0x1_0000
    requires 2 * Distance(x * wanted, got * ONE) <= slack
    ensures 2 * Distance(0x1_0000 * e * wanted, 0x1_0000_0000 * Distance(got, wanted)) <= 2 * 0x1_0000 * wanted + slack
  {
    DistanceTimes(x, ONE, wanted);
    DistanceTimes(got, wanted, ONE);
    Within(0x1_0000 * e, Distance(x, ONE), wanted);
    Reversed(x * wanted, got * ONE, wanted * ONE);
  }

  lemma Reversed(a: int, b: int, c: int)
    ensures Distance(Distance(a, c), Distance(b, c)) <= Distance(a, b)
  {
  }

  lemma DistanceTimes(a: int, b: int, c: nat)
    ensures Distance(a * c, b * c) == Distance(a, b) * c
  {
    assert (a - b) * c == a * c - b * c;
  }

  lemma Within(low: nat, d: nat, c: nat)
    requires low <= d < low + 0x1_0000
    ensures low * c <= d * c <= low * c + 0x1_0000 * c
  {
    MulMonotone(low, d, c);
    MulMonotone(d, low + 0x1_0000, c);
  }

  lemma RatioAtLeastOne(a: nat, b: nat)
    requires a >= b > 0
    ensures Ratio(a, b) >= ONE && Ratio(b, a) <= ONE
  {
    MulMonotone(b, a, ONE);
    DivMonotone(b * ONE, a * ONE + b / 2, b);
    ModUnique(b * ONE, b, ONE, 0);
    DivMonotone(b * ONE + a / 2, a * ONE + a / 2, a);
    ModUnique(a * ONE + a / 2, a, ONE, a / 2);
  }

  /** The frequencies the search accepts. */
  predicate Accepted(freqIn: nat, freqOut: nat) {
    21_250_000 <= freqOut <= 1_750_000_000 && 13_300_000 <= freqIn <= 1_750_000_000
  }

  /** With these two factors and the `f` nearest to the ratio, the error is no smaller, if they are within limits. */
  ghost predicate NoneBetter(freqIn: nat, ratio: nat, invRatio: nat, r: nat, od: nat, result: Option<Params>) {
    var f := FeedbackFor(Times(r, od), ratio);
    InSpec(freqIn, f, r) && Times(r, od) > 0 ==>
      result.Some? && ParamsError(result.value, invRatio) <= ErrorOf(f, invRatio, Times(r, od))
  }

  lemma BestOfAll(freqIn: nat, ratio: nat, invRatio: nat, result: Option<Params>, r: nat, od: nat)
    requires freqIn <= 27_343_750 && 1 <= r <= 16 && 1 <= od <= 16
    requires forall i | 0 <= i < 101 && Feasible(freqIn, ratio, Product(i)) ::
             result.Some? && Product(i) > 0
                 && ParamsError(result.value, invRatio) <=
                    ErrorOf(FeedbackFor(Product(i), ratio), invRatio, Product(i))
    ensures NoneBetter(freqIn, ratio, invRatio, r, od, result)
  {
    var f := FeedbackFor(Times(r, od), ratio);
    assert f <= 64;
    hide InSpec, Arranged, ErrorOf, ParamsError, Product, FeedbackFor;
    if InSpec(freqIn, f, r) {
      SufficesBelow(freqIn, r, od, f);
      var i := TableComplete(r, od);
    }
  }

  /** `compute_params`: any result keeps the PLL within its limits. When the frequency is raised it is a product of the
      table with its factor, and no feasible one does better, nor, up to 27.34375 MHz, any two factors at all. When it
      is lowered it is the best of the trials made, which include `f = 1`. */
  method ComputeParams(freqIn: nat, freqOut: nat) returns (result: Option<Params>, ghost tried: seq<Trial>)
    ensures result.Some? ==> Accepted(freqIn, freqOut) && WithinLimits(freqIn, result.value)
    ensures result.Some? && freqOut > freqIn ==> result.value.clkf <= 63
                                                 && FromTable(Ratio(freqOut, freqIn), result.value)
    ensures Accepted(freqIn, freqOut) && freqIn < freqOut && Ratio(freqOut, freqIn) <= 64 * ONE ==>
              forall i | 0 <= i < 101 && Feasible(freqIn, Ratio(freqOut, freqIn), Product(i)) ::
                && result.Some? && Product(i) > 0
                && ParamsError(result.value, Ratio(freqIn, freqOut))
                   <= ErrorOf(FeedbackFor(Product(i), Ratio(freqOut, freqIn)), Ratio(freqIn, freqOut), Product(i))
    ensures Accepted(freqIn, freqOut) && freqIn < freqOut && Ratio(freqOut, freqIn) <= 64 * ONE
            && freqIn <= 27_343_750 ==>
              forall r: nat, od: nat | 1 <= r <= 16 && 1 <= od <= 16 ::
                NoneBetter(freqIn, Ratio(freqOut, freqIn), Ratio(freqIn, freqOut), r, od, result)
    ensures Accepted(freqIn, freqOut) && freqIn < freqOut && Ratio(freqOut, freqIn) <= 64 * ONE ==>
              (result.Some? <==> exists i :: 0 <= i < 101 && Feasible(freqIn, Ratio(freqOut, freqIn), Product(i)))
    ensures Accepted(freqIn, freqOut) && freqOut <= freqIn && Ratio(freqIn, freqOut) <= 256 * ONE ==>
              && tried != [] && Traced(freqIn, Ratio(freqIn, freqOut), tried)
                 && FirstMatched(freqIn, Ratio(freqIn, freqOut), result)
              && (exists e: nat :: LeastOf(Ratio(freqIn, freqOut), tried, result, e))
              && (result.Some? <==> Finds(freqIn, Ratio(freqIn, freqOut), 1, -1))
  {
    hide WithinLimits, ParamsError, FirstMatched, Traced, LeastOf, FromTable;
    hide Ratio, Product, Feasible, ErrorOf, FeedbackFor, NoneBetter;
    tried := [];
    if freqOut > 1_750_000_000 || freqOut < 21_250_000 { return None, []; }
    if freqIn > 1_750_000_000 || freqIn < 13_300_000 { return None, []; }
    var ratio, invRatio := Ratio(freqOut, freqIn), Ratio(freqIn, freqOut);
    if freqOut > freqIn {
      if ratio > 64 * ONE { return None, []; }
      RatioAtLeastOne(freqOut, freqIn);
      var e;
      result, e := SearchUp(freqIn, ratio, invRatio);
      if freqIn <= 27_343_750 {
        forall r: nat, od: nat | 1 <= r <= 16 && 1 <= od <= 16
          ensures NoneBetter(freqIn, ratio, invRatio, r, od, result)
        {
          BestOfAll(freqIn, ratio, invRatio, result, r, od);
        }
      }
      if result.Some? { ghost var i := SettingFeasible(freqIn, ratio, result.value); }
    } else {
      if invRatio > 256 * ONE { return None, []; }
      RatioAtLeastOne(freqIn, freqOut);
      var e;
      result, e, tried := SearchDown(freqIn, invRatio);
      FirstTried(freqIn, invRatio, result, e, tried);
    }
  }

  /** Nothing the search computes for accepted frequencies leaves 64 bits. */
  lemma FitsInWords(freqIn: nat, freqOut: nat, f: nat, r: nat, product: nat)
    requires 21_250_000 <= freqOut <= 1_750_000_000 && 13_300_000 <= freqIn <= 1_750_000_000
    requires f <= 257 && 1 <= r <= 16 && 1 <= product <= 256
    ensures freqOut * ONE + freqIn / 2 < 0x1_0000_0000_0000_0000 && freqIn * ONE + freqOut / 2 < 0x1_0000_0000_0000_0000
    ensures Ratio(freqOut, freqIn) <= 64 * ONE ==>
            product * Ratio(freqOut, freqIn) + 0x8000_0000 < 0x1_0000_0000_0000_0000
    ensures Ratio(freqIn, freqOut) <= 256 * ONE ==> f * Ratio(freqIn, freqOut) + product / 2 < 0x1_0000_0000_0000_0000
    ensures freqIn * f + r / 2 < 0x1_0000_0000_0000_0000
  {
    hide Ratio;
    MulMonotone(f, 257, freqIn);
    MulMonotone(product, 256, Ratio(freqOut, freqIn));
    MulMonotone(f, 257, Ratio(freqIn, freqOut));
  }

  // ---------------------------------------------------------------- what lowering can miss

  lemma {:induction false} LowBitsClear(x: nat, k: nat, i: nat)
    requires i < k
    ensures !Bit(x * Pow2(k), i)
    decreases i
  {
    var p := Pow2(k - 1);
    assert x * Pow2(k) == 2 * (x * p) by { assert x * (2 * p) == 2 * (x * p); }
    assert 2 * (x * p) / 2 == x * p && 2 * (x * p) % 2 == 0;
    if i > 0 { LowBitsClear(x, k - 1, i - 1); }
  }

  lemma WholeGoal(f: nat, n: nat)
    ensures Goal(f, n * ONE) == f * n
  {
    hide Pow2, And, Bit;
    assert f * (n * ONE) == (f * n) * ONE;
    ModUnique(f * n * ONE, ONE, f * n, 0);
    PowOne();
    LowBitsClear(f * n, 32, 31);
    AndPow2(f * n * ONE, 31);
  }

  lemma PowOne()
    ensures Pow2(32) == ONE
  {
    assert Pow2(4) == 16;
    Pow2Add(4, 4);
    Pow2Add(8, 8);
    Pow2Add(16, 16);
  }

  /** A turn whose goal is first reached at entry `e` and is too far from the last pair, with no pair of that product
      within limits: the entry is chosen and rejected. */
  lemma Missed(freqIn: nat, n: nat, f: nat, lastR: nat, lastOd: nat, cursor0: nat, t: Trial, e: nat)
    requires TrialOk(freqIn, n * ONE, f, lastR, lastOd, cursor0, t)
    requires 0 < e < 100 && cursor0 <= e && Product(e - 1) < f * n <= Product(e) < Product(e + 1)
    requires AbsDiff(Times(lastR, lastOd), f * n) > Product(e) - f * n
    requires forall r | 1 <= r <= 16 && InSpec(freqIn, f, r) :: 16 * r < Product(e)
    ensures t.outcome != Scored && t.next == e + 1 && Times(t.endR, t.endOd) == Product(e)
  {
    hide R, Od, Product, InSpec, Goal, RoundsUp, Times;
    WholeGoal(f, n);
    assert t.reach <= e;
    if t.reach < e { TableSorted(t.reach, e - 1); }
    assert t.reach == e && t.cursor == e + 1;
    ProductIs(e);
    AtMostSixteen(t.endR, t.endOd);
  }

  lemma AtMostSixteen(r: nat, od: nat)
    requires od <= 16
    ensures Times(r, od) <= 16 * r
  {
    MulMonotone(od, 16, r);
  }

  /** Of 786.25 MHz to 21.25 MHz, which is a ratio of 37, every trial fails: the first product to reach the goal of
      each `f` is always out of limits. */
  lemma {:induction false} NothingScored(tried: seq<Trial>, k: nat)
    requires Traced(786_250_000, 37 * ONE, tried) && k <= |tried|
    ensures k <= 6 && NoneScored(tried[..k])
    ensures var (r, od, cursor) := Before(tried, k);
            (Times(r, od), cursor) == match k case 0 => (0, 0) case 1 => (39, 35) case 2 => (75, 54) case 3 => (112, 71)
                                              case 4 => (150, 83) case 5 => (192, 93) case _ => (224, 98)
  {
    hide Traced, TrialOk, InSpec, R, Od, Product, Times;
    NoPair();
    if k > 0 {
      NothingScored(tried, k - 1);
      var (r, od, cursor) := Before(tried, k - 1);
      var t := tried[k - 1];
      TracedAt(786_250_000, 37 * ONE, tried, k - 1);
      if k <= 6 {
        var e := match k case 1 => 34 case 2 => 53 case 3 => 70 case 4 => 82 case 5 => 92 case _ => 97;
        Entries(k);
        OutOfLimits(k);
        Missed(786_250_000, 37, k, r, od, cursor, t, e);
        assert tried[..k] == tried[..k - 1] + [t];
      } else {
        PastTheTable(786_250_000, r, od, cursor, t);
      }
    }
  }

  lemma TracedAt(freqIn: nat, invRatio: nat, tried: seq<Trial>, k: nat)
    requires Traced(freqIn, invRatio, tried) && k < |tried|
    ensures var (r, od, cursor) := Before(tried, k); TrialOk(freqIn, invRatio, k + 1, r, od, cursor, tried[k])
  {
    hide TrialOk;
  }

  lemma Entries(f: nat)
    requires 1 <= f <= 6
    ensures var e := match f case 1 => 34 case 2 => 53 case 3 => 70 case 4 => 82 case 5 => 92 case _ => 97;
            && Product(e - 1) < f * 37 <= Product(e) < Product(e + 1)
            && Product(e) == match f case 1 => 39 case 2 => 75 case 3 => 112 case 4 => 150 case 5 => 192 case _ => 224
  {
    if f == 1 { } else if f == 2 { } else if f == 3 { } else if f == 4 { } else if f == 5 { } else { }
  }

  lemma OutOfLimits(f: nat)
    requires 1 <= f <= 6
    ensures var p := match f case 1 => 39 case 2 => 75 case 3 => 112 case 4 => 150 case 5 => 192 case _ => 224;
            forall r | 1 <= r <= 16 && InSpec(786_250_000, f, r) :: 16 * r < p
  {
    forall r | 1 <= r <= 16 && InSpec(786_250_000, f, r) ensures 1000 * r < 2320 * f { SlowDivision(f, r); }
  }

  lemma SlowDivision(f: nat, r: nat)
    requires 1 <= f <= 6 && 1 <= r <= 16 && InSpec(786_250_000, f, r)
    ensures 1000 * r < 2320 * f
  {
    var n := 786_250_000 * f + r / 2;
    assert n / r >= 340_000_000;
    assert n == n / r * r + n % r;
    MulMonotone(340_000_000, n / r, r);
  }

  lemma PastTheTable(freqIn: nat, lastR: nat, lastOd: nat, cursor0: nat, t: Trial)
    ensures !TrialOk(freqIn, 37 * ONE, 7, lastR, lastOd, cursor0, t)
  {
    hide R, Od, Product, InSpec, RoundsUp, Times, Goal;
    WholeGoal(7, 37);
    if t.reach < 101 { ProductRange(t.reach); }
  }

  /** The lowering search is not optimal: here it finds nothing, although `f = 4` with entry 81 of the table, 9 times
      16, keeps within all limits. Entry 81 lies below its goal of 148, and entries below a goal are passed over. */
  method LoweringMisses() returns (result: Option<Params>)
    ensures result == None
    ensures Accepted(786_250_000, 21_250_000) && WithinLimits(786_250_000, Params(8, 3, 15, 3))
    ensures (R(81), Od(81)) == (9, 16) && Goal(4, 37 * ONE) == 148
  {
    hide Traced, Goal, InSpec, Finds, Feasible;
    ghost var tried;
    assert Ratio(786_250_000, 21_250_000) == 37 * ONE;
    result, tried := ComputeParams(786_250_000, 21_250_000);
    NothingScored(tried, |tried|);
    assert tried[..|tried|] == tried;
    WholeGoal(4, 37);
    NineIsFine();
  }

  lemma NineIsFine()
    ensures InSpec(786_250_000, 4, 9)
  {
  }
}
