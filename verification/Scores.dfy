/** Scores are 64-bit floats. Two orders on them are in use: the index sorts by total_cmp, which is
    the totalOrder predicate (section 5.10 of IEEE 754-2008); range tests use the IEEE comparisons. */
module Scores {

  /** A finite number is its value; positive zero is Num(0.0) and negative zero stands apart. */
  datatype Score = NaN(neg: bool, payload: nat) | Inf(neg: bool) | NegZero | Num(x: real)

  /** Where a score stands in totalOrder: its class, then its place inside the class. */
  function Rank(s: Score): int {
    match s
    case NaN(neg, _) => if neg then -3 else 4
    case Inf(neg) => if neg then -2 else 3
    case NegZero => 0
    case Num(x) => if x < 0.0 then -1 else if x == 0.0 then 1 else 2
  }

  function Place(s: Score): real {
    match s
    case NaN(neg, payload) => if neg then -(payload as real) else payload as real
    case Num(x) => x
    case _ => 0.0
  }

  predicate TotalLt(a: Score, b: Score) {
    Rank(a) < Rank(b) || (Rank(a) == Rank(b) && Place(a) < Place(b))
  }

  predicate TotalLe(a: Score, b: Score) {
    !TotalLt(b, a)
  }

  lemma TotalLeIsTotalOrder(a: Score, b: Score, c: Score)
    ensures TotalLe(a, b) || TotalLe(b, a)
    ensures TotalLe(a, b) && TotalLe(b, a) ==> a == b
    ensures TotalLe(a, b) && TotalLe(b, c) ==> TotalLe(a, c)
  {
  }

  /** The IEEE comparison a <= b: false for NaN, and the two zeros are equal. */
  function IeeeRank(s: Score): int
    requires !s.NaN?
  {
    if s.Inf? then (if s.neg then -1 else 1) else 0
  }

  predicate IeeeLe(a: Score, b: Score) {
    && !a.NaN? && !b.NaN?
    && (IeeeRank(a) < IeeeRank(b) || (IeeeRank(a) == IeeeRank(b) && Place(a) <= Place(b)))
  }

  predicate IeeeLt(a: Score, b: Score) {
    IeeeLe(a, b) && !IeeeLe(b, a)
  }

  predicate IeeeBetween(s: Score, min: Score, max: Score) {
    IeeeLe(min, s) && IeeeLe(s, max)
  }

  predicate TotalBetween(s: Score, min: Score, max: Score) {
    TotalLe(min, s) && TotalLe(s, max)
  }

  /** Without NaN the two orders differ only on the zeros: IEEE takes them for equal. */
  lemma OrdersDifferOnZeros(a: Score, b: Score)
    requires !a.NaN? && !b.NaN?
    ensures IeeeLe(a, b) <==> TotalLe(a, b) || (a == Num(0.0) && b == NegZero)
  {
  }

  /** The total order in numbers: finite scores by value, then outward from both zeros the infinities and
      the NaNs, a NaN by its payload away from zero. */
  lemma TotalOrderInNumbers(x: real, y: real, p: nat, q: nat)
    ensures TotalLe(Num(x), Num(y)) <==> x <= y
    ensures x < 0.0 ==> TotalLt(Inf(true), Num(x)) && TotalLt(Num(x), NegZero)
    ensures TotalLt(NegZero, Num(0.0))
    ensures x > 0.0 ==> TotalLt(Num(0.0), Num(x)) && TotalLt(Num(x), Inf(false))
    ensures TotalLt(NaN(true, p), Inf(true)) && TotalLt(Inf(false), NaN(false, p))
    ensures TotalLt(NaN(false, p), NaN(false, q)) <==> p < q
    ensures TotalLt(NaN(true, q), NaN(true, p)) <==> p < q
  {
  }

  /** The IEEE comparison in numbers: finite scores by value with the two zeros alike, the infinities
      outside them, and nothing compares with a NaN. */
  lemma IeeeInNumbers(x: real, y: real, s: Score, p: nat, neg: bool)
    ensures IeeeLe(Num(x), Num(y)) <==> x <= y
    ensures IeeeLe(NegZero, Num(x)) <==> 0.0 <= x
    ensures IeeeLe(Num(x), NegZero) <==> x <= 0.0
    ensures !s.NaN? ==> IeeeLe(Inf(true), s) && IeeeLe(s, Inf(false))
    ensures IeeeLe(s, Inf(true)) <==> s == Inf(true)
    ensures IeeeLe(Inf(false), s) <==> s == Inf(false)
    ensures !IeeeLe(NaN(neg, p), s) && !IeeeLe(s, NaN(neg, p))
    ensures IeeeLt(Num(x), Num(y)) <==> x < y
    ensures !IeeeLt(NaN(neg, p), s) && !IeeeLt(s, NaN(neg, p)) && !IeeeLt(NegZero, Num(0.0)) && !IeeeLt(Num(0.0), NegZero)
  {
  }
}
