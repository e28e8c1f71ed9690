/** The grade ladder shared by the letter and grade-point mappings, and the two
    rounding rules the engine relies on: Python's `round(x, 2)` for the stored
    GPA and SQL's `ROUND(x, 2)` for the course average. */
module Grading {

  datatype Letter = A | B | C | D | F

  /** Letter for a numeric grade; every threshold is an inclusive lower bound. */
  function CalculateLetter(grade: real): (l: Letter)
    ensures l == A <==> 90.0 <= grade
    ensures l == B <==> 80.0 <= grade < 90.0
    ensures l == C <==> 70.0 <= grade < 80.0
    ensures l == D <==> 60.0 <= grade < 70.0
    ensures l == F <==> grade < 60.0
  {
    if grade >= 90.0 then A
    else if grade >= 80.0 then B
    else if grade >= 70.0 then C
    else if grade >= 60.0 then D
    else F
  }

  /** Grade points for a numeric grade, on the same thresholds as the letter. */
  function GradeToGpaPoints(grade: real): (p: real)
    ensures 0.0 <= p <= 4.0
  {
    if grade >= 90.0 then 4.0
    else if grade >= 80.0 then 3.0
    else if grade >= 70.0 then 2.0
    else if grade >= 60.0 then 1.0
    else 0.0
  }

  /** The points a letter stands for. */
  function LetterPoints(l: Letter): real {
    match l
    case A => 4.0
    case B => 3.0
    case C => 2.0
    case D => 1.0
    case F => 0.0
  }

  /** The two mappings agree: the points of a grade are the points of its letter. */
  lemma PointsAgreeWithLetter(grade: real)
    ensures GradeToGpaPoints(grade) == LetterPoints(CalculateLetter(grade))
  {
  }

  /** A higher grade never earns fewer points, nor a worse letter. */
  lemma PointsMonotone(g1: real, g2: real)
    requires g1 <= g2
    ensures GradeToGpaPoints(g1) <= GradeToGpaPoints(g2)
    ensures LetterPoints(CalculateLetter(g1)) <= LetterPoints(CalculateLetter(g2))
  {
  }

  /** The boundary grades. */
  lemma Boundaries()
    ensures CalculateLetter(90.0) == A && CalculateLetter(89.99) == B
    ensures CalculateLetter(80.0) == B && CalculateLetter(79.99) == C
    ensures CalculateLetter(70.0) == C && CalculateLetter(69.99) == D
    ensures CalculateLetter(60.0) == D && CalculateLetter(59.99) == F
  {
  }

  /** One table of (lower bound, letter, points) rows, best first: an
      independent statement of the ladder both mappings encode. */
  const Ladder: seq<(real, Letter, real)> :=
    [(90.0, A, 4.0), (80.0, B, 3.0), (70.0, C, 2.0), (60.0, D, 1.0)]

  /** The first rung of `rungs` whose lower bound `grade` reaches, or (F, 0). */
  function Rung(rungs: seq<(real, Letter, real)>, grade: real): (Letter, real) {
    if rungs == [] then (F, 0.0)
    else if grade >= rungs[0].0 then (rungs[0].1, rungs[0].2)
    else Rung(rungs[1..], grade)
  }

  lemma {:induction false} LadderAgrees(grade: real)
    ensures Rung(Ladder, grade) == (CalculateLetter(grade), GradeToGpaPoints(grade))
  {
    var r1, r2, r3 := Ladder[1..], Ladder[2..], Ladder[3..];
    assert r1[1..] == r2 && r2[1..] == r3 && r3[1..] == [];
    assert Rung(r3, grade) == if grade >= 60.0 then (D, 1.0) else (F, 0.0);
    assert Rung(r2, grade) == if grade >= 70.0 then (C, 2.0) else Rung(r3, grade);
    assert Rung(r1, grade) == if grade >= 80.0 then (B, 3.0) else Rung(r2, grade);
  }

  /** `r` is a whole number of hundredths. */
  predicate IsHundredths(r: real) {
    (r * 100.0).Floor as real == r * 100.0
  }

  /** Python's `round(x, 2)` taken on the exact value: the nearest multiple of
      0.01, a tie going to the even number of hundredths. */
  function RoundHalfEven2(x: real): (r: real)
    ensures IsHundredths(r)
    ensures -0.005 <= r - x <= 0.005
    ensures r - x == 0.005 || x - r == 0.005 ==> (r * 100.0).Floor % 2 == 0
  {
    var scaled := x * 100.0;
    var k := scaled.Floor;
    var frac := scaled - k as real;
    var n := if frac < 0.5 then k
             else if frac > 0.5 then k + 1
             else if k % 2 == 0 then k else k + 1;
    n as real / 100.0
  }

  /** SQL's `ROUND(x, 2)`: the nearest multiple of 0.01, a tie going away
      from zero. */
  function RoundHalfAway2(x: real): (r: real)
    ensures IsHundredths(r)
    ensures -0.005 <= r - x <= 0.005
    ensures r - x == 0.005 || x - r == 0.005 ==> if x >= 0.0 then r > x else r < x
  {
    if x >= 0.0 then RoundUpHalf2(x) else - RoundUpHalf2(- x)
  }

  /** The nearest multiple of 0.01 to a non-negative `x`, a tie going up. */
  function RoundUpHalf2(x: real): (r: real)
    requires x >= 0.0
    ensures IsHundredths(r) && IsHundredths(- r) && r >= 0.0
    ensures -0.005 < r - x <= 0.005
  {
    var n := (x * 100.0 + 0.5).Floor;
    HundredthsOf(n);
    n as real / 100.0
  }

  /** A whole number of hundredths, either sign. */
  lemma HundredthsOf(n: int)
    ensures IsHundredths(n as real / 100.0) && IsHundredths(- (n as real / 100.0))
  {
    assert (n as real / 100.0) * 100.0 == n as real;
    assert (- (n as real / 100.0)) * 100.0 == (- n) as real;
  }

  /** Rounding to the nearest hundredth never leaves an interval whose ends
      are hundredths. */
  lemma {:induction false} NearestHundredthStaysWithin(x: real, r: real, lo: real, hi: real)
    requires IsHundredths(r) && -0.005 <= r - x <= 0.005
    requires IsHundredths(lo) && IsHundredths(hi) && lo <= x <= hi
    ensures lo <= r <= hi
  {
    var n, l, h := (r * 100.0).Floor, (lo * 100.0).Floor, (hi * 100.0).Floor;
    assert n >= l;
    assert n <= h;
  }

  /** A weighted average in [0, 4] stays in [0, 4] once rounded. */
  lemma RoundedGpaInRange(x: real)
    requires 0.0 <= x <= 4.0
    ensures 0.0 <= RoundHalfEven2(x) <= 4.0
  {
    NearestHundredthStaysWithin(x, RoundHalfEven2(x), 0.0, 4.0);
  }

  /** A tie between two hundredths goes to the even one: 0.125 is stored as
      0.12 and 0.375 as 0.38. */
  lemma HalfEvenTies()
    ensures RoundHalfEven2(0.125) == 0.12 && RoundHalfEven2(0.375) == 0.38
    ensures RoundHalfAway2(0.125) == 0.13
  {
    assert (0.125 * 100.0).Floor == 12;
    assert (0.375 * 100.0).Floor == 37;
    assert (0.125 * 100.0 + 0.5).Floor == 13;
  }
}
