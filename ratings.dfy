/** The average rating of a document: the integer mean of its ratings. */
module Ratings {

  /** The sum of `s`, adding from the left. */
  function Sum(s: seq<int>): int
  {
    if s == [] then 0 else Sum(s[..|s| - 1]) + s[|s| - 1]
  }

  /** C++ `int` division by a positive divisor: the quotient is truncated
      toward zero (Dafny's own `/` rounds toward negative infinity for a
      negative dividend). */
  function TruncatingDiv(a: int, b: int): (q: int)
    requires b > 0
    ensures 0 <= a ==> 0 <= q && q * b <= a < (q + 1) * b
    ensures a < 0 ==> q <= 0 && (q - 1) * b < a <= q * b
  {
    if a >= 0 then a / b else -((-a) / b)
  }

  /** The mean of the ratings truncated toward zero, or 0 when there are none. */
  function AverageRating(ratings: seq<int>): (r: int)
    ensures ratings == [] ==> r == 0
    ensures ratings != [] && Sum(ratings) >= 0 ==>
      0 <= r && r * |ratings| <= Sum(ratings) < (r + 1) * |ratings|
    ensures ratings != [] && Sum(ratings) < 0 ==>
      r <= 0 && (r - 1) * |ratings| < Sum(ratings) <= r * |ratings|
  {
    if ratings == [] then 0 else TruncatingDiv(Sum(ratings), |ratings|)
  }

  /** Worked cases: {5, 4, 5, 3} averages 17/4, which truncates to 4; no
      ratings give 0; {-5, 2} averages -3/2, which truncates to -1 (not -2). */
  lemma AverageRatingExamples()
    ensures AverageRating([5, 4, 5, 3]) == 4
    ensures AverageRating([]) == 0
    ensures AverageRating([-5, 2]) == -1
  {
    assert Sum([5, 4, 5, 3]) == 17 by {
      assert [5, 4, 5, 3][..3] == [5, 4, 5];
      assert [5, 4, 5][..2] == [5, 4];
      assert [5, 4][..1] == [5];
    }
    assert Sum([-5, 2]) == -3 by {
      assert [-5, 2][..1] == [-5];
    }
  }
}
