/**
 * The star rating of a card: `Math.floor(rating)` full stars, one half
 * star when `rating % 1 >= 0.5`, and empty stars up to five. The rating is
 * an exact `real` here, so no floating-point rounding is modelled.
 */
module Stars {

  datatype Star = Full | Half | Empty

  /** JavaScript's `r % 1`: the remainder keeps the sign of `r`, so it is `r` minus `r` truncated toward zero. */
  function RemainderOfOne(r: real): (m: real)
    ensures r >= 0.0 ==> 0.0 <= m < 1.0 && m == r - r.Floor as real
    ensures r < 0.0 ==> -1.0 < m <= 0.0
    ensures m == r - TowardZero(r) as real
  {
    r - TowardZero(r) as real
  }

  /** `r` rounded toward zero, as `%` in JavaScript rounds the quotient. */
  function TowardZero(r: real): (n: int)
    ensures r >= 0.0 ==> n == r.Floor
    ensures r < 0.0 ==> r <= n as real < r + 1.0
  {
    if r >= 0.0 then r.Floor else -((-r).Floor)
  }

  /** `Math.floor(rating)`: the largest integer not above the rating. */
  function FullStars(rating: real): (n: int)
    ensures n as real <= rating < n as real + 1.0
  {
    rating.Floor
  }

  /** `rating % 1 >= 0.5`: never for a negative rating, whose remainder is not positive. */
  function HasHalfStar(rating: real): (h: bool)
    ensures rating >= 0.0 ==> (h <==> rating - rating.Floor as real >= 0.5)
    ensures rating < 0.0 ==> !h
  {
    RemainderOfOne(rating) >= 0.5
  }

  /** The stars left to make five; negative above five, when the loop never runs. */
  function EmptyStars(rating: real): (n: int)
    ensures 0.0 <= rating <= 5.0 ==> 0 <= n <= 5
    ensures rating >= 6.0 ==> n < 0
  {
    5 - FullStars(rating) - (if HasHalfStar(rating) then 1 else 0)
  }

  /** `n` copies of `s`; none when `n` is not positive, as a `for` loop that never runs. */
  function Repeat(s: Star, n: int): (r: seq<Star>)
    ensures |r| == if n > 0 then n else 0
    ensures forall i :: 0 <= i < |r| ==> r[i] == s
  {
    if n <= 0 then [] else Repeat(s, n - 1) + [s]
  }

  /** The three counts for a rating between 0 and 5 are non-negative and make five stars. */
  lemma StarCountsInRange(rating: real)
    requires 0.0 <= rating <= 5.0
    ensures 0 <= FullStars(rating) <= 5 && 0 <= EmptyStars(rating) <= 5
    ensures FullStars(rating) + (if HasHalfStar(rating) then 1 else 0) + EmptyStars(rating) == 5
    ensures HasHalfStar(rating) <==> rating - rating.Floor as real >= 0.5
  {
  }

  /** The row of stars of a card: the full stars, then the half star if any, then the empty stars. */
  function StarRow(rating: real): seq<Star> {
    Repeat(Full, FullStars(rating)) + (if HasHalfStar(rating) then [Half] else []) + Repeat(Empty, EmptyStars(rating))
  }

  /** A rating between 0 and 5 always draws exactly five stars, with ⌊rating⌋ full ones. */
  lemma StarRowHasFive(rating: real)
    requires 0.0 <= rating <= 5.0
    ensures |StarRow(rating)| == 5
    ensures forall i :: 0 <= i < 5 ==> (StarRow(rating)[i] == Full <==> i < rating.Floor)
  {
    StarCountsInRange(rating);
  }

  /** A half star is drawn exactly when the remainder is at least one half, and the stars are ordered full, half, empty. */
  lemma StarRowShape(rating: real)
    ensures Half in StarRow(rating) <==> HasHalfStar(rating)
    ensures forall i, j :: 0 <= i < j < |StarRow(rating)| && StarRow(rating)[j] == Full ==> StarRow(rating)[i] == Full
    ensures forall i, j :: 0 <= i < j < |StarRow(rating)| && StarRow(rating)[i] == Empty ==> StarRow(rating)[j] == Empty
  {
    var full, half := Repeat(Full, FullStars(rating)), if HasHalfStar(rating) then [Half] else [];
    var row := StarRow(rating);
    assert forall i :: 0 <= i < |row| ==> row[i] == (if i < |full| then Full else if i < |full| + |half| then Half else Empty);
    if HasHalfStar(rating) { assert row[|full|] == Half; }
  }

  /** generateStars, with each SVG replaced by the kind of star it draws. */
  method GenerateStars(rating: real) returns (stars: seq<Star>)
    ensures stars == StarRow(rating)
    ensures 0.0 <= rating <= 5.0 ==> |stars| == 5
    ensures Half in stars <==> HasHalfStar(rating)
  {
    var fullStars := FullStars(rating);
    var hasHalfStar := HasHalfStar(rating);
    var emptyStars := EmptyStars(rating);
    stars := [];
    var i := 0;
    while i < fullStars
      invariant 0 <= i <= (if fullStars > 0 then fullStars else 0)
      invariant stars == Repeat(Full, i)
    {
      stars := stars + [Full];
      i := i + 1;
    }
    assert stars == Repeat(Full, fullStars);
    if hasHalfStar {
      stars := stars + [Half];
    }
    ghost var head := stars;
    i := 0;
    while i < emptyStars
      invariant 0 <= i <= (if emptyStars > 0 then emptyStars else 0)
      invariant stars == head + Repeat(Empty, i)
    {
      stars := stars + [Empty];
      i := i + 1;
    }
    assert stars == head + Repeat(Empty, emptyStars);
    StarRowShape(rating);
    if 0.0 <= rating <= 5.0 {
      StarRowHasFive(rating);
    }
  }
}
