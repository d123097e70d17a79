/**
 * The grade scale of constants.ts: a descending table of score bands that maps
 * a score in [0, 100] to a letter and a grade point, and the reverse lookup
 * from a grade point to a letter.
 */
module GradeScale {
  import opened Wrappers

  datatype GradeDetails = GradeDetails(letter: string, point: real, color: string)

  datatype GradeBand = GradeBand(minScore: real, details: GradeDetails)

  /** The table, highest band first. */
  const SCALE: seq<GradeBand> := [
    GradeBand(86.0, GradeDetails("A", 4.0, "text-green-500")),
    GradeBand(71.0, GradeDetails("B", 3.0, "text-blue-500")),
    GradeBand(56.0, GradeDetails("C", 2.0, "text-yellow-500")),
    GradeBand(40.0, GradeDetails("D", 1.0, "text-orange-500")),
    GradeBand(0.0, GradeDetails("E", 0.0, "text-red-500"))
  ]

  /** What a missing or out-of-range score resolves to. */
  const SENTINEL: GradeDetails := GradeDetails("-", 0.0, "text-gray-500")

  /** The value returned when no band matches; unreachable, see FallbackUnreachable. */
  const FALLBACK: GradeDetails := GradeDetails("E", 0.0, "text-red-500")

  predicate InRange(score: real) {
    0.0 <= score <= 100.0
  }

  /**
   * The position of the band `Array.prototype.find` returns: the first band, in
   * table order, whose minimum does not exceed the score.
   */
  function FindBand(table: seq<GradeBand>, score: real): (r: Option<nat>)
    ensures r.Some? ==> r.value < |table| && table[r.value].minScore <= score
    ensures r.Some? ==> forall j :: 0 <= j < r.value ==> table[j].minScore > score
    ensures r.None? ==> forall j :: 0 <= j < |table| ==> table[j].minScore > score
  {
    if table == [] then None
    else if score >= table[0].minScore then Some(0)
    else match FindBand(table[1..], score)
      case None => None
      case Some(i) => Some(i + 1)
  }

  /** getGradeDetailsFromScore. */
  function DetailsFromScore(score: Option<real>): (d: GradeDetails)
    ensures score.None? || !InRange(score.value) ==> d == SENTINEL
    ensures 0.0 <= d.point <= 4.0
  {
    if score.None? || score.value < 0.0 || score.value > 100.0 then SENTINEL
    else match FindBand(SCALE, score.value)
      case Some(i) => SCALE[i].details
      case None => FALLBACK
  }

  /** The band minimum 0 matches every non-negative score, so `find` never fails here. */
  lemma FallbackUnreachable(score: real)
    requires score >= 0.0
    ensures FindBand(SCALE, score).Some?
  {
    assert SCALE[4].minScore == 0.0;
  }

  /** The band an in-range score falls into, by its position in the table. */
  function BandOf(score: real): nat {
    if score >= 86.0 then 0
    else if score >= 71.0 then 1
    else if score >= 56.0 then 2
    else if score >= 40.0 then 3
    else 4
  }

  /** `find` on the table agrees with the band boundaries. */
  lemma FindBandOnScale(score: real)
    requires score >= 0.0
    ensures FindBand(SCALE, score) == Some(BandOf(score))
  {
    var b := BandOf(score);
    assert SCALE[0].minScore == 86.0 && SCALE[1].minScore == 71.0 && SCALE[2].minScore == 56.0;
    assert SCALE[3].minScore == 40.0 && SCALE[4].minScore == 0.0;
    FallbackUnreachable(score);
    var k := FindBand(SCALE, score).value;
    assert SCALE[b].minScore <= score;
    assert forall j :: 0 <= j < b ==> SCALE[j].minScore > score;
    assert !(k < b);
    assert !(b < k);
  }

  /** An in-range score resolves to the first band whose minimum it reaches. */
  lemma DetailsIsFirstBand(score: real)
    requires InRange(score)
    ensures exists i :: (0 <= i < |SCALE| && DetailsFromScore(Some(score)) == SCALE[i].details &&
                         SCALE[i].minScore <= score && forall j :: 0 <= j < i ==> SCALE[j].minScore > score)
  {
    FallbackUnreachable(score);
    var i := FindBand(SCALE, score).value;
    assert DetailsFromScore(Some(score)) == SCALE[i].details;
  }

  /** The scale written out band by band: largest band minimum not exceeding the score. */
  lemma DetailsByBand(score: real)
    requires InRange(score)
    ensures var d := DetailsFromScore(Some(score));
      (score >= 86.0 ==> d.letter == "A" && d.point == 4.0) &&
      (71.0 <= score < 86.0 ==> d.letter == "B" && d.point == 3.0) &&
      (56.0 <= score < 71.0 ==> d.letter == "C" && d.point == 2.0) &&
      (40.0 <= score < 56.0 ==> d.letter == "D" && d.point == 1.0) &&
      (score < 40.0 ==> d.letter == "E" && d.point == 0.0)
  {
    FindBandOnScale(score);
  }

  /** Every in-range score earns one of the five table points. */
  lemma PointIsTablePoint(score: real)
    requires InRange(score)
    ensures DetailsFromScore(Some(score)).point in {0.0, 1.0, 2.0, 3.0, 4.0}
    ensures DetailsFromScore(Some(score)).letter in {"A", "B", "C", "D", "E"}
  {
    DetailsByBand(score);
  }

  /** A higher score never earns a lower point. */
  lemma PointMonotone(s1: real, s2: real)
    requires InRange(s1) && InRange(s2) && s1 <= s2
    ensures DetailsFromScore(Some(s1)).point <= DetailsFromScore(Some(s2)).point
  {
    DetailsByBand(s1);
    DetailsByBand(s2);
  }

  /** The band boundaries are exact. */
  lemma Boundaries()
    ensures DetailsFromScore(Some(86.0)).letter == "A"
    ensures DetailsFromScore(Some(85.999)).letter == "B"
    ensures DetailsFromScore(Some(71.0)).letter == "B"
    ensures DetailsFromScore(Some(70.0)).letter == "C"
    ensures DetailsFromScore(Some(56.0)).letter == "C"
    ensures DetailsFromScore(Some(55.0)).letter == "D"
    ensures DetailsFromScore(Some(40.0)).letter == "D"
    ensures DetailsFromScore(Some(39.0)).letter == "E"
    ensures DetailsFromScore(Some(0.0)).letter == "E"
    ensures DetailsFromScore(Some(100.5)) == SENTINEL && DetailsFromScore(Some(-1.0)) == SENTINEL
  {
    DetailsByBand(86.0);
    DetailsByBand(85.999);
    DetailsByBand(71.0);
    DetailsByBand(70.0);
    DetailsByBand(56.0);
    DetailsByBand(55.0);
    DetailsByBand(40.0);
    DetailsByBand(39.0);
    DetailsByBand(0.0);
  }

  function Abs(x: real): real {
    if x < 0.0 then -x else x
  }

  /** How far a band's point lies from the given point. */
  function Distance(b: GradeBand, point: real): real {
    Abs(b.details.point - point)
  }

  /**
   * The position `reduce` (without an initial value) ends on when folding the
   * first n bands: it keeps the earlier band unless the next one is strictly
   * closer. So the result is the FIRST band of minimal distance.
   */
  function ClosestBand(table: seq<GradeBand>, n: nat, point: real): (k: nat)
    requires 1 <= n <= |table|
    ensures k < n
    ensures forall j :: 0 <= j < n ==> Distance(table[k], point) <= Distance(table[j], point)
    ensures forall j :: 0 <= j < k ==> Distance(table[j], point) > Distance(table[k], point)
  {
    if n == 1 then 0
    else
      var prev := ClosestBand(table, n - 1, point);
      if Distance(table[n - 1], point) < Distance(table[prev], point) then n - 1 else prev
  }

  /** getGradeLetterFromPoint. */
  function LetterFromPoint(point: Option<real>): (letter: string)
    ensures point.None? || point.value < 0.0 || point.value > 4.0 ==> letter == "-"
  {
    if point.None? || point.value < 0.0 || point.value > 4.0 then "-"
    else
      var k := ClosestBand(SCALE, |SCALE|, point.value);
      if SCALE[k].details.point == point.value then SCALE[k].details.letter else "?"
  }

  /**
   * The reverse lookup answers only exact matches: the letter of the table band
   * whose point equals the given one, and "?" when no band's point does.
   */
  lemma LetterFromPointExact(point: real)
    requires 0.0 <= point <= 4.0
    ensures forall i :: 0 <= i < |SCALE| && SCALE[i].details.point == point ==>
      LetterFromPoint(Some(point)) == SCALE[i].details.letter
    ensures LetterFromPoint(Some(point)) == "?" <==>
      forall i :: 0 <= i < |SCALE| ==> SCALE[i].details.point != point
  {
    var k := ClosestBand(SCALE, |SCALE|, point);
    forall i | 0 <= i < |SCALE| && SCALE[i].details.point == point
      ensures LetterFromPoint(Some(point)) == SCALE[i].details.letter
    {
      assert Distance(SCALE[i], point) == 0.0;
      assert SCALE[k].details.point == point;
    }
  }

  /** Reverse-lookup examples. */
  lemma LetterExamples()
    ensures LetterFromPoint(Some(4.0)) == "A"
    ensures LetterFromPoint(Some(3.5)) == "?"
    ensures LetterFromPoint(Some(-1.0)) == "-"
    ensures LetterFromPoint(None) == "-"
  {
    assert SCALE[0].details.point == 4.0;
    LetterFromPointExact(4.0);
    LetterFromPointExact(3.5);
  }

  /** The reverse lookup recovers the letter an in-range score resolves to. */
  lemma RoundTrip(score: real)
    requires InRange(score)
    ensures LetterFromPoint(Some(DetailsFromScore(Some(score)).point)) == DetailsFromScore(Some(score)).letter
  {
    DetailsIsFirstBand(score);
    LetterFromPointExact(DetailsFromScore(Some(score)).point);
  }
}
