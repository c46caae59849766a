/**
 * The per-face decision of the recognize endpoint of backend/app.py: a query face is
 * compared with every known encoding and takes the name of the nearest one when that
 * distance is below the tolerance.
 */
module Matching {
  import opened Wrappers
  import opened Enrollment

  /** The tolerance given to compare_faces and the bound of the distance test. */
  const Tolerance: real := 0.5

  /** The distance from the query face to each known encoding, in roster order. */
  function FaceDistances<V>(known: seq<V>, q: V, dist: (V, V) -> real): (d: seq<real>)
    ensures |d| == |known|
  {
    seq(|known|, i requires 0 <= i < |known| => dist(known[i], q))
  }

  /** compare_faces: one flag per known encoding, set when it lies within the tolerance. */
  function CompareFaces(d: seq<real>): (matches: seq<bool>)
    ensures |matches| == |d|
  {
    seq(|d|, i requires 0 <= i < |d| => d[i] <= Tolerance)
  }

  /** argmin: the first position holding the least distance. */
  function ArgMin(d: seq<real>): (i: nat)
    requires |d| > 0
    ensures i < |d|
    ensures forall j :: 0 <= j < |d| ==> d[i] <= d[j]
    ensures forall j :: 0 <= j < i ==> d[i] < d[j]
    decreases |d|
  {
    if |d| == 1 then 0
    else
      var i := ArgMin(d[..|d| - 1]);
      if d[|d| - 1] < d[i] then |d| - 1 else i
  }

  /**
   * The position of the known face a query takes its name from, as the endpoint decides
   * it: some compare_faces flag is set, there is a best index, and the distance there is
   * strictly below the tolerance. A query matches exactly when some distance is below
   * the tolerance, and then it takes the first nearest entry.
   */
  function BestMatch(d: seq<real>): (best: Option<nat>)
    ensures best.Some? <==> exists j :: 0 <= j < |d| && d[j] < Tolerance
    ensures best.Some? ==>
      && best.value < |d|
      && d[best.value] < Tolerance
      && (forall j :: 0 <= j < |d| ==> d[best.value] <= d[j])
      && (forall j :: 0 <= j < best.value ==> d[best.value] < d[j])
  {
    var matches := CompareFaces(d);
    var best := if |d| == 0 then None else Some(ArgMin(d));
    assert best.Some? && d[best.value] < Tolerance ==> matches[best.value];
    if true in matches && best.Some? && d[best.value] < Tolerance then best else None
  }

  /**
   * The compare_faces test adds nothing: the decision is the distance test alone, taken
   * at the nearest entry.
   */
  lemma CompareFacesRedundant(d: seq<real>)
    ensures BestMatch(d) == if |d| == 0 then None
                            else if d[ArgMin(d)] < Tolerance then Some(ArgMin(d))
                            else None
  {
    if |d| > 0 && d[ArgMin(d)] < Tolerance {
      assert CompareFaces(d)[ArgMin(d)];
    }
  }

  /** A nearest distance of exactly the tolerance is no match; anything below it is. */
  lemma ThresholdBoundary(d: seq<real>, eps: real)
    requires |d| > 0 && 0.0 < eps
    ensures d[ArgMin(d)] == Tolerance ==> BestMatch(d) == None
    ensures d[ArgMin(d)] == Tolerance - eps ==> BestMatch(d) == Some(ArgMin(d))
  {
    CompareFacesRedundant(d);
  }

  /**
   * Of two entries at the same least distance, the later one is never chosen: the
   * chosen position is at most the earlier one.
   */
  lemma TieGoesToEarlierEntry(d: seq<real>, i: nat, j: nat)
    requires i < j < |d| && d[i] == d[j] && d[i] < Tolerance
    requires forall k :: 0 <= k < |d| ==> d[i] <= d[k]
    ensures BestMatch(d).Some? && BestMatch(d).value <= i
  {
  }

  /** The outcome for one query face. */
  datatype FaceResult = Recognized(name: string, index: nat, distance: real) | Unknown

  /** The outcome for query `q` against the roster. */
  function ClassifyFace<V>(roster: Roster<V>, q: V, dist: (V, V) -> real): (m: FaceResult)
    requires WellFormed(roster)
    ensures m.Recognized? <==>
      exists j :: 0 <= j < |roster.encodings| && dist(roster.encodings[j], q) < Tolerance
    ensures m.Recognized? ==>
      && m.index < |roster.names|
      && m.name == roster.names[m.index]
      && m.distance == dist(roster.encodings[m.index], q) < Tolerance
      && (forall j :: 0 <= j < |roster.encodings| ==> m.distance <= dist(roster.encodings[j], q))
      && (forall j :: 0 <= j < m.index ==> m.distance < dist(roster.encodings[j], q))
  {
    var d := FaceDistances(roster.encodings, q, dist);
    assert forall j :: 0 <= j < |d| ==> d[j] == dist(roster.encodings[j], q);
    match BestMatch(d)
    case Some(i) => Recognized(roster.names[i], i, d[i])
    case None => Unknown
  }

  /** With nothing enrolled every face is unknown. */
  lemma EmptyRosterRecognizesNobody<V>(q: V, dist: (V, V) -> real)
    ensures ClassifyFace(Roster([], []), q, dist) == Unknown
  {
  }
}
