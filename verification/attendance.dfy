/**
 * The reconciliation of the recognize endpoint of backend/app.py: every query face is
 * classified on its own, the recognized names are collected once each in first-seen
 * order, and every student of the manifest whose name was not recognized is absent.
 */
module Attendance {
  import opened Seqs
  import opened Enrollment
  import opened Matching

  /** The fields of the endpoint's answer that the matching decides. */
  datatype Report = Report(totalFaces: nat, present: seq<string>, absent: seq<string>, unknown: nat)

  /** The outcome of every query face, in upload order. */
  function Classify<V>(roster: Roster<V>, queries: seq<V>, dist: (V, V) -> real): (rs: seq<FaceResult>)
    requires WellFormed(roster)
    ensures |rs| == |queries|
  {
    seq(|queries|, i requires 0 <= i < |queries| => ClassifyFace(roster, queries[i], dist))
  }

  /** The names of the recognized faces, one per recognized face, in face order. */
  function MatchedNames(rs: seq<FaceResult>): (m: seq<string>)
    ensures |m| <= |rs|
    decreases |rs|
  {
    if |rs| == 0 then []
    else
      var n := |rs| - 1;
      var prev := MatchedNames(rs[..n]);
      match rs[n]
      case Recognized(x, _, _) => prev + [x]
      case Unknown => prev
  }

  /** A name is matched exactly when some face is recognized under it. */
  lemma {:induction false} MatchedNamesAreRecognized(rs: seq<FaceResult>)
    ensures forall x :: x in MatchedNames(rs) <==> exists i :: 0 <= i < |rs| && rs[i].Recognized? && rs[i].name == x
    decreases |rs|
  {
    if |rs| > 0 {
      var n := |rs| - 1;
      MatchedNamesAreRecognized(rs[..n]);
      assert forall i :: 0 <= i < n ==> rs[..n][i] == rs[i];
    }
  }

  /** The positions of the recognized faces, in increasing order. */
  ghost function RecognizedIndices(rs: seq<FaceResult>): (idx: seq<nat>)
    ensures forall k :: 0 <= k < |idx| ==> idx[k] < |rs| && rs[idx[k]].Recognized?
    ensures forall k, l :: 0 <= k < l < |idx| ==> idx[k] < idx[l]
    ensures forall i :: 0 <= i < |rs| && rs[i].Recognized? ==> i in idx
    decreases |rs|
  {
    if |rs| == 0 then []
    else
      var n := |rs| - 1;
      var prev := RecognizedIndices(rs[..n]);
      if rs[n].Recognized? then prev + [n] else prev
  }

  /**
   * Entry k of the matched names is the name of the k-th recognized face: the names
   * follow the order of the faces in the upload.
   */
  lemma {:induction false} MatchedNamesSelects(rs: seq<FaceResult>)
    ensures var m, idx := MatchedNames(rs), RecognizedIndices(rs);
      && |m| == |idx|
      && forall k :: 0 <= k < |idx| ==> m[k] == rs[idx[k]].name
    decreases |rs|
  {
    if |rs| > 0 {
      MatchedNamesSelects(rs[..|rs| - 1]);
    }
  }

  /** The first face of the upload recognized as `x`. */
  ghost function FirstFaceFor(rs: seq<FaceResult>, x: string): (f: nat)
    requires x in MatchedNames(rs)
    ensures f < |rs| && rs[f].Recognized? && rs[f].name == x
    ensures forall g :: 0 <= g < f ==> !(rs[g].Recognized? && rs[g].name == x)
  {
    MatchedNamesSelects(rs);
    FirstRecognizedFace(rs, x);
    RecognizedIndices(rs)[FirstIndex(MatchedNames(rs), x)]
  }

  /** The face behind the first occurrence of `x` among the matched names is the first face recognized as `x`. */
  lemma FirstRecognizedFace(rs: seq<FaceResult>, x: string)
    requires x in MatchedNames(rs)
    ensures var m, idx := MatchedNames(rs), RecognizedIndices(rs);
      && |m| == |idx|
      && var f := idx[FirstIndex(m, x)];
         && rs[f].Recognized? && rs[f].name == x
         && forall g :: 0 <= g < f ==> !(rs[g].Recognized? && rs[g].name == x)
  {
    MatchedNamesSelects(rs);
    var m, idx := MatchedNames(rs), RecognizedIndices(rs);
    var k := FirstIndex(m, x);
    var f := idx[k];
    forall g | 0 <= g < f && rs[g].Recognized?
      ensures rs[g].name != x
    {
      assert g in idx;
      var l :| 0 <= l < |idx| && idx[l] == g;
      assert l < k;
      assert m[l] == rs[g].name;
    }
  }

  /** The number of faces left unknown: every face is either recognized or unknown. */
  function CountUnknown(rs: seq<FaceResult>): (n: nat)
    ensures n + |MatchedNames(rs)| == |rs|
    decreases |rs|
  {
    if |rs| == 0 then 0
    else
      var prev := CountUnknown(rs[..|rs| - 1]);
      if rs[|rs| - 1].Unknown? then prev + 1 else prev
  }

  /** Query face `q` is recognized as the student named `x`. */
  predicate FaceRecognizedAs<V>(roster: Roster<V>, q: V, dist: (V, V) -> real, x: string)
    requires WellFormed(roster)
  {
    var m := ClassifyFace(roster, q, dist);
    m.Recognized? && m.name == x
  }

  /** Some face of the upload is recognized as `x`: `x` is among the detected names. */
  predicate Detected<V>(roster: Roster<V>, queries: seq<V>, dist: (V, V) -> real, x: string)
    requires WellFormed(roster)
  {
    exists i :: 0 <= i < |queries| && FaceRecognizedAs(roster, queries[i], dist, x)
  }

  /** The attendance report for one uploaded photo. */
  function Reconcile<V>(students: seq<Student>, roster: Roster<V>, queries: seq<V>, dist: (V, V) -> real): (r: Report)
    requires WellFormed(roster)
    ensures r.totalFaces == |queries|
    ensures r.unknown + |MatchedNames(Classify(roster, queries, dist))| == r.totalFaces
    ensures NoDup(r.present)
    ensures forall x :: x in r.absent <==> x in Names(students) && x !in r.present
  {
    var rs := Classify(roster, queries, dist);
    var matched := MatchedNames(rs);
    Report(|queries|, Dedup(matched), Without(Names(students), Elems(matched)), CountUnknown(rs))
  }

  /** Present holds exactly the detected names: those some face is recognized as. */
  lemma PresentIsDetected<V>(students: seq<Student>, roster: Roster<V>, queries: seq<V>, dist: (V, V) -> real)
    requires WellFormed(roster)
    ensures forall x :: x in Reconcile(students, roster, queries, dist).present <==> Detected(roster, queries, dist, x)
  {
    var rs := Classify(roster, queries, dist);
    var matched := MatchedNames(rs);
    MatchedNamesAreRecognized(rs);
    forall x ensures x in matched <==> Detected(roster, queries, dist, x) {
      if x in matched {
        var i :| 0 <= i < |rs| && rs[i].Recognized? && rs[i].name == x;
        assert FaceRecognizedAs(roster, queries[i], dist, x);
      }
      if Detected(roster, queries, dist, x) {
        var i :| 0 <= i < |queries| && FaceRecognizedAs(roster, queries[i], dist, x);
        assert rs[i].Recognized? && rs[i].name == x;
      }
    }
  }

  /**
   * The endpoint's loop: each face is classified, a recognized name is added to the
   * detected set and appended to present unless already there, an unknown face is
   * counted; afterwards absent lists the students not detected.
   */
  method Recognize<V>(students: seq<Student>, roster: Roster<V>, queries: seq<V>, dist: (V, V) -> real)
    returns (report: Report)
    requires WellFormed(roster)
    ensures report == Reconcile(students, roster, queries, dist)
  {
    var present: seq<string> := [];
    var detected: set<string> := {};
    var unknown: nat := 0;
    ghost var rs := Classify(roster, queries, dist);
    ghost var matched: seq<string> := [];
    for i := 0 to |queries|
      invariant matched == MatchedNames(rs[..i])
      invariant present == Dedup(matched)
      invariant detected == Elems(matched)
      invariant unknown == CountUnknown(rs[..i])
    {
      var m := ClassifyFace(roster, queries[i], dist);
      assert rs[i] == m;
      AppendFace(rs, i);
      if m.Recognized? {
        var name := m.name;
        DedupAppend(matched, name);
        matched := matched + [name];
        detected := detected + {name};
        if name !in present {
          present := present + [name];
        }
      } else {
        unknown := unknown + 1;
      }
    }
    assert rs[..|queries|] == rs;
    var absent := Without(Names(students), detected);
    report := Report(|queries|, present, absent, unknown);
  }

  /** Taking one more face into account extends the matched names and the unknown count. */
  lemma AppendFace(rs: seq<FaceResult>, i: nat)
    requires i < |rs|
    ensures MatchedNames(rs[..i + 1]) ==
      if rs[i].Recognized? then MatchedNames(rs[..i]) + [rs[i].name] else MatchedNames(rs[..i])
    ensures CountUnknown(rs[..i + 1]) ==
      if rs[i].Unknown? then CountUnknown(rs[..i]) + 1 else CountUnknown(rs[..i])
  {
    assert rs[..i + 1][..i] == rs[..i];
  }

  /**
   * Present lists each name in the order of the face that first matched it: of two
   * names in present, the earlier one was recognized on an earlier face.
   */
  lemma PresentFirstSeenOrder<V>(students: seq<Student>, roster: Roster<V>, queries: seq<V>, dist: (V, V) -> real)
    requires WellFormed(roster)
    ensures var rs, r := Classify(roster, queries, dist), Reconcile(students, roster, queries, dist);
      forall i, j :: 0 <= i < j < |r.present| ==>
        && r.present[i] in MatchedNames(rs)
        && r.present[j] in MatchedNames(rs)
        && FirstFaceFor(rs, r.present[i]) < FirstFaceFor(rs, r.present[j])
  {
    var rs := Classify(roster, queries, dist);
    var matched := MatchedNames(rs);
    var present := Dedup(matched);
    DedupFirstSeenOrder(matched);
    MatchedNamesSelects(rs);
    var idx := RecognizedIndices(rs);
    forall i, j | 0 <= i < j < |present|
      ensures FirstFaceFor(rs, present[i]) < FirstFaceFor(rs, present[j])
    {
      assert present[i] in matched && present[j] in matched;
      assert FirstIndex(matched, present[i]) < FirstIndex(matched, present[j]);
    }
  }

  /** However many faces match one student, the name is in present exactly once. */
  lemma DuplicateMatchesCollapse<V>(students: seq<Student>, roster: Roster<V>, queries: seq<V>,
                                    dist: (V, V) -> real, i: nat, j: nat, x: string)
    requires WellFormed(roster)
    requires i < j < |queries|
    requires FaceRecognizedAs(roster, queries[i], dist, x) && FaceRecognizedAs(roster, queries[j], dist, x)
    ensures multiset(Reconcile(students, roster, queries, dist).present)[x] == 1
  {
    var present := Reconcile(students, roster, queries, dist).present;
    PresentIsDetected(students, roster, queries, dist);
    assert Detected(roster, queries, dist, x);
    NoDupCountsOnce(present, x);
  }

  /** Absent keeps manifest order and every record of each undetected name, including never-enrolled students. */
  lemma AbsentKeepsManifestOrder<V>(students: seq<Student>, roster: Roster<V>, queries: seq<V>, dist: (V, V) -> real)
    requires WellFormed(roster)
    ensures var r := Reconcile(students, roster, queries, dist);
      && IsSubseq(r.absent, Names(students))
      && forall x :: multiset(r.absent)[x] == if x in r.present then 0 else multiset(Names(students))[x]
  {
    var matched := MatchedNames(Classify(roster, queries, dist));
    WithoutIsOrderedSelection(Names(students), Elems(matched));
  }

  /** With nothing enrolled every face is unknown, nobody is present and every student is absent. */
  lemma {:induction false} EmptyRosterReport<V>(students: seq<Student>, queries: seq<V>, dist: (V, V) -> real)
    ensures Reconcile(students, Roster([], []), queries, dist)
         == Report(|queries|, [], Names(students), |queries|)
  {
    var rs := Classify(Roster([], []), queries, dist);
    assert forall i :: 0 <= i < |rs| ==> rs[i] == Unknown;
    AllUnknownMatchNothing(rs);
    WithoutNothing<string>(Names(students));
  }

  /** When every face is unknown, no name is matched and every face counts as unknown. */
  lemma {:induction false} AllUnknownMatchNothing(rs: seq<FaceResult>)
    requires forall i :: 0 <= i < |rs| ==> rs[i].Unknown?
    ensures MatchedNames(rs) == [] && CountUnknown(rs) == |rs|
    decreases |rs|
  {
    if |rs| > 0 {
      AllUnknownMatchNothing(rs[..|rs| - 1]);
    }
  }

  /** An upload without faces reports nobody present and every student absent, in manifest order. */
  lemma EmptyUploadReport<V>(students: seq<Student>, roster: Roster<V>, dist: (V, V) -> real)
    requires WellFormed(roster)
    ensures Reconcile(students, roster, [], dist) == Report(0, [], Names(students), 0)
  {
    assert MatchedNames(Classify(roster, [], dist)) == [];
    WithoutNothing<string>(Names(students));
  }

  /** The roster of the manifest followed by the reconciliation of one upload. */
  function AttendanceOf<V>(students: seq<Student>, load: string -> ImageLoad<V>, queries: seq<V>, dist: (V, V) -> real): (r: Report)
    ensures Elems(r.present) !! Elems(r.absent)
    ensures Elems(r.present) + Elems(r.absent) == Elems(Names(students))
  {
    var roster := BuildRoster(students, load);
    PresentIsDetected(students, roster, queries, dist);
    Reconcile(students, roster, queries, dist)
  }
}
