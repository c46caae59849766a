/**
 * The start-up roster of backend/app.py: every student record of the manifest is
 * tried in order, and each one whose image yields at least one face encoding
 * contributes its first encoding and its name to two parallel lists.
 */
module Enrollment {
  import opened Wrappers
  import opened Seqs

  /** One record of the student manifest: a display name and an image file name. */
  datatype Student = Student(name: string, image: string)

  /**
   * What the face library yields for one image: the file is absent, loading or
   * encoding raised, or the encodings of every face found (possibly none).
   */
  datatype ImageLoad<V> = NotFound | LoadFailed | Loaded(faces: seq<V>)

  /** The known faces: encodings and names as two parallel lists. */
  datatype Roster<V> = Roster(encodings: seq<V>, names: seq<string>)

  /** The two lists of a roster pair up entry by entry. */
  predicate WellFormed<V>(r: Roster<V>)
  {
    |r.encodings| == |r.names|
  }

  /** The names of the manifest, in manifest order. */
  function Names(students: seq<Student>): (ns: seq<string>)
    ensures |ns| == |students|
  {
    seq(|students|, i requires 0 <= i < |students| => students[i].name)
  }

  /** The reference encoding an image contributes: its first face, if it has one. */
  function FirstFace<V>(l: ImageLoad<V>): Option<V>
  {
    if l.Loaded? && |l.faces| > 0 then Some(l.faces[0]) else None
  }

  /** The student gets a roster entry. */
  predicate Enrolls<V>(load: string -> ImageLoad<V>, st: Student)
  {
    FirstFace(load(st.image)).Some?
  }

  /** The roster built from the manifest, one student at a time. */
  function BuildRoster<V>(students: seq<Student>, load: string -> ImageLoad<V>): (r: Roster<V>)
    ensures WellFormed(r)
    ensures |r.names| <= |students|
    ensures forall x :: x in r.names ==> x in Names(students)
    decreases |students|
  {
    if |students| == 0 then Roster([], [])
    else
      var prev := BuildRoster(students[..|students| - 1], load);
      var st := students[|students| - 1];
      assert Names(students) == Names(students[..|students| - 1]) + [st.name];
      match FirstFace(load(st.image))
      case Some(e) => Roster(prev.encodings + [e], prev.names + [st.name])
      case None => prev
  }

  /** The positions of the manifest whose student gets a roster entry, in increasing order. */
  ghost function EnrolledIndices<V>(students: seq<Student>, load: string -> ImageLoad<V>): (idx: seq<nat>)
    ensures forall k :: 0 <= k < |idx| ==> idx[k] < |students| && Enrolls(load, students[idx[k]])
    ensures forall k, l :: 0 <= k < l < |idx| ==> idx[k] < idx[l]
    ensures forall i :: 0 <= i < |students| && Enrolls(load, students[i]) ==> i in idx
    decreases |students|
  {
    if |students| == 0 then []
    else
      var n := |students| - 1;
      var prev := EnrolledIndices(students[..n], load);
      if Enrolls(load, students[n]) then prev + [n] else prev
  }

  /**
   * Entry k of the roster is the k-th enrolling student: its name and the first face of
   * its image. So the names are an order-preserving selection of the manifest with at
   * most one entry per student record.
   */
  lemma {:induction false} BuildRosterSelects<V>(students: seq<Student>, load: string -> ImageLoad<V>)
    ensures var r, idx := BuildRoster(students, load), EnrolledIndices(students, load);
      && |r.names| == |idx|
      && forall k :: 0 <= k < |idx| ==>
           && r.names[k] == students[idx[k]].name
           && Some(r.encodings[k]) == FirstFace(load(students[idx[k]].image))
    decreases |students|
  {
    if |students| > 0 {
      BuildRosterSelects(students[..|students| - 1], load);
    }
  }

  /**
   * A student whose image is missing, fails to load or shows no face adds nothing, and
   * the students after it are enrolled exactly as if it were not there.
   */
  lemma {:induction false} SkippedStudentAddsNothing<V>(
    before: seq<Student>, st: Student, after: seq<Student>, load: string -> ImageLoad<V>)
    requires !Enrolls(load, st)
    ensures BuildRoster(before + [st] + after, load) == BuildRoster(before + after, load)
    decreases |after|
  {
    if |after| == 0 {
      assert before + [st] + after == before + [st];
      assert (before + [st])[..|before|] == before;
      assert before + after == before;
    } else {
      var n := |after| - 1;
      SkippedStudentAddsNothing(before, st, after[..n], load);
      assert (before + [st] + after)[..|before| + 1 + n] == before + [st] + after[..n];
      assert (before + after)[..|before| + n] == before + after[..n];
    }
  }
}
