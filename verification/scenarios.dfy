/**
 * Concrete cases of the model: two enrolled students, one uploaded face, and the
 * distances the face library is assumed to report.
 */
module Scenarios {
  import opened Wrappers
  import opened Seqs
  import opened Enrollment
  import opened Matching
  import opened Attendance

  /** Distances at and around the tolerance. */
  lemma BestMatchExamples()
    ensures BestMatch([]) == None
    ensures BestMatch([0.5]) == None
    ensures BestMatch([0.7, 0.49]) == Some(1)
    ensures BestMatch([0.3, 0.3]) == Some(0)
  {
    CompareFacesRedundant([0.5]);
    CompareFacesRedundant([0.7, 0.49]);
    CompareFacesRedundant([0.3, 0.3]);
  }

  const Alice := Student("Alice", "alice.jpg")
  const Bob := Student("Bob", "bob.jpg")

  /** Encodings are integers here; Alice's image encodes to 1 and Bob's to 2. */
  function LoadBoth(image: string): ImageLoad<int>
  {
    if image == "alice.jpg" then Loaded([1]) else if image == "bob.jpg" then Loaded([2]) else NotFound
  }

  /** Both students enroll, in manifest order. */
  lemma BothEnroll()
    ensures BuildRoster([Alice, Bob], LoadBoth) == Roster([1, 2], ["Alice", "Bob"])
  {
    assert [Alice, Bob][..1] == [Alice];
    assert [Alice][..0] == [];
  }

  /** A face at distance 0.2 from Alice and 0.9 from Bob. */
  function NearAlice(known: int, q: int): real
  {
    if known == 1 then 0.2 else 0.9
  }

  /** A face at distance 0.9 from everyone. */
  function FarFromAll(known: int, q: int): real
  {
    0.9
  }

  /** The face near Alice is recognized as Alice, at the first roster position. */
  lemma FaceNearAliceIsAlice()
    ensures ClassifyFace(Roster([1, 2], ["Alice", "Bob"]), 7, NearAlice) == Recognized("Alice", 0, 0.2)
  {
    var d := FaceDistances([1, 2], 7, NearAlice);
    assert d == [0.2, 0.9];
    assert d[..1] == [0.2];
    assert ArgMin(d) == 0;
    CompareFacesRedundant(d);
  }

  /** The upload of the face near Alice matches Alice once and leaves nobody unknown. */
  lemma FacesNearAlice()
    ensures var rs := Classify(Roster([1, 2], ["Alice", "Bob"]), [7], NearAlice);
      MatchedNames(rs) == ["Alice"] && CountUnknown(rs) == 0
  {
    FaceNearAliceIsAlice();
    var rs := Classify(Roster([1, 2], ["Alice", "Bob"]), [7], NearAlice);
    assert rs == [Recognized("Alice", 0, 0.2)];
    assert rs[..0] == [];
  }

  /** Alice is recognized, Bob is absent, no face is unknown. */
  lemma AliceRecognized()
    ensures AttendanceOf([Alice, Bob], LoadBoth, [7], NearAlice) == Report(1, ["Alice"], ["Bob"], 0)
  {
    BothEnroll();
    FacesNearAlice();
    assert ["Alice"][..0] == [];
    assert Dedup(["Alice"]) == ["Alice"];
    assert Elems(["Alice"]) == {"Alice"};
    var names := Names([Alice, Bob]);
    assert names == ["Alice", "Bob"];
    assert names[1..] == ["Bob"] && names[1..][1..] == [];
    assert Without(names, {"Alice"}) == ["Bob"];
  }

  /** Nobody is recognized, both students are absent, the face is unknown. */
  lemma NobodyRecognized()
    ensures AttendanceOf([Alice, Bob], LoadBoth, [7], FarFromAll) == Report(1, [], ["Alice", "Bob"], 1)
  {
    BothEnroll();
    var roster := Roster([1, 2], ["Alice", "Bob"]);
    var rs := Classify(roster, [7], FarFromAll);
    assert rs == [Unknown];
    assert rs[..0] == [];
    assert MatchedNames(rs) == [];
    EmptyUploadReport([Alice, Bob], roster, FarFromAll);
  }

  /** A student whose image is missing is never enrolled yet is still reported absent. */
  lemma MissingImageStillAbsent()
    ensures BuildRoster([Student("Dan", "dan.jpg")], LoadBoth) == Roster([], [])
    ensures AttendanceOf([Student("Dan", "dan.jpg")], LoadBoth, [7], NearAlice) == Report(1, [], ["Dan"], 1)
  {
    EmptyRosterReport([Student("Dan", "dan.jpg")], [7], NearAlice);
  }
}
