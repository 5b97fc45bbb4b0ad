/** The student grade calculator: letter grades, the two parallel lists of
    names and grades, adding a student, and the top-student report. */
module StudentGrades {

  import opened Wrappers
  import opened Text
  import Seqs

  /** `getGradeLetter`. */
  function GradeLetter(score: real): (r: char)
    ensures score >= 90.0 <==> r == 'A'
    ensures 80.0 <= score < 90.0 <==> r == 'B'
    ensures 70.0 <= score < 80.0 <==> r == 'C'
    ensures 60.0 <= score < 70.0 <==> r == 'D'
    ensures score < 60.0 <==> r == 'F'
  {
    if score >= 90.0 then 'A'
    else if score >= 80.0 then 'B'
    else if score >= 70.0 then 'C'
    else if score >= 60.0 then 'D'
    else 'F'
  }

  /** How good a letter is: F lowest, A highest. */
  function Rank(letter: char): nat {
    match letter
    case 'A' => 4
    case 'B' => 3
    case 'C' => 2
    case 'D' => 1
    case _ => 0
  }

  /** A higher score never gets a worse letter. */
  lemma GradeLetterMonotone(s: real, t: real)
    requires s <= t
    ensures Rank(GradeLetter(s)) <= Rank(GradeLetter(t))
  {
  }

  /** The two lists `main` keeps, index i describing one student. */
  datatype Gradebook = Gradebook(names: seq<string>, grades: seq<real>)

  const Empty: Gradebook := Gradebook([], [])

  datatype GradeError = EmptyName | GradeOutOfRange

  predicate InRange(grade: real) { 0.0 <= grade <= 100.0 }

  /** Every gradebook the CLI can reach: the lists stay in step, no name is
      empty and every grade lies in [0, 100]. */
  ghost predicate Valid(book: Gradebook) {
    && |book.names| == |book.grades|
    && (forall i :: 0 <= i < |book.names| ==> book.names[i] != [])
    && (forall i :: 0 <= i < |book.grades| ==> InRange(book.grades[i]))
  }

  /** The parsing half of `readDouble`: the entries typed at the prompt,
      None where the text does not parse. The prompt repeats only on
      unparsable text, so the value returned is the first entry that
      parses; None here means the input ran out first. The range check is
      part of `AddStudent`. */
  function ReadGrade(entries: seq<Option<real>>): (r: Option<real>)
    ensures r.None? <==> forall i :: 0 <= i < |entries| ==> entries[i].None?
    ensures r.Some? ==>
              exists i :: (0 <= i < |entries| && entries[i] == r &&
                           forall j :: 0 <= j < i ==> entries[j].None?)
  {
    Seqs.FirstAccepted(entries, (v: real) => true)
  }

  /** `addStudent`: an empty trimmed name is refused before a grade is
      read; a grade outside [0, 100] makes `readDouble` throw, which
      `addStudent` reports and stores nothing. Otherwise the name and grade
      are appended to their lists together. */
  function AddStudent(book: Gradebook, nameLine: string, grade: real): (r: Result<Gradebook, GradeError>)
    ensures Trim(nameLine) == [] ==> r == Failure(EmptyName)
    ensures Trim(nameLine) != [] && !InRange(grade) ==> r == Failure(GradeOutOfRange)
    ensures r.Success? <==> Trim(nameLine) != [] && InRange(grade)
    ensures r.Success? ==> r.value == Gradebook(book.names + [Trim(nameLine)], book.grades + [grade])
  {
    var name := Trim(nameLine);
    if name == [] then Failure(EmptyName)
    else if !InRange(grade) then Failure(GradeOutOfRange)
    else Success(Gradebook(book.names + [name], book.grades + [grade]))
  }

  lemma AddStudentKeepsValid(book: Gradebook, nameLine: string, grade: real)
    requires Valid(book)
    ensures AddStudent(book, nameLine, grade).Success? ==> Valid(AddStudent(book, nameLine, grade).value)
  {
    var r := AddStudent(book, nameLine, grade);
    if r.Success? {
      var b := r.value;
      forall i | 0 <= i < |b.names| ensures b.names[i] != [] && InRange(b.grades[i]) {
        if i < |book.names| {
          assert b.names[i] == book.names[i] && b.grades[i] == book.grades[i];
        }
      }
    }
  }

  /** Position k holds the largest grade and no earlier position holds an
      equal one. */
  ghost predicate IsFirstMax(grades: seq<real>, k: int) {
    && 0 <= k < |grades|
    && (forall j :: 0 <= j < |grades| ==> grades[j] <= grades[k])
    && (forall j :: 0 <= j < k ==> grades[j] < grades[k])
  }

  /** `findTopStudent`: the scan starts below every valid grade (max = -1)
      and moves only on a strictly greater grade, so ties go to the
      earliest student. It needs some grade above -1, which every stored
      grade is; otherwise the source reads `names.get(-1)`. */
  method FindTopStudent(names: seq<string>, grades: seq<real>) returns (top: string, index: int)
    requires |names| == |grades|
    requires exists i :: 0 <= i < |grades| && grades[i] > -1.0
    ensures IsFirstMax(grades, index)
    ensures top == names[index]
  {
    var max := -1.0;
    index := -1;
    var i := 0;
    while i < |grades|
      invariant 0 <= i <= |grades|
      invariant -1 <= index < i
      invariant index == -1 <==> forall j :: 0 <= j < i ==> grades[j] <= -1.0
      invariant index >= 0 ==> max == grades[index]
      invariant index == -1 ==> max == -1.0
      invariant forall j :: 0 <= j < i ==> grades[j] <= max
      invariant index >= 0 ==> forall j :: 0 <= j < index ==> grades[j] < max
    {
      if grades[i] > max {
        max := grades[i];
        index := i;
      }
      i := i + 1;
    }
    top := names[index];
  }

  /** The grade `showTopStudent` prints as written: that of the first
      student bearing the top student's name (`names.indexOf`). */
  function ShownScoreAsWritten(names: seq<string>, grades: seq<real>, top: string): (r: real)
    requires |names| == |grades| && top in names
    ensures exists i :: 0 <= i < |names| && names[i] == top && r == grades[i] &&
                        forall j :: 0 <= j < i ==> names[j] != top
  {
    var i := Seqs.FirstIndex(names, (n: string) => n == top).value;
    grades[i]
  }

  /** With two students named Ann graded 50 and 90, the second is the top
      student, yet the score printed is the first Ann's 50. */
  lemma DuplicateNameShowsWrongScore(k: int)
    requires IsFirstMax([50.0, 90.0], k)
    ensures k == 1
    ensures ShownScoreAsWritten(["Ann", "Ann"], [50.0, 90.0], ["Ann", "Ann"][k]) == 50.0
    ensures ShownScoreAsWritten(["Ann", "Ann"], [50.0, 90.0], ["Ann", "Ann"][k]) != [50.0, 90.0][k]
  {
    var names, grades := ["Ann", "Ann"], [50.0, 90.0];
    assert grades[0] == 50.0 && grades[1] == 90.0;
    assert Seqs.FirstIndex(names, (n: string) => n == "Ann") == Some(0);
  }

  /** When names are distinct the as-written lookup finds the right grade. */
  lemma DistinctNamesShowRightScore(names: seq<string>, grades: seq<real>, k: int)
    requires |names| == |grades| && 0 <= k < |names|
    requires forall i, j :: 0 <= i < j < |names| ==> names[i] != names[j]
    ensures ShownScoreAsWritten(names, grades, names[k]) == grades[k]
  {
    var i := Seqs.FirstIndex(names, (n: string) => n == names[k]).value;
    assert names[i] == names[k];
  }

  /** What `showTopStudent` prints: a name and a score. */
  datatype TopReport = TopReport(name: string, score: real)

  /** `showTopStudent` with the printed score taken from the top student's
      own position: nothing for an empty list, otherwise the name and score
      of the first student with the highest grade. */
  method ShowTopStudent(book: Gradebook) returns (report: Option<TopReport>)
    requires Valid(book)
    ensures report.None? <==> |book.grades| == 0
    ensures report.Some? ==>
              exists k :: IsFirstMax(book.grades, k) && report.value.name == book.names[k] &&
                          report.value.score == book.grades[k]
    ensures report.Some? ==> forall j :: 0 <= j < |book.grades| ==> book.grades[j] <= report.value.score
  {
    if |book.grades| == 0 {
      return None;
    }
    assert book.grades[0] > -1.0;
    var top, index := FindTopStudent(book.names, book.grades);
    report := Some(TopReport(top, book.grades[index]));
  }
}
