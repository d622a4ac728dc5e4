/** The student grade analyzer (lecture_3/main.py): a roster of students, each with a
    name and the grades entered for them. Console prompts are replaced by parameters:
    the raw name typed at the prompt, and the grade entries already read as tokens. */
module StudentGrades {
  import opened Wrappers
  import opened AsciiText
  import opened Collections

  datatype Student = Student(name: string, grades: seq<int>)

  /** The message `validate_name` prints for a rejected name. */
  datatype NameError = EmptyName | DigitInName | NameTooShort

  /** What the menu actions report instead of changing the roster. */
  datatype RosterError = NoStudents | InvalidName | StudentNotFound | NoGradedStudents

  // ---------------------------------------------------------------- names

  /** `any(char.isdigit() for char in name)`. */
  function HasDigit(s: string): (r: bool)
    ensures r <==> exists i :: 0 <= i < |s| && IsDigit(s[i])
  {
    if s == [] then false
    else if IsDigit(s[0]) then true
    else
      var r := HasDigit(s[1..]);
      assert forall i :: 1 <= i < |s| ==> s[i] == s[1..][i - 1];
      r
  }

  /** `validate_name`: `None` for an accepted name, otherwise the first failing check in
      the order the source makes them (empty, digit, too short). */
  function CheckName(name: string): (r: Option<NameError>)
    ensures r == None <==> |name| >= 2 && forall i :: 0 <= i < |name| ==> !IsDigit(name[i])
    ensures r == Some(EmptyName) <==> name == []
    ensures r == Some(DigitInName) <==> exists i :: 0 <= i < |name| && IsDigit(name[i])
    ensures r == Some(NameTooShort) <==> |name| == 1 && !IsDigit(name[0])
  {
    if name == [] then Some(EmptyName)
    else if HasDigit(name) then Some(DigitInName)
    else if |name| < 2 then Some(NameTooShort)
    else None
  }

  predicate ValidName(name: string) {
    CheckName(name).None?
  }

  /** The prompt's answer as the program keeps it: `input().strip().title()`. */
  function NormalizeName(raw: string): string {
    Title(Strip(raw))
  }

  /** `a.lower() == b.lower()`. */
  predicate SameName(a: string, b: string) {
    Lower(a) == Lower(b)
  }

  /** The scan over the roster for a case-insensitive match: the first match, if any. */
  function FindStudent(students: seq<Student>, name: string): (r: Option<nat>)
    ensures r.None? <==> forall i :: 0 <= i < |students| ==> !SameName(students[i].name, name)
    ensures r.Some? ==>
      && r.value < |students|
      && SameName(students[r.value].name, name)
      && forall i :: 0 <= i < r.value ==> !SameName(students[i].name, name)
  {
    if students == [] then None
    else if SameName(students[0].name, name) then Some(0)
    else
      match FindStudent(students[1..], name)
      case None => None
      case Some(i) => Some(i + 1)
  }

  // ---------------------------------------------------------------- add_new_student

  /** `add_new_student`: appends `{name, grades: []}` unless the normalised name is
      invalid or already on the roster up to case. */
  function AddNewStudent(students: seq<Student>, raw: string): (r: seq<Student>)
    ensures !ValidName(NormalizeName(raw)) ==> r == students
    ensures (exists i :: 0 <= i < |students| && SameName(students[i].name, NormalizeName(raw))) ==>
      r == students
    ensures (&& ValidName(NormalizeName(raw))
             && forall i :: 0 <= i < |students| ==> !SameName(students[i].name, NormalizeName(raw)))
      ==> r == students + [Student(NormalizeName(raw), [])]
  {
    var name := NormalizeName(raw);
    if !ValidName(name) then students
    else if FindStudent(students, name).Some? then students
    else students + [Student(name, [])]
  }

  /** No two students share a name up to case, and every name passed validation. */
  predicate WellFormedRoster(students: seq<Student>) {
    && (forall i :: 0 <= i < |students| ==> ValidName(students[i].name))
    && (forall i, j :: 0 <= i < j < |students| ==> !SameName(students[i].name, students[j].name))
  }

  /** A run of "add a new student" menu choices, one raw name each. */
  function AddAll(students: seq<Student>, raws: seq<string>): seq<Student>
    decreases |raws|
  {
    if raws == [] then students else AddAll(AddNewStudent(students, raws[0]), raws[1..])
  }

  /** Appending a valid name that matches no name on the roster keeps it well formed. */
  lemma AppendKeepsRoster(students: seq<Student>, name: string)
    requires WellFormedRoster(students)
    requires ValidName(name)
    requires forall i :: 0 <= i < |students| ==> !SameName(students[i].name, name)
    ensures WellFormedRoster(students + [Student(name, [])])
  {
    var r := students + [Student(name, [])];
    forall i, j | 0 <= i < j < |r|
      ensures !SameName(r[i].name, r[j].name)
    {
      assert r[i] == students[i];
      if j < |students| {
        assert r[j] == students[j];
      }
    }
  }

  /** One addition keeps the names valid and pairwise distinct up to case. */
  lemma AddNewStudentKeepsRoster(students: seq<Student>, raw: string)
    requires WellFormedRoster(students)
    ensures WellFormedRoster(AddNewStudent(students, raw))
  {
    var name := NormalizeName(raw);
    if ValidName(name) && FindStudent(students, name).None? {
      AppendKeepsRoster(students, name);
    }
  }

  /** Names stay valid and pairwise distinct up to case across any run of additions. */
  lemma {:induction false} AddAllKeepsRoster(students: seq<Student>, raws: seq<string>)
    requires WellFormedRoster(students)
    ensures WellFormedRoster(AddAll(students, raws))
    decreases |raws|
  {
    if raws != [] {
      AddNewStudentKeepsRoster(students, raws[0]);
      AddAllKeepsRoster(AddNewStudent(students, raws[0]), raws[1..]);
    }
  }

  // ---------------------------------------------------------------- grades

  /** One answer at the grade prompt, already lowered and parsed: `done`, an integer, or
      text `int()` rejects. */
  datatype GradeToken = Done | Number(n: int) | NotANumber

  predicate AcceptGrade(g: int) {
    0 <= g <= 100
  }

  /** The grades a sequence of answers appends, ignoring `done`: the in-range numbers,
      in the order they were entered. */
  function AcceptedGrades(tokens: seq<GradeToken>): (gs: seq<int>)
    ensures forall g :: g in gs ==> AcceptGrade(g) && Number(g) in tokens
    ensures forall i :: 0 <= i < |tokens| && tokens[i].Number? && AcceptGrade(tokens[i].n) ==>
      tokens[i].n in gs
  {
    if tokens == [] then []
    else
      var rest := AcceptedGrades(tokens[1..]);
      assert forall i :: 1 <= i < |tokens| ==> tokens[i] == tokens[1..][i - 1];
      if tokens[0].Number? && AcceptGrade(tokens[0].n) then [tokens[0].n] + rest else rest
  }

  /** Entering answers in two batches appends what each batch appends, in order. */
  lemma {:induction false} AcceptedGradesAppend(a: seq<GradeToken>, b: seq<GradeToken>)
    ensures AcceptedGrades(a + b) == AcceptedGrades(a) + AcceptedGrades(b)
  {
    if a == [] {
      assert a + b == b;
    } else {
      assert (a + b)[0] == a[0];
      assert (a + b)[1..] == a[1..] + b;
      AcceptedGradesAppend(a[1..], b);
    }
  }

  /** The `while True` grade loop: reads answers until `done` (or the end of input),
      keeping each number in 0..100 and skipping the rest. */
  method ReadGrades(tokens: seq<GradeToken>) returns (grades: seq<int>)
    ensures grades == AcceptedGrades(TakeUntil(tokens, Done))
  {
    grades := [];
    var i := 0;
    while i < |tokens| && tokens[i] != Done
      invariant 0 <= i <= |tokens|
      invariant Done !in tokens[..i]
      invariant grades == AcceptedGrades(tokens[..i])
    {
      AcceptedGradesAppend(tokens[..i], [tokens[i]]);
      assert tokens[..i + 1] == tokens[..i] + [tokens[i]];
      if tokens[i].Number? && AcceptGrade(tokens[i].n) {
        grades := grades + [tokens[i].n];
      }
      i := i + 1;
    }
    TakeUntilUnique(tokens, Done, tokens[..i]);
  }

  /** `add_grades_for_student`: the entered grades are appended to the first student whose
      name matches the normalised name; nobody else changes. */
  method AddGradesForStudent(students: seq<Student>, raw: string, tokens: seq<GradeToken>)
    returns (r: Result<seq<Student>, RosterError>)
    ensures students == [] ==> r == Err(NoStudents)
    ensures students != [] && !ValidName(NormalizeName(raw)) ==> r == Err(InvalidName)
    ensures (students != [] && ValidName(NormalizeName(raw))
             && FindStudent(students, NormalizeName(raw)).None?) ==> r == Err(StudentNotFound)
    ensures r.Ok? <==>
      students != [] && ValidName(NormalizeName(raw)) && FindStudent(students, NormalizeName(raw)).Some?
    ensures r.Ok? ==>
      && FindStudent(students, NormalizeName(raw)).Some?
      && var k := FindStudent(students, NormalizeName(raw)).value;
      && |r.value| == |students|
      && r.value[k].name == students[k].name
      && r.value[k].grades == students[k].grades + AcceptedGrades(TakeUntil(tokens, Done))
      && forall j :: 0 <= j < |students| && j != k ==> r.value[j] == students[j]
  {
    if students == [] {
      return Err(NoStudents);
    }
    var name := NormalizeName(raw);
    if !ValidName(name) {
      return Err(InvalidName);
    }
    var found := FindStudent(students, name);
    if found.None? {
      return Err(StudentNotFound);
    }
    var k := found.value;
    var added := ReadGrades(tokens);
    r := Ok(students[k := Student(students[k].name, students[k].grades + added)]);
  }

  /** Adding grades never touches a name, so the roster stays well formed. */
  lemma AddGradesKeepsNames(students: seq<Student>, k: nat, added: seq<int>)
    requires k < |students| && WellFormedRoster(students)
    ensures WellFormedRoster(students[k := Student(students[k].name, students[k].grades + added)])
  {
  }

  // ---------------------------------------------------------------- top performer

  function Sum(gs: seq<int>): int {
    if gs == [] then 0 else gs[0] + Sum(gs[1..])
  }

  predicate Graded(s: Student) {
    s.grades != []
  }

  /** The exact average of a graded student. */
  function Average(s: Student): real
    requires Graded(s)
  {
    Sum(s.grades) as real / |s.grades| as real
  }

  /** `avg(a) > avg(b)`, decided on integers by cross-multiplying with the grade counts. */
  predicate AverageAbove(a: Student, b: Student)
    requires Graded(a) && Graded(b)
  {
    Sum(a.grades) * |b.grades| > Sum(b.grades) * |a.grades|
  }

  /** Cross-multiplication compares the exact averages. */
  lemma AverageAboveExact(a: Student, b: Student)
    requires Graded(a) && Graded(b)
    ensures AverageAbove(a, b) <==> Average(a) > Average(b)
  {
  }

  /** `find_top_performer`: among the students with grades, the first whose average no
      other graded student strictly exceeds (Python's `max` keeps the first of equal keys). */
  method FindTopPerformer(students: seq<Student>) returns (r: Result<nat, RosterError>)
    ensures students == [] ==> r == Err(NoStudents)
    ensures students != [] && (forall i :: 0 <= i < |students| ==> !Graded(students[i])) ==>
      r == Err(NoGradedStudents)
    ensures r.Ok? <==> exists i :: 0 <= i < |students| && Graded(students[i])
    ensures r.Ok? ==>
      && r.value < |students|
      && Graded(students[r.value])
      && (forall i :: 0 <= i < |students| && Graded(students[i]) ==>
            !AverageAbove(students[i], students[r.value]))
      && (forall i :: 0 <= i < r.value && Graded(students[i]) ==>
            AverageAbove(students[r.value], students[i]))
  {
    if students == [] {
      return Err(NoStudents);
    }
    var best: Option<nat> := None;
    var i := 0;
    while i < |students|
      invariant 0 <= i <= |students|
      invariant best.None? <==> forall j :: 0 <= j < i ==> !Graded(students[j])
      invariant best.Some? ==>
        && best.value < i
        && Graded(students[best.value])
        && (forall j :: 0 <= j < i && Graded(students[j]) ==>
              Average(students[j]) <= Average(students[best.value]))
        && (forall j :: 0 <= j < best.value && Graded(students[j]) ==>
              Average(students[j]) < Average(students[best.value]))
    {
      if Graded(students[i]) {
        if best.None? {
          best := Some(i);
        } else {
          AverageAboveExact(students[i], students[best.value]);
          if AverageAbove(students[i], students[best.value]) {
            best := Some(i);
          }
        }
      }
      i := i + 1;
    }
    if best.None? {
      return Err(NoGradedStudents);
    }
    var t := best.value;
    forall j | 0 <= j < |students| && Graded(students[j])
      ensures !AverageAbove(students[j], students[t])
      ensures j < t ==> AverageAbove(students[t], students[j])
    {
      AverageAboveExact(students[j], students[t]);
      AverageAboveExact(students[t], students[j]);
    }
    r := Ok(t);
  }
}
