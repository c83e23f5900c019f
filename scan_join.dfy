/** task02.c: the roster is decoded by the shared reader and, for every course in catalog
    order, the enrollments naming the course are joined with the students by a linear scan
    that stops at the first student with the enrolled id. An enrollment whose student id
    matches no student is skipped. */
module ScanJoin {
  import opened Bytes
  import opened FileStreams
  import opened Layout
  import opened CourseReport
  import RecordReader

  /** The largest age a `uint32_t` field can hold. */
  const MAX_AGE: int := 0xFFFF_FFFF

  /** Where the student scan stops: the index of the first student with the id, or the
      number of students when there is none. */
  function FirstWithId(ss: seq<Student>, id: u32): (k: nat)
    ensures k <= |ss|
    ensures k < |ss| ==> ss[k].id == id
    ensures forall j | 0 <= j < k :: ss[j].id != id
  {
    if ss == [] then 0 else if ss[0].id == id then 0 else 1 + FirstWithId(ss[1..], id)
  }

  predicate HasStudent(ss: seq<Student>, id: u32) {
    exists k | 0 <= k < |ss| :: ss[k].id == id
  }

  /** The scan finds a student exactly when one with the id exists. */
  lemma FirstWithIdFound(ss: seq<Student>, id: u32)
    ensures FirstWithId(ss, id) < |ss| <==> HasStudent(ss, id)
  {
  }

  /** Whether the join counts an enrollment towards the course. */
  predicate Joins(ss: seq<Student>, e: Enrollment, courseId: u32) {
    e.courseId == courseId && FirstWithId(ss, e.studentId) < |ss|
  }

  /** `student_count_in_course` after the enrollments `es` have been scanned. */
  function ScanCount(ss: seq<Student>, es: seq<Enrollment>, courseId: u32): (n: nat)
    ensures n <= |es|
  {
    if es == [] then 0
    else ScanCount(ss, es[..|es| - 1], courseId) + (if Joins(ss, es[|es| - 1], courseId) then 1 else 0)
  }

  /** `total_age` after the enrollments `es` have been scanned: each joined enrollment adds
      the age of the first student with its id. */
  function ScanTotal(ss: seq<Student>, es: seq<Enrollment>, courseId: u32): (t: int)
    ensures 0 <= t <= ScanCount(ss, es, courseId) * MAX_AGE
  {
    if es == [] then 0
    else
      var e := es[|es| - 1];
      ScanTotal(ss, es[..|es| - 1], courseId)
        + (if Joins(ss, e, courseId) then ss[FirstWithId(ss, e.studentId)].age as int else 0)
  }

  /** Scanning two runs of enrollments one after the other adds their counts and totals. */
  lemma {:induction false} ScanConcat(ss: seq<Student>, a: seq<Enrollment>, b: seq<Enrollment>, courseId: u32)
    ensures ScanCount(ss, a + b, courseId) == ScanCount(ss, a, courseId) + ScanCount(ss, b, courseId)
    ensures ScanTotal(ss, a + b, courseId) == ScanTotal(ss, a, courseId) + ScanTotal(ss, b, courseId)
    decreases |b|
  {
    if b == [] {
      assert a + b == a;
    } else {
      var b' := b[..|b| - 1];
      ScanConcat(ss, a, b', courseId);
      assert (a + b)[..|a + b| - 1] == a + b';
      assert (a + b)[|a + b| - 1] == b[|b| - 1];
    }
  }

  /** An enrollment for another course, or whose student id matches no student, adds nothing
      to the course's count or total wherever it stands. */
  lemma UnjoinedAddsNothing(ss: seq<Student>, a: seq<Enrollment>, e: Enrollment, b: seq<Enrollment>, courseId: u32)
    requires e.courseId != courseId || !HasStudent(ss, e.studentId)
    ensures ScanCount(ss, a + [e] + b, courseId) == ScanCount(ss, a + b, courseId)
    ensures ScanTotal(ss, a + [e] + b, courseId) == ScanTotal(ss, a + b, courseId)
  {
    ScanConcat(ss, a + [e], b, courseId);
    ScanConcat(ss, a, [e], courseId);
    ScanConcat(ss, a, b, courseId);
    FirstWithIdFound(ss, e.studentId);
    assert [e][..0] == [];
  }

  /** The positions of the enrollments that name the course and some existing student. */
  function JoinedIndices(ss: seq<Student>, es: seq<Enrollment>, courseId: u32): set<nat> {
    set j: nat | j < |es| && es[j].courseId == courseId && HasStudent(ss, es[j].studentId)
  }

  /** The count is the number of enrollments that name the course and an existing student. */
  lemma {:induction false} ScanCountIsJoinedIndices(ss: seq<Student>, es: seq<Enrollment>, courseId: u32)
    ensures ScanCount(ss, es, courseId) == |JoinedIndices(ss, es, courseId)|
    decreases |es|
  {
    if es == [] {
      assert JoinedIndices(ss, es, courseId) == {};
    } else {
      var n := |es| - 1;
      var p := es[..n];
      ScanCountIsJoinedIndices(ss, p, courseId);
      FirstWithIdFound(ss, es[n].studentId);
      JoinedIndicesSnoc(ss, es, courseId);
    }
  }

  /** One more enrollment adds its own position to the joined ones exactly when it joins. */
  lemma JoinedIndicesSnoc(ss: seq<Student>, es: seq<Enrollment>, courseId: u32)
    requires es != []
    ensures var n := |es| - 1;
      && n !in JoinedIndices(ss, es[..n], courseId)
      && JoinedIndices(ss, es, courseId)
        == JoinedIndices(ss, es[..n], courseId)
           + (if es[n].courseId == courseId && HasStudent(ss, es[n].studentId) then {n} else {})
  {
    var n := |es| - 1;
    var p := es[..n];
    forall j: nat | j < n ensures es[j] == p[j] { }
  }

  /** No enrollment names the course together with an existing student. */
  predicate NoneJoined(ss: seq<Student>, es: seq<Enrollment>, courseId: u32) {
    forall j | 0 <= j < |es| :: !(es[j].courseId == courseId && HasStudent(ss, es[j].studentId))
  }

  /** A course gets the zero branch exactly when no enrollment names it together with an
      existing student. */
  lemma ScanCountZero(ss: seq<Student>, es: seq<Enrollment>, courseId: u32)
    ensures ScanCount(ss, es, courseId) == 0 <==> NoneJoined(ss, es, courseId)
  {
    ScanCountIsJoinedIndices(ss, es, courseId);
    var joined := JoinedIndices(ss, es, courseId);
    if ScanCount(ss, es, courseId) == 0 {
      assert joined == {};
      forall j | 0 <= j < |es| ensures !(es[j].courseId == courseId && HasStudent(ss, es[j].studentId)) {
        assert j !in joined;
      }
    } else {
      var j :| j in joined;
      assert es[j].courseId == courseId && HasStudent(ss, es[j].studentId);
    }
  }

  /** The printed table: one line per course, in catalog order. */
  function Report(ss: seq<Student>, cs: seq<Course>, es: seq<Enrollment>): seq<CourseLine> {
    seq(|cs|, i requires 0 <= i < |cs| => LineFor(cs[i], ToInt32(ScanTotal(ss, es, cs[i].id)), ScanCount(ss, es, cs[i].id)))
  }

  function ReportOf(r: Roster): seq<CourseLine> {
    Report(r.students, r.courses, r.enrollments)
  }

  /** Exactly one line per course, in catalog order, under the course's name; the line is
      "No hay estudiantes" exactly when no enrollment names the course and an existing
      student, and otherwise carries a count of at least one and the `int` that the exact
      total of the joined ages wraps to. */
  lemma ReportLines(ss: seq<Student>, cs: seq<Course>, es: seq<Enrollment>)
    ensures |Report(ss, cs, es)| == |cs|
    ensures forall i | 0 <= i < |cs| :: Report(ss, cs, es)[i].name == CString(cs[i].name)
    ensures forall i | 0 <= i < |cs| :: Report(ss, cs, es)[i].NoStudents? <==> NoneJoined(ss, es, cs[i].id)
    ensures forall i | 0 <= i < |cs| :: Report(ss, cs, es)[i].Average? ==>
      && 1 <= Report(ss, cs, es)[i].count <= |es|
      && Report(ss, cs, es)[i].count == ScanCount(ss, es, cs[i].id)
      && Report(ss, cs, es)[i].totalAge == ToInt32(ScanTotal(ss, es, cs[i].id))
  {
    forall i | 0 <= i < |cs|
      ensures Report(ss, cs, es)[i].NoStudents? <==> NoneJoined(ss, es, cs[i].id)
    {
      ScanCountZero(ss, es, cs[i].id);
    }
  }

  /** A course whose joined ages add up to at least 2^31 (one student of age 3000000000
      is enough) gets a negative `int` total, and so a negative average. */
  lemma LargeTotalWraps(ss: seq<Student>, cs: seq<Course>, es: seq<Enrollment>, i: nat)
    requires i < |cs| && 0x8000_0000 <= ScanTotal(ss, es, cs[i].id) < 0x1_0000_0000
    ensures Report(ss, cs, es)[i].Average?
    ensures Report(ss, cs, es)[i].totalAge as int == ScanTotal(ss, es, cs[i].id) - 0x1_0000_0000 < 0
  {
  }

  /** The innermost loop, with its `break` at the first student whose id matches. */
  method FindStudent(students: array<Student>, id: u32) returns (k: nat)
    ensures k == FirstWithId(students[..], id)
  {
    k := 0;
    while k < students.Length
      invariant k <= students.Length
      invariant forall j | 0 <= j < k :: students[j].id != id
    {
      if students[k].id == id {
        break;
      }
      k := k + 1;
    }
  }

  /** One pass of the enrollment loop: an enrollment for the course whose student the scan
      finds adds that student's age to the `int` total and one to the count. */
  method JoinEnrollment(students: array<Student>, enrollments: array<Enrollment>, j: nat, courseId: u32,
                        totalAge: i32, count: nat)
    returns (totalAge': i32, count': nat)
    requires j < enrollments.Length
    requires totalAge == ToInt32(ScanTotal(students[..], enrollments[..j], courseId))
    requires count == ScanCount(students[..], enrollments[..j], courseId)
    ensures totalAge' == ToInt32(ScanTotal(students[..], enrollments[..j + 1], courseId))
    ensures count' == ScanCount(students[..], enrollments[..j + 1], courseId)
  {
    ScanStep(students[..], enrollments[..], j, courseId);
    totalAge', count' := totalAge, count;
    if enrollments[j].courseId == courseId {
      var k := FindStudent(students, enrollments[j].studentId);
      if k < students.Length {
        ToInt32Add(ScanTotal(students[..], enrollments[..j], courseId), students[k].age as int);
        totalAge' := ToInt32(totalAge as int + students[k].age as int);
        count' := count + 1;
      }
    }
  }

  /** The count and total of the first j + 1 enrollments extend those of the first j by
      the next enrollment's contribution. */
  lemma ScanStep(ss: seq<Student>, es: seq<Enrollment>, j: nat, courseId: u32)
    requires j < |es|
    ensures ScanCount(ss, es[..j + 1], courseId) == ScanCount(ss, es[..j], courseId) + (if Joins(ss, es[j], courseId) then 1 else 0)
    ensures ScanTotal(ss, es[..j + 1], courseId)
      == ScanTotal(ss, es[..j], courseId) + (if Joins(ss, es[j], courseId) then ss[FirstWithId(ss, es[j].studentId)].age as int else 0)
  {
    assert es[..j + 1][..j] == es[..j];
  }

  /** The loop over the enrollments for one course. */
  method CourseTotals(students: array<Student>, enrollments: array<Enrollment>, courseId: u32)
    returns (totalAge: i32, count: nat)
    ensures totalAge == ToInt32(ScanTotal(students[..], enrollments[..], courseId))
    ensures count == ScanCount(students[..], enrollments[..], courseId)
  {
    totalAge, count := 0, 0;
    var j := 0;
    while j < enrollments.Length
      invariant j <= enrollments.Length
      invariant totalAge == ToInt32(ScanTotal(students[..], enrollments[..j], courseId))
      invariant count == ScanCount(students[..], enrollments[..j], courseId)
    {
      totalAge, count := JoinEnrollment(students, enrollments, j, courseId, totalAge, count);
      j := j + 1;
    }
    assert enrollments[..] == enrollments[..enrollments.Length];
  }

  /** The loop over the courses. */
  method AverageAges(students: array<Student>, courses: array<Course>, enrollments: array<Enrollment>)
    returns (lines: seq<CourseLine>)
    ensures lines == Report(students[..], courses[..], enrollments[..])
  {
    lines := [];
    var i := 0;
    while i < courses.Length
      invariant i <= courses.Length
      invariant lines == Report(students[..], courses[..i], enrollments[..])
    {
      var totalAge, count := CourseTotals(students, enrollments, courses[i].id);
      lines := lines + [LineFor(courses[i], totalAge, count)];
      assert courses[..i + 1][..i] == courses[..i];
      i := i + 1;
    }
    assert courses[..] == courses[..courses.Length];
  }

  /** The whole program on the file's bytes: a decode failure is reported as such (the
      program prints it and exits with status 1); otherwise the table of the decoded roster. */
  method Run(data: seq<byte>) returns (outcome: Result<seq<CourseLine>>)
    ensures DecodeRoster(data).Err? ==> outcome == Err(DecodeRoster(data).error)
    ensures DecodeRoster(data).Ok? ==> outcome == Ok(ReportOf(DecodeRoster(data).value))
  {
    var f := new FileStream.Open(data);
    var header, students, courses, enrollments := RecordReader.ReadRoster(f);
    if header.Err? {
      return Err(header.error);
    }
    var lines := AverageAges(students, courses, enrollments);
    outcome := Ok(lines);
  }
}
