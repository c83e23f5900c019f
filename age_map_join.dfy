/** Edwin_Rojas_Tarea2.c: after the shared decode, the students' ages are stored in an
    array indexed by student id (`student_age_map`), and every enrollment naming a course
    adds the map slot of its student id to that course's total and one to its count. No
    check is made that a student with that id exists: such an enrollment is counted and adds
    whatever the slot holds, which for an id no student carries is the slot's initial
    (uninitialised) content. */
module AgeMapJoin {
  import opened Bytes
  import opened FileStreams
  import opened Layout
  import opened CourseReport
  import RecordReader
  import ScanJoin

  /** The index of the last student with the id, or -1 when there is none. */
  function LastWithId(ss: seq<Student>, id: int): (k: int)
    ensures -1 <= k < |ss|
    ensures k >= 0 ==> ss[k].id as int == id
    ensures forall j | k < j < |ss| :: ss[j].id as int != id
  {
    if ss == [] then -1
    else if ss[|ss| - 1].id as int == id then |ss| - 1
    else LastWithId(ss[..|ss| - 1], id)
  }

  /** Slot `id` of the map once the students `ss` have been stored into it, when it held
      `unset` before: the age of the last student with that id, else `unset`. */
  function MapEntry(ss: seq<Student>, id: int, unset: u32): u32 {
    var k := LastWithId(ss, id);
    if k < 0 then unset else ss[k].age
  }

  /** The whole map after the store loop, from its contents before. */
  function AgeMap(ss: seq<Student>, initial: seq<u32>): (m: seq<u32>)
    ensures |m| == |initial|
  {
    seq(|initial|, id requires 0 <= id < |initial| => MapEntry(ss, id, initial[id]))
  }

  /** After the store loop, the slot of every student id holds the age of the last student
      carrying that id, and a slot no student id names keeps its previous content. */
  lemma AgeMapSlots(ss: seq<Student>, initial: seq<u32>)
    ensures forall k | 0 <= k < |ss| && ss[k].id as int < |initial| && (forall j | k < j < |ss| :: ss[j].id != ss[k].id) ::
      AgeMap(ss, initial)[ss[k].id] == ss[k].age
    ensures forall id | 0 <= id < |initial| && (forall j | 0 <= j < |ss| :: ss[j].id as int != id) ::
      AgeMap(ss, initial)[id] == initial[id]
  {
  }

  /** Every enrollment naming the course indexes a map of `size` slots within bounds. */
  predicate CourseInBounds(size: nat, es: seq<Enrollment>, courseId: u32) {
    forall j | 0 <= j < |es| :: es[j].courseId == courseId ==> es[j].studentId as int < size
  }

  /** `student_count_in_course` after the enrollments `es`. */
  function MapCount(es: seq<Enrollment>, courseId: u32): (n: nat)
    ensures n <= |es|
  {
    if es == [] then 0
    else MapCount(es[..|es| - 1], courseId) + (if es[|es| - 1].courseId == courseId then 1 else 0)
  }

  /** `total_age` after the enrollments `es`: the sum of the map slots of their student ids. */
  function MapTotal(m: seq<u32>, es: seq<Enrollment>, courseId: u32): (t: int)
    requires CourseInBounds(|m|, es, courseId)
    ensures 0 <= t <= MapCount(es, courseId) * ScanJoin.MAX_AGE
  {
    if es == [] then 0
    else
      var e := es[|es| - 1];
      MapTotal(m, es[..|es| - 1], courseId) + (if e.courseId == courseId then m[e.studentId] as int else 0)
  }

  /** The map count never falls below the scan join's count of task02.c, and equals it
      exactly when every enrollment naming the course names an existing student. */
  lemma {:induction false} MapCountVersusScan(ss: seq<Student>, es: seq<Enrollment>, courseId: u32)
    ensures ScanJoin.ScanCount(ss, es, courseId) <= MapCount(es, courseId)
    ensures ScanJoin.ScanCount(ss, es, courseId) == MapCount(es, courseId)
      <==> forall j | 0 <= j < |es| :: es[j].courseId == courseId ==> ScanJoin.HasStudent(ss, es[j].studentId)
    decreases |es|
  {
    if es != [] {
      var n := |es| - 1;
      var p := es[..n];
      MapCountVersusScan(ss, p, courseId);
      ScanJoin.FirstWithIdFound(ss, es[n].studentId);
      assert forall j | 0 <= j < n :: p[j] == es[j];
    }
  }

  /** A dangling enrollment (its student id names no student) is counted, and adds the
      slot's initial content, where the scan join skips it. */
  lemma DanglingEnrollmentCounted(ss: seq<Student>, initial: seq<u32>, es: seq<Enrollment>, e: Enrollment)
    requires CourseInBounds(|initial|, es + [e], e.courseId)
    requires !ScanJoin.HasStudent(ss, e.studentId)
    ensures MapCount(es + [e], e.courseId) == MapCount(es, e.courseId) + 1
    ensures MapTotal(AgeMap(ss, initial), es + [e], e.courseId)
      == MapTotal(AgeMap(ss, initial), es, e.courseId) + initial[e.studentId] as int
    ensures ScanJoin.ScanCount(ss, es + [e], e.courseId) == ScanJoin.ScanCount(ss, es, e.courseId)
    ensures ScanJoin.ScanTotal(ss, es + [e], e.courseId) == ScanJoin.ScanTotal(ss, es, e.courseId)
  {
    assert (es + [e])[..|es|] == es;
    ScanJoin.FirstWithIdFound(ss, e.studentId);
    assert LastWithId(ss, e.studentId as int) < 0;
  }

  /** When student ids are distinct and every enrollment of the course names an existing
      student, the map join and the scan join of task02.c produce the same total and count. */
  lemma {:induction false} MapAgreesWithScan(ss: seq<Student>, initial: seq<u32>, es: seq<Enrollment>, courseId: u32)
    requires forall a, b | 0 <= a < b < |ss| :: ss[a].id != ss[b].id
    requires CourseInBounds(|initial|, es, courseId)
    requires forall j | 0 <= j < |es| :: es[j].courseId == courseId ==> ScanJoin.HasStudent(ss, es[j].studentId)
    ensures MapCount(es, courseId) == ScanJoin.ScanCount(ss, es, courseId)
    ensures MapTotal(AgeMap(ss, initial), es, courseId) == ScanJoin.ScanTotal(ss, es, courseId)
    decreases |es|
  {
    MapCountVersusScan(ss, es, courseId);
    if es != [] {
      var n := |es| - 1;
      var p := es[..n];
      assert forall j | 0 <= j < n :: p[j] == es[j];
      MapAgreesWithScan(ss, initial, p, courseId);
      var e := es[n];
      if e.courseId == courseId {
        ScanJoin.FirstWithIdFound(ss, e.studentId);
        var first := ScanJoin.FirstWithId(ss, e.studentId);
        var last := LastWithId(ss, e.studentId as int);
        assert last == first;
      }
    }
  }

  /** Every enrollment naming some course indexes a map of `size` slots within bounds. */
  predicate ReportInBounds(size: nat, cs: seq<Course>, es: seq<Enrollment>) {
    forall i | 0 <= i < |cs| :: CourseInBounds(size, es, cs[i].id)
  }

  /** The table Edwin_Rojas_Tarea2.c prints from a map. */

  function Report(m: seq<u32>, cs: seq<Course>, es: seq<Enrollment>): seq<CourseLine>
    requires ReportInBounds(|m|, cs, es)
  {
    seq(|cs|, i requires 0 <= i < |cs| => LineFor(cs[i], ToInt32(MapTotal(m, es, cs[i].id)), MapCount(es, cs[i].id)))
  }

  /** One line per course in catalog order; "No hay estudiantes" exactly when no enrollment
      names the course, whether or not its students exist; otherwise the count and the
      `int` that the exact total of the map slots wraps to. */
  lemma ReportLines(m: seq<u32>, cs: seq<Course>, es: seq<Enrollment>)
    requires ReportInBounds(|m|, cs, es)
    ensures |Report(m, cs, es)| == |cs|
    ensures forall i | 0 <= i < |cs| :: Report(m, cs, es)[i].name == CString(cs[i].name)
    ensures forall i | 0 <= i < |cs| ::
      Report(m, cs, es)[i].NoStudents? <==> forall j | 0 <= j < |es| :: es[j].courseId != cs[i].id
    ensures forall i | 0 <= i < |cs| :: Report(m, cs, es)[i].Average? ==>
      && Report(m, cs, es)[i].count == MapCount(es, cs[i].id)
      && Report(m, cs, es)[i].totalAge == ToInt32(MapTotal(m, es, cs[i].id))
  {
    forall i | 0 <= i < |cs|
      ensures Report(m, cs, es)[i].NoStudents? <==> forall j | 0 <= j < |es| :: es[j].courseId != cs[i].id
    {
      MapCountZero(es, cs[i].id);
    }
  }

  lemma {:induction false} MapCountZero(es: seq<Enrollment>, courseId: u32)
    ensures MapCount(es, courseId) == 0 <==> forall j | 0 <= j < |es| :: es[j].courseId != courseId
    decreases |es|
  {
    if es != [] {
      var n := |es| - 1;
      MapCountZero(es[..n], courseId);
      assert forall j | 0 <= j < n :: es[..n][j] == es[j];
    }
  }

  /** What the program demands of a decoded roster to stay within the map: every student
      id, and every student id of an enrollment naming a course, is below the number of
      students. */
  predicate MapInBounds(r: Roster) {
    && (forall k | 0 <= k < |r.students| :: r.students[k].id as int < |r.students|)
    && ReportInBounds(|r.students|, r.courses, r.enrollments)
  }

  /** The map as `malloc` hands it over: `uninit` stands for the unspecified contents. */
  function InitialMap(n: nat, uninit: nat -> u32): (m: seq<u32>)
    ensures |m| == n
  {
    seq(n, id requires 0 <= id => uninit(id))
  }

  function ReportOf(r: Roster, uninit: nat -> u32): seq<CourseLine>
    requires MapInBounds(r)
  {
    var m := AgeMap(r.students, InitialMap(|r.students|, uninit));
    Report(m, r.courses, r.enrollments)
  }

  /** The store loop `student_age_map[students[i].id] = students[i].age`. */
  method BuildAgeMap(students: array<Student>, ageMap: array<u32>)
    requires forall k | 0 <= k < students.Length :: students[k].id as int < ageMap.Length
    modifies ageMap
    ensures ageMap[..] == AgeMap(students[..], old(ageMap[..]))
  {
    var i := 0;
    while i < students.Length
      invariant i <= students.Length
      invariant forall id | 0 <= id < ageMap.Length :: ageMap[id] == MapEntry(students[..i], id, old(ageMap[id]))
    {
      assert students[..i + 1][..i] == students[..i];
      ageMap[students[i].id] := students[i].age;
      i := i + 1;
    }
    assert students[..] == students[..students.Length];
  }

  /** The count and total of the first j + 1 enrollments extend those of the first j by
      the next enrollment's contribution. */
  lemma MapStep(m: seq<u32>, es: seq<Enrollment>, j: nat, courseId: u32)
    requires j < |es| && CourseInBounds(|m|, es, courseId)
    ensures CourseInBounds(|m|, es[..j], courseId) && CourseInBounds(|m|, es[..j + 1], courseId)
    ensures MapCount(es[..j + 1], courseId) == MapCount(es[..j], courseId) + (if es[j].courseId == courseId then 1 else 0)
    ensures MapTotal(m, es[..j + 1], courseId)
      == MapTotal(m, es[..j], courseId) + (if es[j].courseId == courseId then m[es[j].studentId] as int else 0)
  {
    assert es[..j + 1][..j] == es[..j];
  }

  /** The loop over the enrollments for one course. */
  method CourseTotals(ageMap: array<u32>, enrollments: array<Enrollment>, courseId: u32)
    returns (totalAge: i32, count: nat)
    requires CourseInBounds(ageMap.Length, enrollments[..], courseId)
    ensures totalAge == ToInt32(MapTotal(ageMap[..], enrollments[..], courseId))
    ensures count == MapCount(enrollments[..], courseId)
  {
    totalAge, count := 0, 0;
    var j := 0;
    while j < enrollments.Length
      invariant j <= enrollments.Length
      invariant CourseInBounds(ageMap.Length, enrollments[..j], courseId)
      invariant totalAge == ToInt32(MapTotal(ageMap[..], enrollments[..j], courseId))
      invariant count == MapCount(enrollments[..j], courseId)
    {
      MapStep(ageMap[..], enrollments[..], j, courseId);
      if enrollments[j].courseId == courseId {
        var studentId := enrollments[j].studentId;
        ToInt32Add(MapTotal(ageMap[..], enrollments[..j], courseId), ageMap[studentId] as int);
        totalAge := ToInt32(totalAge as int + ageMap[studentId] as int);
        count := count + 1;
      }
      j := j + 1;
    }
    assert enrollments[..] == enrollments[..enrollments.Length];
  }

  /** The loop over the courses. */
  method AverageAges(ageMap: array<u32>, courses: array<Course>, enrollments: array<Enrollment>)
    returns (lines: seq<CourseLine>)
    requires ReportInBounds(ageMap.Length, courses[..], enrollments[..])
    ensures lines == Report(ageMap[..], courses[..], enrollments[..])
  {
    lines := [];
    var i := 0;
    while i < courses.Length
      invariant i <= courses.Length
      invariant ReportInBounds(ageMap.Length, courses[..i], enrollments[..])
      invariant lines == Report(ageMap[..], courses[..i], enrollments[..])
    {
      assert CourseInBounds(ageMap.Length, enrollments[..], courses[..][i].id);
      var totalAge, count := CourseTotals(ageMap, enrollments, courses[i].id);
      lines := lines + [LineFor(courses[i], totalAge, count)];
      assert courses[..i + 1][..i] == courses[..i];
      i := i + 1;
    }
    assert courses[..] == courses[..courses.Length];
  }

  /** Everything after the read: the map allocated with as many slots as students, filled,
      and the loop over the courses. */
  method Process(students: array<Student>, courses: array<Course>, enrollments: array<Enrollment>, uninit: nat -> u32)
    returns (lines: seq<CourseLine>)
    requires MapInBounds(Roster(students[..], courses[..], enrollments[..]))
    ensures lines == ReportOf(Roster(students[..], courses[..], enrollments[..]), uninit)
  {
    var ageMap := new u32[students.Length](id requires 0 <= id => uninit(id));
    assert ageMap[..] == InitialMap(students.Length, uninit);
    BuildAgeMap(students, ageMap);
    lines := AverageAges(ageMap, courses, enrollments);
  }

  /** The whole program on the file's bytes, for a file whose ids keep every map access in
      bounds. */
  method Run(data: seq<byte>, uninit: nat -> u32) returns (outcome: Result<seq<CourseLine>>)
    requires DecodeRoster(data).Ok? ==> MapInBounds(DecodeRoster(data).value)
    ensures DecodeRoster(data).Err? ==> outcome == Err(DecodeRoster(data).error)
    ensures DecodeRoster(data).Ok? ==> outcome == Ok(ReportOf(DecodeRoster(data).value, uninit))
  {
    var f := new FileStream.Open(data);
    var header, students, courses, enrollments := RecordReader.ReadRoster(f);
    if header.Err? {
      return Err(header.error);
    }
    var lines := Process(students, courses, enrollments, uninit);
    outcome := Ok(lines);
  }
}
