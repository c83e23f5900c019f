/** task03.c: the students (id, flags and age; the name is skipped) and the enrollments
    are decoded, and every enrollment with a plausible year and semester whose student id
    matches a student bumps one of four counters (male/female, undergraduate/graduate) of
    the record for its (year, semester) pair. Records are created in the order their pair is
    first seen. */
module Demographics {
  import opened Bytes
  import opened FileStreams
  import opened Flags
  import Layout
  import RecordReader

  /** task03.c's own student record: only id, flags and age are kept. */
  datatype Student = Student(id: u32, flags: byte, age: u32)

  /** `SemesterRecord`; the C counters are `int`, here unbounded. */
  datatype SemesterRecord = SemesterRecord(
    year: u32, semester: u32,
    maleUndergrad: nat, femaleUndergrad: nat, maleGraduate: nat, femaleGraduate: nat)

  datatype Category = MaleUndergrad | FemaleUndergrad | MaleGraduate | FemaleGraduate

  /** The decoded input of the aggregation. */
  datatype Input = Input(students: seq<Student>, enrollments: seq<Layout.Enrollment>)

  /** `is_valid_year_semester`: 1 for a year in 1900..2100 and a semester in 1..4, else 0. */
  function IsValidYearSemester(year: u32, semester: u32): (valid: int)
    ensures valid == 0 || valid == 1
    ensures valid == 1 <==> 1900 <= year <= 2100 && 1 <= semester <= 4
  {
    if year < 1900 || year > 2100 then 0
    else if semester < 1 || semester > 4 then 0
    else 1
  }

  /** The four-way classification by the female bit and the graduate bit. */
  function CategoryOf(flags: byte): (c: Category)
    ensures (c == FemaleUndergrad || c == FemaleGraduate) <==> flags >= 0x80
    ensures (c == MaleGraduate || c == FemaleGraduate) <==> (flags as int / 0x40) % 2 == 1
  {
    if IsGraduate(flags) then (if IsFemale(flags) then FemaleGraduate else MaleGraduate)
    else if IsFemale(flags) then FemaleUndergrad else MaleUndergrad
  }

  function Counter(r: SemesterRecord, c: Category): nat {
    match c
    case MaleUndergrad => r.maleUndergrad
    case FemaleUndergrad => r.femaleUndergrad
    case MaleGraduate => r.maleGraduate
    case FemaleGraduate => r.femaleGraduate
  }

  /** The classification block: the counter of the flags' category grows by one, every
      other counter and the record's pair stay as they were. */
  function Bump(r: SemesterRecord, flags: byte): (r': SemesterRecord)
    ensures r'.year == r.year && r'.semester == r.semester
    ensures forall c: Category :: Counter(r', c) == Counter(r, c) + (if c == CategoryOf(flags) then 1 else 0)
  {
    if IsGraduate(flags) then
      if IsFemale(flags) then r.(femaleGraduate := r.femaleGraduate + 1)
      else r.(maleGraduate := r.maleGraduate + 1)
    else
      if IsFemale(flags) then r.(femaleUndergrad := r.femaleUndergrad + 1)
      else r.(maleUndergrad := r.maleUndergrad + 1)
  }

  predicate Matches(r: SemesterRecord, year: u32, semester: u32) {
    r.year == year && r.semester == semester
  }

  /** `find_semester_record` on the first records: the smallest index whose pair matches,
      or -1. */
  function IndexOf(rs: seq<SemesterRecord>, year: u32, semester: u32): (i: int)
    ensures -1 <= i < |rs|
    ensures i >= 0 ==> Matches(rs[i], year, semester)
    ensures i >= 0 ==> forall j | 0 <= j < i :: !Matches(rs[j], year, semester)
    ensures i == -1 ==> forall j | 0 <= j < |rs| :: !Matches(rs[j], year, semester)
  {
    if rs == [] then -1
    else if Matches(rs[0], year, semester) then 0
    else
      var i := IndexOf(rs[1..], year, semester);
      if i == -1 then -1 else i + 1
  }

  /** The student search of the loop body: the first student with the id, or the number of
      students when there is none (`student == NULL`). */
  function FirstWithId(ss: seq<Student>, id: u32): (k: nat)
    ensures k <= |ss|
    ensures k < |ss| ==> ss[k].id == id
    ensures forall j | 0 <= j < k :: ss[j].id != id
  {
    if ss == [] then 0 else if ss[0].id == id then 0 else 1 + FirstWithId(ss[1..], id)
  }

  /** Whether the loop body reaches the classification for an enrollment. */
  predicate Counted(ss: seq<Student>, e: Layout.Enrollment) {
    IsValidYearSemester(e.year, e.semester) == 1 && FirstWithId(ss, e.studentId) < |ss|
  }

  /** One pass of the loop body over the records built so far. */
  function Step(ss: seq<Student>, rs: seq<SemesterRecord>, e: Layout.Enrollment): seq<SemesterRecord> {
    if !Counted(ss, e) then rs
    else
      var flags := ss[FirstWithId(ss, e.studentId)].flags;
      var i := IndexOf(rs, e.year, e.semester);
      if i == -1 then rs + [Bump(SemesterRecord(e.year, e.semester, 0, 0, 0, 0), flags)]
      else rs[i := Bump(rs[i], flags)]
  }

  /** The records after the loop has processed the enrollments `es`. */
  function Tally(ss: seq<Student>, es: seq<Layout.Enrollment>): (rs: seq<SemesterRecord>)
    ensures |rs| <= |es|
  {
    if es == [] then [] else Step(ss, Tally(ss, es[..|es| - 1]), es[|es| - 1])
  }

  // Reference definitions the records are compared against.

  predicate CountedAt(ss: seq<Student>, e: Layout.Enrollment, year: u32, semester: u32) {
    Counted(ss, e) && e.year == year && e.semester == semester
  }

  predicate CountsAs(ss: seq<Student>, e: Layout.Enrollment, year: u32, semester: u32, c: Category) {
    CountedAt(ss, e, year, semester) && CategoryOf(ss[FirstWithId(ss, e.studentId)].flags) == c
  }

  /** How many of the enrollments are counted for the pair and have a student of the category. */
  function Occurrences(ss: seq<Student>, es: seq<Layout.Enrollment>, year: u32, semester: u32, c: Category): (n: nat)
    ensures n <= |es|
  {
    if es == [] then 0
    else
      var last := if CountsAs(ss, es[|es| - 1], year, semester, c) then 1 else 0;
      Occurrences(ss, es[..|es| - 1], year, semester, c) + last
  }

  /** The position of the first enrollment counted for the pair, or `|es|` when none is. */
  function FirstSeen(ss: seq<Student>, es: seq<Layout.Enrollment>, year: u32, semester: u32): (f: nat)
    ensures f <= |es|
    ensures f < |es| ==> CountedAt(ss, es[f], year, semester)
    ensures forall j | 0 <= j < f :: !CountedAt(ss, es[j], year, semester)
  {
    if es == [] then 0
    else
      var p := es[..|es| - 1];
      assert forall j | 0 <= j < |p| :: p[j] == es[j];
      var f := FirstSeen(ss, p, year, semester);
      if f < |p| then f
      else if CountedAt(ss, es[|es| - 1], year, semester) then |p|
      else |es|
  }

  /** No two records share a (year, semester) pair. */
  predicate DistinctPairs(rs: seq<SemesterRecord>) {
    forall a, b | 0 <= a < b < |rs| :: !Matches(rs[a], rs[b].year, rs[b].semester)
  }

  lemma {:induction false} IndexOfSnoc(rs: seq<SemesterRecord>, x: SemesterRecord, year: u32, semester: u32)
    ensures IndexOf(rs + [x], year, semester)
      == if IndexOf(rs, year, semester) >= 0 then IndexOf(rs, year, semester)
         else if Matches(x, year, semester) then |rs| else -1
    decreases |rs|
  {
    if rs != [] {
      assert (rs + [x])[0] == rs[0];
      assert (rs + [x])[1..] == rs[1..] + [x];
      IndexOfSnoc(rs[1..], x, year, semester);
    }
  }

  lemma {:induction false} IndexOfUpdate(rs: seq<SemesterRecord>, i: nat, r: SemesterRecord, year: u32, semester: u32)
    requires i < |rs| && r.year == rs[i].year && r.semester == rs[i].semester
    ensures IndexOf(rs[i := r], year, semester) == IndexOf(rs, year, semester)
    decreases |rs|
  {
    if i > 0 {
      assert rs[i := r][1..] == rs[1..][i - 1 := r];
      IndexOfUpdate(rs[1..], i - 1, r, year, semester);
    }
  }

  /** What one pass does to the shape of the records: the pairs of the existing records stay,
      and a record is appended only for a counted enrollment whose pair is new. */
  lemma StepPairs(ss: seq<Student>, rs: seq<SemesterRecord>, e: Layout.Enrollment)
    ensures |rs| <= |Step(ss, rs, e)| <= |rs| + 1
    ensures forall a | 0 <= a < |rs| :: Matches(Step(ss, rs, e)[a], rs[a].year, rs[a].semester)
    ensures |Step(ss, rs, e)| == |rs| + 1 ==>
      Counted(ss, e) && IndexOf(rs, e.year, e.semester) == -1
      && Matches(Step(ss, rs, e)[|rs|], e.year, e.semester)
  {
  }

  lemma StepKeepsDistinct(ss: seq<Student>, rs: seq<SemesterRecord>, e: Layout.Enrollment)
    requires DistinctPairs(rs)
    ensures DistinctPairs(Step(ss, rs, e))
  {
    StepPairs(ss, rs, e);
  }

  /** The records never hold two entries for the same (year, semester) pair. */
  lemma {:induction false} TallyDistinct(ss: seq<Student>, es: seq<Layout.Enrollment>)
    ensures DistinctPairs(Tally(ss, es))
    decreases |es|
  {
    if es != [] {
      TallyDistinct(ss, es[..|es| - 1]);
      StepKeepsDistinct(ss, Tally(ss, es[..|es| - 1]), es[|es| - 1]);
    }
  }

  /** An enrollment that is invalid or names no student leaves every record unchanged. */
  lemma SkippedChangesNothing(ss: seq<Student>, es: seq<Layout.Enrollment>, e: Layout.Enrollment)
    requires IsValidYearSemester(e.year, e.semester) == 0 || FirstWithId(ss, e.studentId) == |ss|
    ensures Tally(ss, es + [e]) == Tally(ss, es)
  {
    assert (es + [e])[..|es|] == es;
  }

  /** A counted enrollment bumps exactly one counter of its pair's record (created with
      zero counters when the pair is new) and leaves every other record as it was. */
  lemma CountedBumpsOne(ss: seq<Student>, es: seq<Layout.Enrollment>, e: Layout.Enrollment)
    requires Counted(ss, e)
    ensures var before, after := Tally(ss, es), Tally(ss, es + [e]);
      var i := IndexOf(after, e.year, e.semester);
      var cat := CategoryOf(ss[FirstWithId(ss, e.studentId)].flags);
      && i >= 0
      && (IndexOf(before, e.year, e.semester) == -1 ==> |after| == |before| + 1 && i == |before|)
      && (IndexOf(before, e.year, e.semester) >= 0 ==> |after| == |before| && i == IndexOf(before, e.year, e.semester))
      && (forall a | 0 <= a < |before| && a != i :: after[a] == before[a])
      && (forall c: Category :: Counter(after[i], c)
            == (if i < |before| then Counter(before[i], c) else 0) + (if c == cat then 1 else 0))
  {
    assert (es + [e])[..|es|] == es;
    var before := Tally(ss, es);
    var flags := ss[FirstWithId(ss, e.studentId)].flags;
    var i := IndexOf(before, e.year, e.semester);
    if i == -1 {
      IndexOfSnoc(before, Bump(SemesterRecord(e.year, e.semester, 0, 0, 0, 0), flags), e.year, e.semester);
    } else {
      IndexOfUpdate(before, i, Bump(before[i], flags), e.year, e.semester);
    }
  }

  /** The reference definitions on one more enrollment. */
  lemma FirstSeenSnoc(ss: seq<Student>, es: seq<Layout.Enrollment>, e: Layout.Enrollment, year: u32, semester: u32)
    ensures FirstSeen(ss, es + [e], year, semester)
      == if FirstSeen(ss, es, year, semester) < |es| then FirstSeen(ss, es, year, semester)
         else if CountedAt(ss, e, year, semester) then |es| else |es| + 1
  {
    assert (es + [e])[..|es|] == es;
  }

  lemma OccurrencesSnoc(ss: seq<Student>, es: seq<Layout.Enrollment>, e: Layout.Enrollment, year: u32, semester: u32, c: Category)
    ensures Occurrences(ss, es + [e], year, semester, c)
      == Occurrences(ss, es, year, semester, c) + if CountsAs(ss, e, year, semester, c) then 1 else 0
  {
    assert (es + [e])[..|es|] == es;
  }

  /** The records on one more enrollment: the index of a pair and its counters. */
  lemma StepIndex(ss: seq<Student>, t: seq<SemesterRecord>, e: Layout.Enrollment, year: u32, semester: u32, c: Category)
    ensures var t' := Step(ss, t, e);
      && (IndexOf(t', year, semester) >= 0 <==> IndexOf(t, year, semester) >= 0 || CountedAt(ss, e, year, semester))
      && (IndexOf(t', year, semester) >= 0 ==>
        Counter(t'[IndexOf(t', year, semester)], c)
          == (if IndexOf(t, year, semester) >= 0 then Counter(t[IndexOf(t, year, semester)], c) else 0)
             + (if CountsAs(ss, e, year, semester, c) then 1 else 0))
  {
    if Counted(ss, e) {
      var flags := ss[FirstWithId(ss, e.studentId)].flags;
      var i := IndexOf(t, e.year, e.semester);
      if i == -1 {
        IndexOfSnoc(t, Bump(SemesterRecord(e.year, e.semester, 0, 0, 0, 0), flags), year, semester);
      } else {
        IndexOfUpdate(t, i, Bump(t[i], flags), year, semester);
      }
    }
  }

  /** For every pair and category: a record for the pair exists exactly when some counted
      enrollment has the pair, and its counter equals the number of counted enrollments of
      the pair whose (first matching) student has that category. */
  lemma {:induction false} TallyCounts(ss: seq<Student>, es: seq<Layout.Enrollment>, year: u32, semester: u32, c: Category)
    ensures IndexOf(Tally(ss, es), year, semester) >= 0 <==> FirstSeen(ss, es, year, semester) < |es|
    ensures IndexOf(Tally(ss, es), year, semester) >= 0 ==>
      Counter(Tally(ss, es)[IndexOf(Tally(ss, es), year, semester)], c) == Occurrences(ss, es, year, semester, c)
    ensures IndexOf(Tally(ss, es), year, semester) < 0 ==> Occurrences(ss, es, year, semester, c) == 0
    decreases |es|
  {
    if es != [] {
      var n := |es| - 1;
      var p := es[..n];
      var e := es[n];
      assert es == p + [e];
      TallyCounts(ss, p, year, semester, c);
      assert Tally(ss, es) == Step(ss, Tally(ss, p), e);
      StepIndex(ss, Tally(ss, p), e, year, semester, c);
      FirstSeenSnoc(ss, p, e, year, semester);
      OccurrencesSnoc(ss, p, e, year, semester, c);
    }
  }

  /** A pair already first seen keeps its position when one more enrollment is processed. */
  lemma StepKeepsFirstSeen(ss: seq<Student>, es: seq<Layout.Enrollment>, e: Layout.Enrollment, t: seq<SemesterRecord>)
    requires forall a | 0 <= a < |t| :: FirstSeen(ss, es, t[a].year, t[a].semester) < |es|
    ensures |Step(ss, t, e)| >= |t|
    ensures forall a | 0 <= a < |t| ::
      FirstSeen(ss, es + [e], Step(ss, t, e)[a].year, Step(ss, t, e)[a].semester) == FirstSeen(ss, es, t[a].year, t[a].semester)
  {
    StepPairs(ss, t, e);
    forall a | 0 <= a < |t|
      ensures FirstSeen(ss, es + [e], Step(ss, t, e)[a].year, Step(ss, t, e)[a].semester) == FirstSeen(ss, es, t[a].year, t[a].semester)
    {
      FirstSeenSnoc(ss, es, e, t[a].year, t[a].semester);
    }
  }

  /** Records appear in the order their pairs are first seen among the counted enrollments. */
  lemma {:induction false} TallyOrder(ss: seq<Student>, es: seq<Layout.Enrollment>)
    ensures forall a | 0 <= a < |Tally(ss, es)| ::
      FirstSeen(ss, es, Tally(ss, es)[a].year, Tally(ss, es)[a].semester) < |es|
    ensures forall a, b | 0 <= a < b < |Tally(ss, es)| ::
      FirstSeen(ss, es, Tally(ss, es)[a].year, Tally(ss, es)[a].semester)
        < FirstSeen(ss, es, Tally(ss, es)[b].year, Tally(ss, es)[b].semester)
    decreases |es|
  {
    if es != [] {
      var n := |es| - 1;
      var p := es[..n];
      var e := es[n];
      assert es == p + [e];
      TallyOrder(ss, p);
      var t := Tally(ss, p);
      assert Tally(ss, es) == Step(ss, t, e);
      StepPairs(ss, t, e);
      var t' := Tally(ss, es);
      StepKeepsFirstSeen(ss, p, e, t);
      if |t'| == |t| + 1 {
        TallyCounts(ss, p, e.year, e.semester, MaleUndergrad);
        FirstSeenSnoc(ss, p, e, e.year, e.semester);
        assert FirstSeen(ss, es, t'[|t|].year, t'[|t|].semester) == n;
      }
      forall a, b | 0 <= a < b < |t'|
        ensures FirstSeen(ss, es, t'[a].year, t'[a].semester) < FirstSeen(ss, es, t'[b].year, t'[b].semester)
      {
        if b < |t| {
          assert FirstSeen(ss, p, t[a].year, t[a].semester) < FirstSeen(ss, p, t[b].year, t[b].semester);
        }
      }
    }
  }

  /** The table task03.c prints, taken together: distinct pairs in first-seen order, one
      record for every pair some counted enrollment has, and counters equal to the
      reference counts. */
  lemma SemesterTable(ss: seq<Student>, es: seq<Layout.Enrollment>)
    ensures DistinctPairs(Tally(ss, es))
    ensures forall j | 0 <= j < |es| && Counted(ss, es[j]) ::
      IndexOf(Tally(ss, es), es[j].year, es[j].semester) >= 0
    ensures forall a, c: Category | 0 <= a < |Tally(ss, es)| ::
      Counter(Tally(ss, es)[a], c) == Occurrences(ss, es, Tally(ss, es)[a].year, Tally(ss, es)[a].semester, c)
  {
    TallyDistinct(ss, es);
    var t := Tally(ss, es);
    forall j | 0 <= j < |es| && Counted(ss, es[j])
      ensures IndexOf(t, es[j].year, es[j].semester) >= 0
    {
      TallyCounts(ss, es, es[j].year, es[j].semester, MaleUndergrad);
    }
    forall a, c: Category | 0 <= a < |t|
      ensures Counter(t[a], c) == Occurrences(ss, es, t[a].year, t[a].semester, c)
    {
      TallyCounts(ss, es, t[a].year, t[a].semester, c);
      assert IndexOf(t, t[a].year, t[a].semester) == a;
    }
  }

  // Decoding the input.

  /** One student record's 32 bytes as task03.c reads them: id, flags, 23 skipped name
      bytes, age. */
  function ParseStudent(w: seq<byte>): Student
    requires |w| == Layout.STUDENT_SIZE
  {
    Student(Layout.LE32At(w, 0), w[4], Layout.LE32At(w, 28))
  }

  function StudentAt(data: seq<byte>, off: nat): Student
    requires off + Layout.STUDENT_SIZE <= |data|
  {
    ParseStudent(data[off..off + Layout.STUDENT_SIZE])
  }

  function StudentsAt(data: seq<byte>, off: nat, n: nat): seq<Student>
    requires off + Layout.STUDENT_SIZE * n <= |data|
  {
    Layout.Records(data[off..off + Layout.STUDENT_SIZE * n], n, Layout.STUDENT_SIZE, ParseStudent)
  }

  lemma StudentsAtSnoc(data: seq<byte>, off: nat, n: nat)
    requires off + Layout.STUDENT_SIZE * (n + 1) <= |data|
    ensures StudentsAt(data, off, n + 1) == StudentsAt(data, off, n) + [StudentAt(data, off + Layout.STUDENT_SIZE * n)]
  {
    Layout.RecordsSnoc(data, off, n, Layout.STUDENT_SIZE, ParseStudent);
  }

  /** The decode as task03.c:100-128 performs it: after the students it reads the
      enrollments straight away, where the course section begins. */
  function DecodeAsWritten(data: seq<byte>): Layout.Result<Input> {
    if |data| < 2 then Layout.Err(Layout.Truncated)
    else if BE16(data[0], data[1]) != Layout.MAGIC then Layout.Err(Layout.BadMagic(BE16(data[0], data[1])))
    else if |data| < Layout.HEADER_SIZE then Layout.Err(Layout.Truncated)
    else
      var h := Layout.HeaderAt(data);
      var enrollmentsAt := Layout.CoursesOffset(h);
      if |data| < enrollmentsAt + Layout.ENROLLMENT_SIZE * h.enrollmentCount as nat then Layout.Err(Layout.Truncated)
      else Layout.Ok(Input(StudentsAt(data, Layout.HEADER_SIZE, h.studentCount as nat),
                           Layout.EnrollmentsAt(data, enrollmentsAt, h.enrollmentCount as nat)))
  }

  /** The decode with the course section skipped, as the file layout places it. */
  function Decode(data: seq<byte>): Layout.Result<Input> {
    if |data| < 2 then Layout.Err(Layout.Truncated)
    else if BE16(data[0], data[1]) != Layout.MAGIC then Layout.Err(Layout.BadMagic(BE16(data[0], data[1])))
    else if |data| < Layout.HEADER_SIZE then Layout.Err(Layout.Truncated)
    else
      var h := Layout.HeaderAt(data);
      if |data| < Layout.RosterSize(h) then Layout.Err(Layout.Truncated)
      else Layout.Ok(Input(StudentsAt(data, Layout.HEADER_SIZE, h.studentCount as nat),
                           Layout.EnrollmentsAt(data, Layout.EnrollmentsOffset(h), h.enrollmentCount as nat)))
  }

  function Project(s: Layout.Student): Student {
    Student(s.id, s.flags, s.age)
  }

  predicate Projects(s: Layout.Student, t: Student) {
    t == Project(s)
  }

  /** The corrected decode accepts exactly the files the full roster decode accepts, fails
      with the same error otherwise, and yields the roster's enrollments and its students
      without their names. */
  lemma DecodeMatchesRoster(data: seq<byte>)
    ensures Decode(data).Ok? <==> Layout.DecodeRoster(data).Ok?
    ensures Decode(data).Err? ==> Decode(data).error == Layout.DecodeRoster(data).error
    ensures Decode(data).Ok? ==>
      var r := Layout.DecodeRoster(data).value;
      && Decode(data).value.enrollments == r.enrollments
      && |Decode(data).value.students| == |r.students|
      && forall k | 0 <= k < |r.students| :: Decode(data).value.students[k] == Project(r.students[k])
  {
    if Decode(data).Ok? {
      var h := Layout.HeaderAt(data);
      Layout.DecodeRosterOk(data);
      var n := h.studentCount as nat;
      Layout.RecordsRelated(data[Layout.HEADER_SIZE..Layout.HEADER_SIZE + Layout.STUDENT_SIZE * n], n, Layout.STUDENT_SIZE,
                            Layout.ParseStudent, ParseStudent, Projects);
    }
  }

  lemma DecodeOk(data: seq<byte>)
    requires Layout.HEADER_SIZE <= |data| && Layout.HeaderAt(data).magic == Layout.MAGIC
    requires Layout.RosterSize(Layout.HeaderAt(data)) <= |data|
    ensures var h := Layout.HeaderAt(data);
      Decode(data) == Layout.Ok(Input(StudentsAt(data, Layout.HEADER_SIZE, h.studentCount as nat),
                                      Layout.EnrollmentsAt(data, Layout.EnrollmentsOffset(h), h.enrollmentCount as nat)))
  {
  }

  /** Without courses the two decodes agree. */
  lemma AsWrittenAgreesWithoutCourses(data: seq<byte>)
    requires |data| >= Layout.HEADER_SIZE && Layout.HeaderAt(data).courseCount == 0
    ensures DecodeAsWritten(data) == Decode(data)
  {
  }

  /** The first of a run of records is parsed from the run's first window. */
  lemma {:induction false} RecordsFirst<T>(section: seq<byte>, n: nat, width: nat, parse: seq<byte> --> T)
    requires n >= 1 && |section| == width * n
    requires forall w: seq<byte> | |w| == width :: parse.requires(w)
    ensures width <= |section|
    ensures Layout.Records(section, n, width, parse)[0] == parse(section[..width])
  {
    Layout.MulStep(width, n - 1);
    var mid := width * (n - 1);
    assert Layout.Records(section, n, width, parse)
      == Layout.Records(section[..mid], n - 1, width, parse) + [parse(section[mid..])];
    if n > 1 {
      RecordsFirst(section[..mid], n - 1, width, parse);
      assert section[..mid][..width] == section[..width];
    } else {
      assert section[mid..] == section[..width];
    }
  }

  lemma FirstEnrollmentAt(data: seq<byte>, off: nat, n: nat)
    requires n >= 1 && off + Layout.ENROLLMENT_SIZE * n <= |data|
    ensures Layout.EnrollmentsAt(data, off, n)[0].studentId == Layout.LE32At(data, off)
  {
    var section := data[off..off + Layout.ENROLLMENT_SIZE * n];
    RecordsFirst(section, n, Layout.ENROLLMENT_SIZE, Layout.ParseEnrollment);
    var w := section[..Layout.ENROLLMENT_SIZE];
    assert w[0] == data[off] && w[1] == data[off + 1] && w[2] == data[off + 2] && w[3] == data[off + 3];
  }

  lemma FirstCourseAt(data: seq<byte>, off: nat, n: nat)
    requires n >= 1 && off + Layout.COURSE_SIZE * n <= |data|
    ensures Layout.CoursesAt(data, off, n)[0].id == Layout.LE32At(data, off)
  {
    var section := data[off..off + Layout.COURSE_SIZE * n];
    RecordsFirst(section, n, Layout.COURSE_SIZE, Layout.ParseCourse);
    var w := section[..Layout.COURSE_SIZE];
    assert w[0] == data[off] && w[1] == data[off + 1] && w[2] == data[off + 2] && w[3] == data[off + 3];
  }

  lemma DecodeAsWrittenOk(data: seq<byte>)
    requires Layout.HEADER_SIZE <= |data| && Layout.HeaderAt(data).magic == Layout.MAGIC
    requires Layout.CoursesOffset(Layout.HeaderAt(data)) + Layout.ENROLLMENT_SIZE * Layout.HeaderAt(data).enrollmentCount as nat <= |data|
    ensures var h := Layout.HeaderAt(data);
      DecodeAsWritten(data) == Layout.Ok(Input(StudentsAt(data, Layout.HEADER_SIZE, h.studentCount as nat),
                                               Layout.EnrollmentsAt(data, Layout.CoursesOffset(h), h.enrollmentCount as nat)))
  {
  }

  /** On a file with at least one course and one enrollment, the decode as written takes
      the first course record's bytes for the first enrollment: the course's id becomes
      that enrollment's student id. */
  lemma AsWrittenReadsCourseBytes(data: seq<byte>)
    requires Layout.DecodeRoster(data).Ok?
    requires |Layout.DecodeRoster(data).value.courses| >= 1
    requires |Layout.DecodeRoster(data).value.enrollments| >= 1
    ensures DecodeAsWritten(data).Ok? && |DecodeAsWritten(data).value.enrollments| >= 1
    ensures DecodeAsWritten(data).value.enrollments[0].studentId == Layout.DecodeRoster(data).value.courses[0].id
  {
    var h := Layout.HeaderAt(data);
    Layout.DecodeRosterOk(data);
    var co := Layout.CoursesOffset(h);
    DecodeAsWrittenOk(data);
    FirstEnrollmentAt(data, co, h.enrollmentCount as nat);
    FirstCourseAt(data, co, h.courseCount as nat);
  }

  /** On the file written for a roster with a course and an enrollment, the decode as
      written reports the first course's id as the first enrollment's student, while the
      corrected decode reports the roster's enrollments. */
  lemma AsWrittenOnEncoded(r: Layout.Roster)
    requires Layout.WellFormedRoster(r) && |r.courses| >= 1 && |r.enrollments| >= 1
    ensures DecodeAsWritten(Layout.EncodeRoster(r)).Ok?
    ensures |DecodeAsWritten(Layout.EncodeRoster(r)).value.enrollments| >= 1
    ensures DecodeAsWritten(Layout.EncodeRoster(r)).value.enrollments[0].studentId == r.courses[0].id
    ensures Decode(Layout.EncodeRoster(r)).Ok? && Decode(Layout.EncodeRoster(r)).value.enrollments == r.enrollments
  {
    var data := Layout.EncodeRoster(r);
    Layout.DecodeEncodeRoster(r);
    AsWrittenReadsCourseBytes(data);
    DecodeMatchesRoster(data);
  }

  /** A concrete file showing the discrepancy: one course with id 7 and one enrollment of
      student 1 in it for semester 1 of 2024. The decode as written yields an enrollment of
      student 7; the corrected decode yields the file's enrollment. */
  lemma AsWrittenMisreadsEnrollments(r: Layout.Roster)
    requires r == Layout.Roster([], [Layout.Course(7, seq(33, _ => 0), 3)], [Layout.Enrollment(1, 7, 2024, 1)])
    ensures Layout.WellFormedRoster(r)
    ensures DecodeAsWritten(Layout.EncodeRoster(r)).Ok?
    ensures |DecodeAsWritten(Layout.EncodeRoster(r)).value.enrollments| >= 1
    ensures DecodeAsWritten(Layout.EncodeRoster(r)).value.enrollments[0].studentId == 7
    ensures Decode(Layout.EncodeRoster(r)).Ok?
    ensures Decode(Layout.EncodeRoster(r)).value.enrollments == [Layout.Enrollment(1, 7, 2024, 1)]
  {
    assert Layout.WellFormedCourse(r.courses[0]);
    assert Layout.WellFormedRoster(r);
    AsWrittenOnEncoded(r);
  }

  // The program.

  /** `students[i]`: id, flags, `fseek` over the 23 name bytes, age. */
  method ReadStudent(f: FileStream) returns (s: Student)
    requires f.Valid() && f.Remaining() >= Layout.STUDENT_SIZE
    modifies f
    ensures f.Valid() && f.pos == old(f.pos) + Layout.STUDENT_SIZE
    ensures s == StudentAt(f.data, old(f.pos))
  {
    var id := f.ReadLittleEndian32();
    var flags := f.ReadByte();
    f.Skip(Layout.NAME_SIZE);
    var age := f.ReadLittleEndian32();
    s := Student(id, flags, age);
  }

  /** One pass of the student loop: the next record read into slot `i`. */
  method ReadStudentInto(f: FileStream, students: array<Student>, ghost start: nat, i: nat)
    requires f.Valid() && f.pos == start + Layout.STUDENT_SIZE * i && f.Remaining() >= Layout.STUDENT_SIZE
    requires i < students.Length && students[..i] == StudentsAt(f.data, start, i)
    modifies f, students
    ensures f.Valid() && f.pos == old(f.pos) + Layout.STUDENT_SIZE
    ensures students[..] == old(students[..])[i := StudentAt(f.data, old(f.pos))]
    ensures students[..i + 1] == StudentsAt(f.data, start, i + 1)
  {
    ghost var read := students[..i];
    var s := ReadStudent(f);
    students[i] := s;
    assert students[..i + 1] == read + [s];
    StudentsAtSnoc(f.data, start, i);
  }

  /** The student loop. */
  method ReadStudents(f: FileStream, n: nat) returns (students: array<Student>)
    requires f.Valid() && f.Remaining() >= Layout.STUDENT_SIZE * n
    modifies f
    ensures fresh(students) && students.Length == n
    ensures f.Valid() && f.pos == old(f.pos) + Layout.STUDENT_SIZE * n
    ensures students[..] == StudentsAt(f.data, old(f.pos), n)
  {
    ghost var start := f.pos;
    students := new Student[n];
    var i := 0;
    while i < n
      invariant 0 <= i <= n
      invariant f.Valid() && f.pos == start + Layout.STUDENT_SIZE * i
      invariant start + Layout.STUDENT_SIZE * n <= |f.data|
      invariant students[..i] == StudentsAt(f.data, start, i)
    {
      Layout.MulStep(Layout.STUDENT_SIZE, i);
      ReadStudentInto(f, students, start, i);
      i := i + 1;
    }
    assert students[..] == students[..n];
  }

  /** The student search, with its `break`. */
  method FindStudent(students: array<Student>, id: u32) returns (k: nat)
    ensures k == FirstWithId(students[..], id)
  {
    k := 0;
    while k < students.Length
      invariant k <= students.Length
      invariant forall j | 0 <= j < k :: students[j].id != id
    {
      if students[k].id == id {
        break;
      }
      k := k + 1;
    }
  }

  /** `find_semester_record`: a linear search of the first `count` records. */
  method FindSemesterRecord(records: array<SemesterRecord>, year: u32, semester: u32, count: int)
    returns (index: int)
    requires count <= records.Length
    ensures count <= 0 ==> index == -1
    ensures count >= 0 ==> index == IndexOf(records[..count], year, semester)
  {
    var i := 0;
    while i < count
      invariant 0 <= i <= records.Length && (count >= 0 ==> i <= count)
      invariant forall j | 0 <= j < i :: !Matches(records[j], year, semester)
    {
      if records[i].year == year && records[i].semester == semester {
        return i;
      }
      i := i + 1;
    }
    return -1;
  }

  /** One pass of the processing loop: an enrollment with an invalid year or semester, or
      whose student is not found, changes nothing; otherwise the record of its pair, created
      at the end when there is none yet, has the counter of the student's category bumped. */
  method ProcessEnrollment(students: array<Student>, records: array<SemesterRecord>, recordCount: nat,
                           e: Layout.Enrollment)
    returns (newCount: nat)
    requires recordCount < records.Length
    modifies records
    ensures newCount <= recordCount + 1
    ensures records[..newCount] == Step(students[..], old(records[..recordCount]), e)
  {
    newCount := recordCount;
    if IsValidYearSemester(e.year, e.semester) == 0 {
      return;
    }
    var k := FindStudent(students, e.studentId);
    if k < students.Length {
      var index := FindSemesterRecord(records, e.year, e.semester, recordCount);
      if index == -1 {
        records[recordCount] := SemesterRecord(e.year, e.semester, 0, 0, 0, 0);
        index := recordCount;
        newCount := recordCount + 1;
      }
      ghost var current := records[..newCount];
      BumpRecord(records, index, students[k].flags);
      assert records[..newCount] == current[index := Bump(current[index], students[k].flags)];
    }
  }

  /** The classification block: the counter of the category the flags name grows by one. */
  method BumpRecord(records: array<SemesterRecord>, index: nat, flags: byte)
    requires index < records.Length
    modifies records
    ensures records[..] == old(records[..])[index := Bump(old(records[index]), flags)]
  {
    var r := records[index];
    if IsGraduate(flags) {
      if IsFemale(flags) {
        records[index] := r.(femaleGraduate := r.femaleGraduate + 1);
      } else {
        records[index] := r.(maleGraduate := r.maleGraduate + 1);
      }
    } else {
      if IsFemale(flags) {
        records[index] := r.(femaleUndergrad := r.femaleUndergrad + 1);
      } else {
        records[index] := r.(maleUndergrad := r.maleUndergrad + 1);
      }
    }
  }

  /** The processing loop over the enrollments, with the records array allocated for as
      many records as there are enrollments. */
  method Aggregate(students: array<Student>, enrollments: array<Layout.Enrollment>)
    returns (records: array<SemesterRecord>, recordCount: nat)
    ensures fresh(records) && records.Length == enrollments.Length
    ensures recordCount <= records.Length
    ensures records[..recordCount] == Tally(students[..], enrollments[..])
  {
    records := new SemesterRecord[enrollments.Length];
    recordCount := 0;
    for i := 0 to enrollments.Length
      invariant recordCount <= i
      invariant records[..recordCount] == Tally(students[..], enrollments[..i])
    {
      assert enrollments[..i + 1][..i] == enrollments[..i];
      recordCount := ProcessEnrollment(students, records, recordCount, enrollments[i]);
    }
    assert enrollments[..] == enrollments[..enrollments.Length];
  }

  /** The corrected sections after the header: the students, the course section skipped
      as a whole, the enrollments. */
  method ReadSections(f: FileStream, h: Layout.Header)
    returns (students: array<Student>, enrollments: array<Layout.Enrollment>)
    requires f.Valid() && f.pos == Layout.HEADER_SIZE && Layout.RosterSize(h) <= |f.data|
    modifies f
    ensures fresh(students) && fresh(enrollments)
    ensures f.Valid() && f.pos == Layout.RosterSize(h)
    ensures students[..] == StudentsAt(f.data, Layout.HEADER_SIZE, h.studentCount as nat)
    ensures enrollments[..] == Layout.EnrollmentsAt(f.data, Layout.EnrollmentsOffset(h), h.enrollmentCount as nat)
  {
    students := ReadStudents(f, h.studentCount as nat);
    f.Skip(Layout.COURSE_SIZE * h.courseCount as nat);
    enrollments := RecordReader.ReadEnrollments(f, h.enrollmentCount as nat);
  }

  /** The sections after the header as task03.c reads them: the student loop, then the
      enrollment loop straight away, where the course section begins. */
  method ReadSectionsAsWritten(f: FileStream, h: Layout.Header)
    returns (students: array<Student>, enrollments: array<Layout.Enrollment>)
    requires f.Valid() && f.pos == Layout.HEADER_SIZE
    requires Layout.CoursesOffset(h) + Layout.ENROLLMENT_SIZE * h.enrollmentCount as nat <= |f.data|
    modifies f
    ensures fresh(students) && fresh(enrollments)
    ensures f.Valid() && f.pos == Layout.CoursesOffset(h) + Layout.ENROLLMENT_SIZE * h.enrollmentCount as nat
    ensures students[..] == StudentsAt(f.data, Layout.HEADER_SIZE, h.studentCount as nat)
    ensures enrollments[..] == Layout.EnrollmentsAt(f.data, Layout.CoursesOffset(h), h.enrollmentCount as nat)
  {
    students := ReadStudents(f, h.studentCount as nat);
    enrollments := RecordReader.ReadEnrollments(f, h.enrollmentCount as nat);
  }

  /** The magic check and the three counts, from the file's start. A wrong magic stops the
      read right after the two magic bytes; both decodes fail exactly as reported. */
  method ReadHeader(f: FileStream) returns (outcome: Layout.Result<Layout.Header>)
    requires f.Valid() && f.pos == 0
    modifies f
    ensures f.Valid()
    ensures outcome.Ok? <==> Layout.HEADER_SIZE <= |f.data| && Layout.HeaderAt(f.data).magic == Layout.MAGIC
    ensures outcome.Ok? ==> outcome.value == Layout.HeaderAt(f.data) && f.pos == Layout.HEADER_SIZE
    ensures outcome.Err? ==> Decode(f.data) == Layout.Err(outcome.error) && DecodeAsWritten(f.data) == Layout.Err(outcome.error)
    ensures outcome.Err? && outcome.error.BadMagic? ==> f.pos == 2
  {
    if f.Remaining() < 2 {
      return Layout.Err(Layout.Truncated);
    }
    var magic := f.ReadBigEndian16();
    if magic != Layout.MAGIC {
      return Layout.Err(Layout.BadMagic(magic));
    }
    if f.Remaining() < 12 {
      return Layout.Err(Layout.Truncated);
    }
    var sc, cc, ec := RecordReader.ReadCounts(f);
    outcome := Layout.Ok(Layout.Header(magic, sc, cc, ec));
  }

  /** The corrected read of the input from the file's start: the checks of the magic and of
      the length give the errors of `Decode`, and on success the arrays hold its students and
      enrollments. */
  method ReadInput(f: FileStream)
    returns (outcome: Layout.Result<Layout.Header>, students: array<Student>, enrollments: array<Layout.Enrollment>)
    requires f.Valid() && f.pos == 0
    modifies f
    ensures fresh(students) && fresh(enrollments)
    ensures outcome.Ok? <==> Decode(f.data).Ok?
    ensures outcome.Err? ==> Decode(f.data) == Layout.Err(outcome.error)
    ensures outcome.Err? && outcome.error.BadMagic? ==> f.pos == 2
    ensures outcome.Ok? ==> Decode(f.data).value == Input(students[..], enrollments[..])
  {
    students, enrollments := new Student[0], new Layout.Enrollment[0];
    outcome := ReadHeader(f);
    if outcome.Err? {
      return;
    }
    var h := outcome.value;
    if f.Remaining() < Layout.RosterSize(h) - Layout.HEADER_SIZE {
      return Layout.Err(Layout.Truncated), students, enrollments;
    }
    students, enrollments := ReadSections(f, h);
    DecodeOk(f.data);
  }

  /** The read of the input as task03.c performs it: the same header checks, then the
      students and the enrollments read back to back; the outcome and the arrays are those
      of `DecodeAsWritten`. */
  method ReadInputAsWritten(f: FileStream)
    returns (outcome: Layout.Result<Layout.Header>, students: array<Student>, enrollments: array<Layout.Enrollment>)
    requires f.Valid() && f.pos == 0
    modifies f
    ensures fresh(students) && fresh(enrollments)
    ensures outcome.Ok? <==> DecodeAsWritten(f.data).Ok?
    ensures outcome.Err? ==> DecodeAsWritten(f.data) == Layout.Err(outcome.error)
    ensures outcome.Err? && outcome.error.BadMagic? ==> f.pos == 2
    ensures outcome.Ok? ==> DecodeAsWritten(f.data).value == Input(students[..], enrollments[..])
  {
    students, enrollments := new Student[0], new Layout.Enrollment[0];
    outcome := ReadHeader(f);
    if outcome.Err? {
      return;
    }
    var h := outcome.value;
    var size := Layout.CoursesOffset(h) + Layout.ENROLLMENT_SIZE * h.enrollmentCount as nat;
    if f.Remaining() < size - Layout.HEADER_SIZE {
      return Layout.Err(Layout.Truncated), students, enrollments;
    }
    students, enrollments := ReadSectionsAsWritten(f, h);
    DecodeAsWrittenOk(f.data);
  }

  /** The whole program on the file's bytes, with the course section skipped. */
  method Run(data: seq<byte>) returns (outcome: Layout.Result<seq<SemesterRecord>>)
    ensures Decode(data).Err? ==> outcome == Layout.Err(Decode(data).error)
    ensures Decode(data).Ok? ==>
      outcome == Layout.Ok(Tally(Decode(data).value.students, Decode(data).value.enrollments))
  {
    var f := new FileStream.Open(data);
    var decoded, students, enrollments := ReadInput(f);
    if decoded.Err? {
      return Layout.Err(decoded.error);
    }
    var records, recordCount := Aggregate(students, enrollments);
    outcome := Layout.Ok(records[..recordCount]);
  }

  /** The whole program on the file's bytes as task03.c is written: the table it builds is
      the tally over the as-written decode, whose enrollments are read from where the
      course section begins. */
  method RunAsWritten(data: seq<byte>) returns (outcome: Layout.Result<seq<SemesterRecord>>)
    ensures DecodeAsWritten(data).Err? ==> outcome == Layout.Err(DecodeAsWritten(data).error)
    ensures DecodeAsWritten(data).Ok? ==>
      outcome == Layout.Ok(Tally(DecodeAsWritten(data).value.students, DecodeAsWritten(data).value.enrollments))
  {
    var f := new FileStream.Open(data);
    var decoded, students, enrollments := ReadInputAsWritten(f);
    if decoded.Err? {
      return Layout.Err(decoded.error);
    }
    var records, recordCount := Aggregate(students, enrollments);
    outcome := Layout.Ok(records[..recordCount]);
  }
}
