/** The decode loops task02.c and Edwin_Rojas_Tarea2.c share: one method per record
    kind reading a record field by field from the file, one loop per section filling an
    array, and the whole-file read that checks the magic, reads the counts and then the
    three sections in the order students, courses, enrollments. Each is proved to produce
    exactly what the `Layout` decoders give for the same bytes. */
module RecordReader {
  import opened Bytes
  import opened FileStreams
  import opened Layout

  /** One student record: id, flags, the 23 name bytes into a 24-byte buffer whose last
      slot is then set to NUL, age. */
  method ReadStudent(f: FileStream) returns (s: Student)
    requires f.Valid() && f.Remaining() >= STUDENT_SIZE
    modifies f
    ensures f.Valid() && f.pos == old(f.pos) + STUDENT_SIZE
    ensures s == StudentAt(f.data, old(f.pos))
  {
    ghost var start := f.pos;
    var id := f.ReadLittleEndian32();
    var flags := f.ReadByte();
    var raw := f.ReadBytes(NAME_SIZE);
    var name := raw + [0];
    var age := f.ReadLittleEndian32();
    s := Student(id, flags, name, age);
    ghost var w := f.data[start..start + STUDENT_SIZE];
    SubWindow(f.data, start, STUDENT_SIZE, 5, 28);
    assert s == ParseStudent(w);
  }

  /** One course record: id, the 32 name bytes into a 33-byte buffer ending in NUL,
      credit hours. */
  method ReadCourse(f: FileStream) returns (c: Course)
    requires f.Valid() && f.Remaining() >= COURSE_SIZE
    modifies f
    ensures f.Valid() && f.pos == old(f.pos) + COURSE_SIZE
    ensures c == CourseAt(f.data, old(f.pos))
  {
    ghost var start := f.pos;
    var id := f.ReadLittleEndian32();
    var raw := f.ReadBytes(COURSE_NAME_SIZE);
    var name := raw + [0];
    var creditHours := f.ReadLittleEndian32();
    c := Course(id, name, creditHours);
    ghost var w := f.data[start..start + COURSE_SIZE];
    SubWindow(f.data, start, COURSE_SIZE, 4, 36);
    assert c == ParseCourse(w);
  }

  /** One enrollment record: student id, course id, year, semester. */
  method ReadEnrollment(f: FileStream) returns (e: Enrollment)
    requires f.Valid() && f.Remaining() >= ENROLLMENT_SIZE
    modifies f
    ensures f.Valid() && f.pos == old(f.pos) + ENROLLMENT_SIZE
    ensures e == EnrollmentAt(f.data, old(f.pos))
  {
    var studentId := f.ReadLittleEndian32();
    var courseId := f.ReadLittleEndian32();
    var year := f.ReadLittleEndian32();
    var semester := f.ReadLittleEndian32();
    e := Enrollment(studentId, courseId, year, semester);
  }

  /** One pass of the student loop: the next record read into slot `i`. */
  method ReadStudentInto(f: FileStream, students: array<Student>, ghost start: nat, i: nat)
    requires f.Valid() && f.pos == start + STUDENT_SIZE * i && f.Remaining() >= STUDENT_SIZE
    requires i < students.Length && students[..i] == StudentsAt(f.data, start, i)
    modifies f, students
    ensures f.Valid() && f.pos == old(f.pos) + STUDENT_SIZE
    ensures students[..] == old(students[..])[i := StudentAt(f.data, old(f.pos))]
    ensures students[..i + 1] == StudentsAt(f.data, start, i + 1)
  {
    ghost var read := students[..i];
    var s := ReadStudent(f);
    students[i] := s;
    assert students[..i + 1] == read + [s];
    StudentsAtStep(f.data, start, i, read, s);
  }

  /** The student loop: `n` records into a freshly allocated array, in file order. */
  method ReadStudents(f: FileStream, n: nat) returns (students: array<Student>)
    requires f.Valid() && f.Remaining() >= STUDENT_SIZE * n
    modifies f
    ensures fresh(students) && students.Length == n
    ensures f.Valid() && f.pos == old(f.pos) + STUDENT_SIZE * n
    ensures students[..] == StudentsAt(f.data, old(f.pos), n)
  {
    ghost var start := f.pos;
    students := new Student[n];
    var i := 0;
    while i < n
      invariant 0 <= i <= n
      invariant f.Valid() && f.pos == start + STUDENT_SIZE * i
      invariant start + STUDENT_SIZE * n <= |f.data|
      invariant students[..i] == StudentsAt(f.data, start, i)
    {
      MulStep(STUDENT_SIZE, i);
      ReadStudentInto(f, students, start, i);
      i := i + 1;
    }
    assert students[..] == students[..n];
  }

  /** One pass of the course loop: the next record read into slot `i`. */
  method ReadCourseInto(f: FileStream, courses: array<Course>, ghost start: nat, i: nat)
    requires f.Valid() && f.pos == start + COURSE_SIZE * i && f.Remaining() >= COURSE_SIZE
    requires i < courses.Length && courses[..i] == CoursesAt(f.data, start, i)
    modifies f, courses
    ensures f.Valid() && f.pos == old(f.pos) + COURSE_SIZE
    ensures courses[..] == old(courses[..])[i := CourseAt(f.data, old(f.pos))]
    ensures courses[..i + 1] == CoursesAt(f.data, start, i + 1)
  {
    ghost var read := courses[..i];
    var c := ReadCourse(f);
    courses[i] := c;
    assert courses[..i + 1] == read + [c];
    CoursesAtStep(f.data, start, i, read, c);
  }

  /** The course loop. */
  method ReadCourses(f: FileStream, n: nat) returns (courses: array<Course>)
    requires f.Valid() && f.Remaining() >= COURSE_SIZE * n
    modifies f
    ensures fresh(courses) && courses.Length == n
    ensures f.Valid() && f.pos == old(f.pos) + COURSE_SIZE * n
    ensures courses[..] == CoursesAt(f.data, old(f.pos), n)
  {
    ghost var start := f.pos;
    courses := new Course[n];
    var i := 0;
    while i < n
      invariant 0 <= i <= n
      invariant f.Valid() && f.pos == start + COURSE_SIZE * i
      invariant start + COURSE_SIZE * n <= |f.data|
      invariant courses[..i] == CoursesAt(f.data, start, i)
    {
      MulStep(COURSE_SIZE, i);
      ReadCourseInto(f, courses, start, i);
      i := i + 1;
    }
    assert courses[..] == courses[..n];
  }

  /** One pass of the enrollment loop: the next record read into slot `i`. */
  method ReadEnrollmentInto(f: FileStream, enrollments: array<Enrollment>, ghost start: nat, i: nat)
    requires f.Valid() && f.pos == start + ENROLLMENT_SIZE * i && f.Remaining() >= ENROLLMENT_SIZE
    requires i < enrollments.Length && enrollments[..i] == EnrollmentsAt(f.data, start, i)
    modifies f, enrollments
    ensures f.Valid() && f.pos == old(f.pos) + ENROLLMENT_SIZE
    ensures enrollments[..] == old(enrollments[..])[i := EnrollmentAt(f.data, old(f.pos))]
    ensures enrollments[..i + 1] == EnrollmentsAt(f.data, start, i + 1)
  {
    ghost var read := enrollments[..i];
    var e := ReadEnrollment(f);
    enrollments[i] := e;
    assert enrollments[..i + 1] == read + [e];
    EnrollmentsAtStep(f.data, start, i, read, e);
  }

  /** The enrollment loop. */
  method ReadEnrollments(f: FileStream, n: nat) returns (enrollments: array<Enrollment>)
    requires f.Valid() && f.Remaining() >= ENROLLMENT_SIZE * n
    modifies f
    ensures fresh(enrollments) && enrollments.Length == n
    ensures f.Valid() && f.pos == old(f.pos) + ENROLLMENT_SIZE * n
    ensures enrollments[..] == EnrollmentsAt(f.data, old(f.pos), n)
  {
    ghost var start := f.pos;
    enrollments := new Enrollment[n];
    var i := 0;
    while i < n
      invariant 0 <= i <= n
      invariant f.Valid() && f.pos == start + ENROLLMENT_SIZE * i
      invariant start + ENROLLMENT_SIZE * n <= |f.data|
      invariant enrollments[..i] == EnrollmentsAt(f.data, start, i)
    {
      MulStep(ENROLLMENT_SIZE, i);
      ReadEnrollmentInto(f, enrollments, start, i);
      i := i + 1;
    }
    assert enrollments[..] == enrollments[..n];
  }

  /** The three counts after a magic number that was accepted. */
  method ReadCounts(f: FileStream) returns (sc: u32, cc: u32, ec: u32)
    requires f.Valid() && f.pos == 2 && f.Remaining() >= 12
    modifies f
    ensures f.Valid() && f.pos == HEADER_SIZE
    ensures sc == LE32At(f.data, 2) && cc == LE32At(f.data, 6) && ec == LE32At(f.data, 10)
  {
    sc := f.ReadLittleEndian32();
    cc := f.ReadLittleEndian32();
    ec := f.ReadLittleEndian32();
  }

  /** The three section loops after the header, in the order students, courses,
      enrollments: together they read exactly the record sections the header announces. */
  method ReadSections(f: FileStream, h: Header)
    returns (students: array<Student>, courses: array<Course>, enrollments: array<Enrollment>)
    requires f.Valid() && f.pos == HEADER_SIZE && RosterSize(h) <= |f.data|
    modifies f
    ensures fresh(students) && fresh(courses) && fresh(enrollments)
    ensures f.Valid() && f.pos == RosterSize(h)
    ensures RecordsAt(f.data, h) == Roster(students[..], courses[..], enrollments[..])
  {
    students := ReadStudents(f, h.studentCount as nat);
    assert f.pos == CoursesOffset(h);
    courses := ReadCourses(f, h.courseCount as nat);
    assert f.pos == EnrollmentsOffset(h);
    enrollments := ReadEnrollments(f, h.enrollmentCount as nat);
  }

  /** The read of a whole roster file from its start. A wrong magic stops the read right
      after the two magic bytes; a file too short for the records its header announces is
      reported as truncated; otherwise the arrays hold exactly the decoded records and
      every byte up to the end of the last enrollment has been consumed. */
  method ReadRoster(f: FileStream)
    returns (outcome: Result<Header>, students: array<Student>, courses: array<Course>,
             enrollments: array<Enrollment>)
    requires f.Valid() && f.pos == 0
    modifies f
    ensures fresh(students) && fresh(courses) && fresh(enrollments)
    ensures f.Valid()
    ensures outcome.Ok? <==> DecodeRoster(f.data).Ok?
    ensures outcome.Err? ==> DecodeRoster(f.data) == Err(outcome.error)
    ensures outcome.Err? && outcome.error.BadMagic? ==> f.pos == 2
    ensures outcome.Ok? ==>
      && outcome.value == HeaderAt(f.data)
      && DecodeRoster(f.data).value == Roster(students[..], courses[..], enrollments[..])
      && f.pos == RosterSize(outcome.value)
  {
    students, courses, enrollments := new Student[0], new Course[0], new Enrollment[0];
    if f.Remaining() < 2 {
      return Err(Truncated), students, courses, enrollments;
    }
    var magic := f.ReadBigEndian16();
    if magic != MAGIC {
      return Err(BadMagic(magic)), students, courses, enrollments;
    }
    if f.Remaining() < 12 {
      return Err(Truncated), students, courses, enrollments;
    }
    var sc, cc, ec := ReadCounts(f);
    var h := Header(magic, sc, cc, ec);
    assert h == HeaderAt(f.data);
    if f.Remaining() < RosterSize(h) - HEADER_SIZE {
      return Err(Truncated), students, courses, enrollments;
    }
    students, courses, enrollments := ReadSections(f, h);
    DecodeRosterOk(f.data);
    outcome := Ok(h);
  }
}
