/** The binary roster format: a 14-byte header (magic, big-endian; then the student,
    course and enrollment counts, little-endian), followed without padding by the
    32-byte student records, the 40-byte course records and the 16-byte enrollment
    records. This module gives the decoded records, the value of each record read from
    a given offset, the whole-file decode, an encoder, and the round trips between them. */
module Layout {
  import opened Bytes

  const MAGIC: u16 := 0xAAAE
  const NAME_SIZE: nat := 23
  const COURSE_NAME_SIZE: nat := 32
  const HEADER_SIZE: nat := 14
  const STUDENT_SIZE: nat := 32
  const COURSE_SIZE: nat := 40
  const ENROLLMENT_SIZE: nat := 16

  /** Why a decode stops: a magic number other than `MAGIC` (with the value read),
      or fewer bytes than the records the header announces. */
  datatype DecodeError = BadMagic(observed: u16) | Truncated

  datatype Result<T> = Ok(value: T) | Err(error: DecodeError)

  datatype Header = Header(magic: u16, studentCount: u32, courseCount: u32, enrollmentCount: u32)

  /** `name` is the C buffer `char name[NAME_SIZE + 1]`. */
  datatype Student = Student(id: u32, flags: byte, name: seq<byte>, age: u32)

  /** `name` is the C buffer `char name[COURSE_NAME_SIZE + 1]`. */
  datatype Course = Course(id: u32, name: seq<byte>, creditHours: u32)

  datatype Enrollment = Enrollment(studentId: u32, courseId: u32, year: u32, semester: u32)

  datatype Roster = Roster(students: seq<Student>, courses: seq<Course>, enrollments: seq<Enrollment>)

  function LE32At(data: seq<byte>, off: nat): u32
    requires off + 4 <= |data|
  {
    LE32(data[off], data[off + 1], data[off + 2], data[off + 3])
  }

  /** A name field as the decoders leave it: the raw bytes copied verbatim into a buffer
      one byte longer, whose last slot is then forced to NUL. */
  function NameBuffer(raw: seq<byte>): (buf: seq<byte>)
    ensures |buf| == |raw| + 1 && buf[..|raw|] == raw && buf[|raw|] == 0
  {
    raw + [0]
  }

  /** The C string a name buffer holds: the bytes before its first NUL. */
  function CString(buf: seq<byte>): (s: seq<byte>)
    ensures |s| <= |buf| && s == buf[..|s|] && 0 !in s
    ensures |s| < |buf| ==> buf[|s|] == 0
  {
    if buf == [] || buf[0] == 0 then [] else [buf[0]] + CString(buf[1..])
  }

  function HeaderAt(data: seq<byte>): Header
    requires HEADER_SIZE <= |data|
  {
    Header(BE16(data[0], data[1]), LE32At(data, 2), LE32At(data, 6), LE32At(data, 10))
  }

  /** A student record's 32 bytes: id (LE), flags, 23 name bytes, age (LE). */
  function ParseStudent(w: seq<byte>): Student
    requires |w| == STUDENT_SIZE
  {
    Student(LE32At(w, 0), w[4], NameBuffer(w[5..28]), LE32At(w, 28))
  }

  /** A course record's 40 bytes: id (LE), 32 name bytes, credit hours (LE). */
  function ParseCourse(w: seq<byte>): Course
    requires |w| == COURSE_SIZE
  {
    Course(LE32At(w, 0), NameBuffer(w[4..36]), LE32At(w, 36))
  }

  /** An enrollment record's 16 bytes: student id, course id, year, semester, all LE. */
  function ParseEnrollment(w: seq<byte>): Enrollment
    requires |w| == ENROLLMENT_SIZE
  {
    Enrollment(LE32At(w, 0), LE32At(w, 4), LE32At(w, 8), LE32At(w, 12))
  }

  function StudentAt(data: seq<byte>, off: nat): Student
    requires off + STUDENT_SIZE <= |data|
  {
    ParseStudent(data[off..off + STUDENT_SIZE])
  }

  function CourseAt(data: seq<byte>, off: nat): Course
    requires off + COURSE_SIZE <= |data|
  {
    ParseCourse(data[off..off + COURSE_SIZE])
  }

  function EnrollmentAt(data: seq<byte>, off: nat): Enrollment
    requires off + ENROLLMENT_SIZE <= |data|
  {
    ParseEnrollment(data[off..off + ENROLLMENT_SIZE])
  }

  /** `n` records of `width` bytes each, read one after the other from `section`. */
  function Records<T>(section: seq<byte>, n: nat, width: nat, parse: seq<byte> --> T): (rs: seq<T>)
    requires |section| == width * n
    requires forall w: seq<byte> | |w| == width :: parse.requires(w)
    ensures |rs| == n
  {
    if n == 0 then []
    else
      MulStep(width, n - 1);
      var mid := width * (n - 1);
      Records(section[..mid], n - 1, width, parse) + [parse(section[mid..])]
  }

  lemma MulStep(w: nat, n: nat)
    ensures w * n + w == w * (n + 1)
  {
  }

  /** Reading one more record appends the record that follows the ones already read. */
  lemma RecordsSnoc<T>(data: seq<byte>, off: nat, n: nat, width: nat, parse: seq<byte> --> T)
    requires off + width * (n + 1) <= |data|
    requires forall w: seq<byte> | |w| == width :: parse.requires(w)
    ensures off + width * n + width == off + width * (n + 1)
    ensures Records(data[off..off + width * (n + 1)], n + 1, width, parse)
      == Records(data[off..off + width * n], n, width, parse) + [parse(data[off + width * n..off + width * n + width])]
  {
    MulStep(width, n);
    var section := data[off..off + width * (n + 1)];
    assert section[..width * n] == data[off..off + width * n];
    assert section[width * n..] == data[off + width * n..off + width * n + width];
  }

  /** `n` consecutive student records starting at `off`, in file order. */
  function StudentsAt(data: seq<byte>, off: nat, n: nat): seq<Student>
    requires off + STUDENT_SIZE * n <= |data|
  {
    Records(data[off..off + STUDENT_SIZE * n], n, STUDENT_SIZE, ParseStudent)
  }

  lemma StudentsAtSnoc(data: seq<byte>, off: nat, n: nat)
    requires off + STUDENT_SIZE * (n + 1) <= |data|
    ensures StudentsAt(data, off, n + 1) == StudentsAt(data, off, n) + [StudentAt(data, off + STUDENT_SIZE * n)]
  {
    RecordsSnoc(data, off, n, STUDENT_SIZE, ParseStudent);
  }

  lemma CoursesAtSnoc(data: seq<byte>, off: nat, n: nat)
    requires off + COURSE_SIZE * (n + 1) <= |data|
    ensures CoursesAt(data, off, n + 1) == CoursesAt(data, off, n) + [CourseAt(data, off + COURSE_SIZE * n)]
  {
    RecordsSnoc(data, off, n, COURSE_SIZE, ParseCourse);
  }

  lemma EnrollmentsAtSnoc(data: seq<byte>, off: nat, n: nat)
    requires off + ENROLLMENT_SIZE * (n + 1) <= |data|
    ensures EnrollmentsAt(data, off, n + 1) == EnrollmentsAt(data, off, n) + [EnrollmentAt(data, off + ENROLLMENT_SIZE * n)]
  {
    RecordsSnoc(data, off, n, ENROLLMENT_SIZE, ParseEnrollment);
  }

  /** The loop step of the student, course and enrollment reads: the records read so far
      followed by the next one are the records one further. */
  lemma StudentsAtStep(data: seq<byte>, off: nat, n: nat, read: seq<Student>, s: Student)
    requires off + STUDENT_SIZE * (n + 1) <= |data|
    requires read == StudentsAt(data, off, n) && s == StudentAt(data, off + STUDENT_SIZE * n)
    ensures read + [s] == StudentsAt(data, off, n + 1)
  {
    StudentsAtSnoc(data, off, n);
  }

  lemma CoursesAtStep(data: seq<byte>, off: nat, n: nat, read: seq<Course>, c: Course)
    requires off + COURSE_SIZE * (n + 1) <= |data|
    requires read == CoursesAt(data, off, n) && c == CourseAt(data, off + COURSE_SIZE * n)
    ensures read + [c] == CoursesAt(data, off, n + 1)
  {
    CoursesAtSnoc(data, off, n);
  }

  lemma EnrollmentsAtStep(data: seq<byte>, off: nat, n: nat, read: seq<Enrollment>, e: Enrollment)
    requires off + ENROLLMENT_SIZE * (n + 1) <= |data|
    requires read == EnrollmentsAt(data, off, n) && e == EnrollmentAt(data, off + ENROLLMENT_SIZE * n)
    ensures read + [e] == EnrollmentsAt(data, off, n + 1)
  {
    EnrollmentsAtSnoc(data, off, n);
  }

  function CoursesAt(data: seq<byte>, off: nat, n: nat): seq<Course>
    requires off + COURSE_SIZE * n <= |data|
  {
    Records(data[off..off + COURSE_SIZE * n], n, COURSE_SIZE, ParseCourse)
  }

  function EnrollmentsAt(data: seq<byte>, off: nat, n: nat): seq<Enrollment>
    requires off + ENROLLMENT_SIZE * n <= |data|
  {
    Records(data[off..off + ENROLLMENT_SIZE * n], n, ENROLLMENT_SIZE, ParseEnrollment)
  }

  /** The number of bytes a well-formed file with header `h` occupies. */
  function RosterSize(h: Header): nat
  {
    EnrollmentsOffset(h) + ENROLLMENT_SIZE * h.enrollmentCount as nat
  }

  /** The three record sections a file with header `h` holds after its header. */
  function RecordsAt(data: seq<byte>, h: Header): Roster
    requires RosterSize(h) <= |data|
  {
    Roster(StudentsAt(data, HEADER_SIZE, h.studentCount as nat),
           CoursesAt(data, CoursesOffset(h), h.courseCount as nat),
           EnrollmentsAt(data, EnrollmentsOffset(h), h.enrollmentCount as nat))
  }

  /** The whole-file decode shared by task02.c and Edwin_Rojas_Tarea2.c: check the magic,
      read the three counts, then exactly that many records of each kind, in the order
      students, courses, enrollments. */
  function DecodeRoster(data: seq<byte>): Result<Roster>
  {
    if |data| < 2 then Err(Truncated)
    else if BE16(data[0], data[1]) != MAGIC then Err(BadMagic(BE16(data[0], data[1])))
    else if |data| < HEADER_SIZE then Err(Truncated)
    else if |data| < RosterSize(HeaderAt(data)) then Err(Truncated)
    else Ok(RecordsAt(data, HeaderAt(data)))
  }

  /** A magic number other than `MAGIC` stops the decode before anything else is read:
      the result depends on the first two bytes alone. */
  lemma BadMagicStopsDecode(data: seq<byte>, rest: seq<byte>)
    requires |data| >= 2 && BE16(data[0], data[1]) != MAGIC
    ensures DecodeRoster(data) == DecodeRoster(data[..2] + rest) == Err(BadMagic(BE16(data[0], data[1])))
  {
    var other := data[..2] + rest;
    assert other[0] == data[0] && other[1] == data[1];
  }

  /** Agreement on a range implies agreement on every range inside it. */
  lemma SliceOfSlice(a: seq<byte>, b: seq<byte>, lo: nat, hi: nat, lo': nat, hi': nat)
    requires lo <= lo' <= hi' <= hi <= |a| && hi <= |b| && a[lo..hi] == b[lo..hi]
    ensures a[lo'..hi'] == b[lo'..hi']
  {
    forall k | 0 <= k < hi' - lo' ensures a[lo'..hi'][k] == b[lo'..hi'][k] {
      assert a[lo'..hi'][k] == a[lo..hi][lo' - lo + k];
      assert b[lo'..hi'][k] == b[lo..hi][lo' - lo + k];
    }
  }

  /** A field inside a record window is the same bytes as the field at its file offset. */
  lemma SubWindow(data: seq<byte>, off: nat, width: nat, lo: nat, hi: nat)
    requires lo <= hi <= width && off + width <= |data|
    ensures data[off..off + width][lo..hi] == data[off + lo..off + hi]
  {
    var w := data[off..off + width];
    forall k | 0 <= k < hi - lo ensures w[lo..hi][k] == data[off + lo..off + hi][k] {
      assert w[lo..hi][k] == w[lo + k];
      assert w[lo + k] == data[off + lo + k];
      assert data[off + lo..off + hi][k] == data[off + lo + k];
    }
  }

  /** The offsets of the course and enrollment sections of a file with header `h`. */
  function CoursesOffset(h: Header): nat
  {
    HEADER_SIZE + STUDENT_SIZE * h.studentCount as nat
  }

  function EnrollmentsOffset(h: Header): nat
  {
    CoursesOffset(h) + COURSE_SIZE * h.courseCount as nat
  }

  /** The record sections depend only on the bytes up to the end of the last record. */
  lemma RecordsFrame(a: seq<byte>, b: seq<byte>, h: Header)
    requires RosterSize(h) <= |a| && RosterSize(h) <= |b|
    requires a[..RosterSize(h)] == b[..RosterSize(h)]
    ensures RecordsAt(a, h) == RecordsAt(b, h)
  {
    var size := RosterSize(h);
    SliceOfSlice(a, b, 0, size, HEADER_SIZE, CoursesOffset(h));
    SliceOfSlice(a, b, 0, size, CoursesOffset(h), EnrollmentsOffset(h));
    SliceOfSlice(a, b, 0, size, EnrollmentsOffset(h), size);
    SectionFrame(a, b, HEADER_SIZE, CoursesOffset(h));
    SectionFrame(a, b, CoursesOffset(h), EnrollmentsOffset(h));
    SectionFrame(a, b, EnrollmentsOffset(h), size);
  }

  /** Equal ranges decode to equal record sequences, whatever the record kind. */
  lemma SectionFrame(a: seq<byte>, b: seq<byte>, lo: nat, hi: nat)
    requires lo <= hi <= |a| && hi <= |b| && a[lo..hi] == b[lo..hi]
    ensures forall n: nat | lo + STUDENT_SIZE * n == hi :: StudentsAt(a, lo, n) == StudentsAt(b, lo, n)
    ensures forall n: nat | lo + COURSE_SIZE * n == hi :: CoursesAt(a, lo, n) == CoursesAt(b, lo, n)
    ensures forall n: nat | lo + ENROLLMENT_SIZE * n == hi :: EnrollmentsAt(a, lo, n) == EnrollmentsAt(b, lo, n)
  {
  }

  /** Bytes after the last enrollment record are never looked at. */
  lemma DecodeIgnoresTrailingBytes(data: seq<byte>, rest: seq<byte>)
    requires DecodeRoster(data).Ok?
    ensures DecodeRoster(data + rest) == DecodeRoster(data)
  {
    var longer := data + rest;
    var h := HeaderAt(data);
    var size := RosterSize(h);
    assert longer[..size] == data[..size];
    SameHeader(longer, data);
    DecodeRosterOk(data);
    DecodeRosterOk(longer);
    RecordsFrame(longer, data, h);
  }

  /** Two files whose first 14 bytes agree have the same header. */
  lemma SameHeader(a: seq<byte>, b: seq<byte>)
    requires HEADER_SIZE <= |a| && HEADER_SIZE <= |b| && a[..HEADER_SIZE] == b[..HEADER_SIZE]
    ensures HeaderAt(a) == HeaderAt(b)
  {
    assert forall i | 0 <= i < HEADER_SIZE :: a[i] == a[..HEADER_SIZE][i];
    assert forall i | 0 <= i < HEADER_SIZE :: b[i] == b[..HEADER_SIZE][i];
  }

  // Encoding: the inverse of the decoders, for rosters whose names are NUL-terminated.

  /** A name buffer of capacity `size` (plus terminator) is well formed when it ends in NUL. */
  predicate WellFormedName(buf: seq<byte>, size: nat)
  {
    |buf| == size + 1 && buf[size] == 0
  }

  predicate WellFormedStudent(s: Student)
  {
    WellFormedName(s.name, NAME_SIZE)
  }

  predicate WellFormedCourse(c: Course)
  {
    WellFormedName(c.name, COURSE_NAME_SIZE)
  }

  /** The first `size` bytes of a name buffer, padded with NUL bytes when it is shorter. */
  function NameField(buf: seq<byte>, size: nat): (f: seq<byte>)
    ensures |f| == size
    ensures WellFormedName(buf, size) ==> f == buf[..size]
  {
    if |buf| >= size then buf[..size] else buf + seq(size - |buf|, _ => 0)
  }

  function EncodeStudent(s: Student): (w: seq<byte>)
    ensures |w| == STUDENT_SIZE
  {
    EncodeLE32(s.id) + [s.flags] + NameField(s.name, NAME_SIZE) + EncodeLE32(s.age)
  }

  function EncodeCourse(c: Course): (w: seq<byte>)
    ensures |w| == COURSE_SIZE
  {
    EncodeLE32(c.id) + NameField(c.name, COURSE_NAME_SIZE) + EncodeLE32(c.creditHours)
  }

  function EncodeEnrollment(e: Enrollment): (w: seq<byte>)
    ensures |w| == ENROLLMENT_SIZE
  {
    EncodeLE32(e.studentId) + EncodeLE32(e.courseId) + EncodeLE32(e.year) + EncodeLE32(e.semester)
  }

  /** Decoding an encoded student gives the student back. */
  lemma StudentRoundTrip(s: Student)
    requires WellFormedStudent(s)
    ensures ParseStudent(EncodeStudent(s)) == s
  {
    var w := EncodeStudent(s);
    assert w[0..4] == EncodeLE32(s.id) && w[28..32] == EncodeLE32(s.age);
    assert w[5..28] == s.name[..NAME_SIZE];
    assert NameBuffer(w[5..28]) == s.name;
  }

  /** Encoding a decoded student gives its 32 bytes back: no byte of the record is lost
      except that the name's terminator slot is not stored. */
  lemma StudentBytesRoundTrip(w: seq<byte>)
    requires |w| == STUDENT_SIZE
    ensures EncodeStudent(ParseStudent(w)) == w
  {
    var s := ParseStudent(w);
    LE32AtInverse(w, 0);
    LE32AtInverse(w, 28);
    assert NameField(s.name, NAME_SIZE) == w[5..28];
    assert EncodeStudent(s) == w[0..4] + [w[4]] + w[5..28] + w[28..32];
    assert w == w[0..4] + [w[4]] + w[5..28] + w[28..32];
  }

  /** Re-encoding a little-endian field reproduces its four bytes. */
  lemma LE32AtInverse(w: seq<byte>, off: nat)
    requires off + 4 <= |w|
    ensures EncodeLE32(LE32At(w, off)) == w[off..off + 4]
  {
    LE32Injective(w[off], w[off + 1], w[off + 2], w[off + 3]);
  }

  lemma CourseRoundTrip(c: Course)
    requires WellFormedCourse(c)
    ensures ParseCourse(EncodeCourse(c)) == c
  {
    var w := EncodeCourse(c);
    assert w[0..4] == EncodeLE32(c.id) && w[36..40] == EncodeLE32(c.creditHours);
    assert w[4..36] == c.name[..COURSE_NAME_SIZE];
    assert NameBuffer(w[4..36]) == c.name;
  }

  lemma CourseBytesRoundTrip(w: seq<byte>)
    requires |w| == COURSE_SIZE
    ensures EncodeCourse(ParseCourse(w)) == w
  {
    var c := ParseCourse(w);
    LE32AtInverse(w, 0);
    LE32AtInverse(w, 36);
    assert NameField(c.name, COURSE_NAME_SIZE) == w[4..36];
    assert EncodeCourse(c) == w[0..4] + w[4..36] + w[36..40];
    assert w == w[0..4] + w[4..36] + w[36..40];
  }

  lemma EnrollmentRoundTrip(e: Enrollment)
    ensures ParseEnrollment(EncodeEnrollment(e)) == e
  {
    var w := EncodeEnrollment(e);
    assert w[0..4] == EncodeLE32(e.studentId) && w[4..8] == EncodeLE32(e.courseId);
    assert w[8..12] == EncodeLE32(e.year) && w[12..16] == EncodeLE32(e.semester);
  }

  lemma EnrollmentBytesRoundTrip(w: seq<byte>)
    requires |w| == ENROLLMENT_SIZE
    ensures EncodeEnrollment(ParseEnrollment(w)) == w
  {
    var e := ParseEnrollment(w);
    LE32AtInverse(w, 0);
    LE32AtInverse(w, 4);
    LE32AtInverse(w, 8);
    LE32AtInverse(w, 12);
    assert EncodeEnrollment(e) == w[0..4] + w[4..8] + w[8..12] + w[12..16];
    assert w == w[0..4] + w[4..8] + w[8..12] + w[12..16];
  }

  /** The encodings of `xs`, one after the other. */
  function Concat<T>(xs: seq<T>, enc: T -> seq<byte>): seq<byte>
    decreases |xs|
  {
    if xs == [] then [] else Concat(xs[..|xs| - 1], enc) + enc(xs[|xs| - 1])
  }

  /** With fixed-width encodings the concatenation has `w` bytes per item. */
  lemma {:induction false} ConcatLength<T>(xs: seq<T>, enc: T -> seq<byte>, w: nat)
    requires forall x :: |enc(x)| == w
    ensures |Concat(xs, enc)| == w * |xs|
  {
    if xs != [] {
      ConcatLength(xs[..|xs| - 1], enc, w);
      MulStep(w, |xs| - 1);
    }
  }

  /** Splitting a range whose bytes are the concatenation `x + y` at the end of `x`. */
  lemma SplitRange(data: seq<byte>, lo: nat, mid: nat, hi: nat, x: seq<byte>, y: seq<byte>)
    requires lo <= mid <= hi <= |data| && |x| == mid - lo
    requires data[lo..hi] == x + y
    ensures data[lo..mid] == x && data[mid..hi] == y
  {
    assert data[lo..mid] == data[lo..hi][..mid - lo];
    assert data[mid..hi] == data[lo..hi][mid - lo..];
  }

  /** Decoding the concatenated encodings of `xs` gives `xs` back, when decoding undoes
      encoding on each item. */
  lemma {:induction false} RecordsOfConcat<T>(xs: seq<T>, width: nat, parse: seq<byte> --> T, enc: T -> seq<byte>)
    requires forall w: seq<byte> | |w| == width :: parse.requires(w)
    requires forall x :: |enc(x)| == width
    requires forall x <- xs :: parse(enc(x)) == x
    ensures |Concat(xs, enc)| == width * |xs|
    ensures Records(Concat(xs, enc), |xs|, width, parse) == xs
  {
    ConcatLength(xs, enc, width);
    if xs != [] {
      var n := |xs| - 1;
      var init, last := xs[..n], xs[n];
      ConcatLength(init, enc, width);
      var whole := Concat(xs, enc);
      assert whole == Concat(init, enc) + enc(last);
      assert whole[..width * n] == Concat(init, enc);
      assert whole[width * n..] == enc(last);
      assert forall x <- init :: parse(enc(x)) == x;
      RecordsOfConcat(init, width, parse, enc);
      assert xs == init + [last];
    }
  }

  /** Encoding the records decoded from a section gives the section back, when encoding
      undoes decoding on every record-sized window. */
  lemma {:induction false} ConcatOfRecords<T>(section: seq<byte>, n: nat, width: nat, parse: seq<byte> --> T, enc: T -> seq<byte>)
    requires |section| == width * n
    requires forall w: seq<byte> | |w| == width :: parse.requires(w)
    requires forall w: seq<byte> | |w| == width :: enc(parse(w)) == w
    ensures Concat(Records(section, n, width, parse), enc) == section
  {
    if n > 0 {
      MulStep(width, n - 1);
      var mid := width * (n - 1);
      var rs := Records(section, n, width, parse);
      var front := Records(section[..mid], n - 1, width, parse);
      var last := section[mid..];
      assert rs == front + [parse(last)];
      assert rs[..n - 1] == front && rs[n - 1] == parse(last);
      ConcatOfRecords(section[..mid], n - 1, width, parse, enc);
      assert Concat(rs, enc) == Concat(front, enc) + enc(parse(last));
      assert enc(parse(last)) == last;
      assert section == section[..mid] + last;
    }
  }

  /** A property every record-sized window decodes to holds of every decoded record. */
  lemma {:induction false} RecordsSatisfy<T>(section: seq<byte>, n: nat, width: nat, parse: seq<byte> --> T, p: T -> bool)
    requires |section| == width * n
    requires forall w: seq<byte> | |w| == width :: parse.requires(w)
    requires forall w: seq<byte> | |w| == width :: p(parse(w))
    ensures forall x <- Records(section, n, width, parse) :: p(x)
  {
    if n > 0 {
      MulStep(width, n - 1);
      RecordsSatisfy(section[..width * (n - 1)], n - 1, width, parse, p);
    }
  }

  /** Two parsers whose results on every record-sized window are related give runs of
      records related position by position. */
  lemma {:induction false} RecordsRelated<T, U>(section: seq<byte>, n: nat, width: nat,
                                                parse: seq<byte> --> T, parse': seq<byte> --> U, rel: (T, U) -> bool)
    requires |section| == width * n
    requires forall w: seq<byte> | |w| == width :: parse.requires(w)
    requires forall w: seq<byte> | |w| == width :: parse'.requires(w)
    requires forall w: seq<byte> | |w| == width :: rel(parse(w), parse'(w))
    ensures forall k | 0 <= k < n :: rel(Records(section, n, width, parse)[k], Records(section, n, width, parse')[k])
  {
    if n > 0 {
      MulStep(width, n - 1);
      RecordsRelated(section[..width * (n - 1)], n - 1, width, parse, parse', rel);
    }
  }

  /** Each record kind's section round trips, in both directions. */
  lemma StudentsOfEncoding(ss: seq<Student>)
    requires forall x <- ss :: WellFormedStudent(x)
    ensures |Concat(ss, EncodeStudent)| == STUDENT_SIZE * |ss|
    ensures Records(Concat(ss, EncodeStudent), |ss|, STUDENT_SIZE, ParseStudent) == ss
  {
    forall x <- ss ensures ParseStudent(EncodeStudent(x)) == x {
      StudentRoundTrip(x);
    }
    RecordsOfConcat(ss, STUDENT_SIZE, ParseStudent, EncodeStudent);
  }

  lemma EncodingOfStudents(section: seq<byte>, n: nat)
    requires |section| == STUDENT_SIZE * n
    ensures Concat(Records(section, n, STUDENT_SIZE, ParseStudent), EncodeStudent) == section
  {
    forall w: seq<byte> | |w| == STUDENT_SIZE ensures EncodeStudent(ParseStudent(w)) == w {
      StudentBytesRoundTrip(w);
    }
    ConcatOfRecords(section, n, STUDENT_SIZE, ParseStudent, EncodeStudent);
  }

  lemma CoursesOfEncoding(cs: seq<Course>)
    requires forall x <- cs :: WellFormedCourse(x)
    ensures |Concat(cs, EncodeCourse)| == COURSE_SIZE * |cs|
    ensures Records(Concat(cs, EncodeCourse), |cs|, COURSE_SIZE, ParseCourse) == cs
  {
    forall x <- cs ensures ParseCourse(EncodeCourse(x)) == x {
      CourseRoundTrip(x);
    }
    RecordsOfConcat(cs, COURSE_SIZE, ParseCourse, EncodeCourse);
  }

  lemma EncodingOfCourses(section: seq<byte>, n: nat)
    requires |section| == COURSE_SIZE * n
    ensures Concat(Records(section, n, COURSE_SIZE, ParseCourse), EncodeCourse) == section
  {
    forall w: seq<byte> | |w| == COURSE_SIZE ensures EncodeCourse(ParseCourse(w)) == w {
      CourseBytesRoundTrip(w);
    }
    ConcatOfRecords(section, n, COURSE_SIZE, ParseCourse, EncodeCourse);
  }

  lemma EnrollmentsOfEncoding(es: seq<Enrollment>)
    ensures |Concat(es, EncodeEnrollment)| == ENROLLMENT_SIZE * |es|
    ensures Records(Concat(es, EncodeEnrollment), |es|, ENROLLMENT_SIZE, ParseEnrollment) == es
  {
    forall x <- es ensures ParseEnrollment(EncodeEnrollment(x)) == x {
      EnrollmentRoundTrip(x);
    }
    RecordsOfConcat(es, ENROLLMENT_SIZE, ParseEnrollment, EncodeEnrollment);
  }

  lemma EncodingOfEnrollments(section: seq<byte>, n: nat)
    requires |section| == ENROLLMENT_SIZE * n
    ensures Concat(Records(section, n, ENROLLMENT_SIZE, ParseEnrollment), EncodeEnrollment) == section
  {
    forall w: seq<byte> | |w| == ENROLLMENT_SIZE ensures EncodeEnrollment(ParseEnrollment(w)) == w {
      EnrollmentBytesRoundTrip(w);
    }
    ConcatOfRecords(section, n, ENROLLMENT_SIZE, ParseEnrollment, EncodeEnrollment);
  }

  /** A roster the file format can hold: counts that fit the header's 32-bit fields and
      NUL-terminated names. */
  predicate WellFormedRoster(r: Roster)
  {
    |r.students| < 0x1_0000_0000 && |r.courses| < 0x1_0000_0000 && |r.enrollments| < 0x1_0000_0000
    && (forall x <- r.students :: WellFormedStudent(x))
    && (forall x <- r.courses :: WellFormedCourse(x))
  }

  function EncodeHeader(h: Header): (bs: seq<byte>)
    ensures |bs| == HEADER_SIZE
  {
    EncodeBE16(h.magic) + EncodeLE32(h.studentCount) + EncodeLE32(h.courseCount) + EncodeLE32(h.enrollmentCount)
  }

  /** The header a roster is written with. */
  function HeaderOf(r: Roster): Header
    requires WellFormedRoster(r)
  {
    Header(MAGIC, |r.students| as u32, |r.courses| as u32, |r.enrollments| as u32)
  }

  /** The file that holds `r`: header, then the students, courses and enrollments. */
  function EncodeRoster(r: Roster): seq<byte>
    requires WellFormedRoster(r)
  {
    EncodeHeader(HeaderOf(r)) + Concat(r.students, EncodeStudent) + Concat(r.courses, EncodeCourse)
      + Concat(r.enrollments, EncodeEnrollment)
  }

  /** A header is read back as written. */
  lemma HeaderRoundTrip(data: seq<byte>, h: Header)
    requires HEADER_SIZE <= |data| && data[..HEADER_SIZE] == EncodeHeader(h)
    ensures HeaderAt(data) == h
  {
    var e := EncodeHeader(h);
    assert e[0..2] == EncodeBE16(h.magic);
    assert e[2..6] == EncodeLE32(h.studentCount);
    assert e[6..10] == EncodeLE32(h.courseCount);
    assert e[10..14] == EncodeLE32(h.enrollmentCount);
    assert data[0] == e[0] && data[1] == e[1];
    assert LE32At(data, 2) == LE32(e[2], e[3], e[4], e[5]);
    assert LE32At(data, 6) == LE32(e[6], e[7], e[8], e[9]);
    assert LE32At(data, 10) == LE32(e[10], e[11], e[12], e[13]);
  }

  /** A file laid out as a header with the right magic followed by three sections of
      the sizes it announces decodes to the records of those sections. */
  lemma DecodeOfLayout(data: seq<byte>, h: Header, sb: seq<byte>, cb: seq<byte>, eb: seq<byte>)
    requires h.magic == MAGIC
    requires |sb| == STUDENT_SIZE * h.studentCount as nat && |cb| == COURSE_SIZE * h.courseCount as nat
    requires |eb| == ENROLLMENT_SIZE * h.enrollmentCount as nat
    requires data == EncodeHeader(h) + sb + cb + eb
    ensures DecodeRoster(data) == Ok(Roster(Records(sb, h.studentCount as nat, STUDENT_SIZE, ParseStudent),
      Records(cb, h.courseCount as nat, COURSE_SIZE, ParseCourse),
      Records(eb, h.enrollmentCount as nat, ENROLLMENT_SIZE, ParseEnrollment)))
  {
    var hb := EncodeHeader(h);
    SplitFour(data, hb, sb, cb, eb);
    SectionsAt(data, h, sb, cb, eb);
    HeaderRoundTrip(data, h);
    DecodeRosterOk(data);
  }

  /** The decode succeeds once the magic is right and all announced records are present. */
  lemma DecodeRosterOk(data: seq<byte>)
    requires HEADER_SIZE <= |data| && HeaderAt(data).magic == MAGIC
    requires RosterSize(HeaderAt(data)) <= |data|
    ensures DecodeRoster(data) == Ok(RecordsAt(data, HeaderAt(data)))
  {
  }

  /** The record sections of a file are decoded from its three slices after the header. */
  lemma SectionsAt(data: seq<byte>, h: Header, sb: seq<byte>, cb: seq<byte>, eb: seq<byte>)
    requires RosterSize(h) <= |data|
    requires data[HEADER_SIZE..CoursesOffset(h)] == sb
    requires data[CoursesOffset(h)..EnrollmentsOffset(h)] == cb
    requires data[EnrollmentsOffset(h)..RosterSize(h)] == eb
    ensures RecordsAt(data, h) == Roster(Records(sb, h.studentCount as nat, STUDENT_SIZE, ParseStudent),
      Records(cb, h.courseCount as nat, COURSE_SIZE, ParseCourse),
      Records(eb, h.enrollmentCount as nat, ENROLLMENT_SIZE, ParseEnrollment))
  {
    StudentSectionAt(data, h, sb);
    CourseSectionAt(data, h, cb);
    EnrollmentSectionAt(data, h, eb);
  }

  lemma StudentSectionAt(data: seq<byte>, h: Header, sb: seq<byte>)
    requires RosterSize(h) <= |data| && data[HEADER_SIZE..CoursesOffset(h)] == sb
    ensures RecordsAt(data, h).students == Records(sb, h.studentCount as nat, STUDENT_SIZE, ParseStudent)
  {
  }

  lemma CourseSectionAt(data: seq<byte>, h: Header, cb: seq<byte>)
    requires RosterSize(h) <= |data| && data[CoursesOffset(h)..EnrollmentsOffset(h)] == cb
    ensures RecordsAt(data, h).courses == Records(cb, h.courseCount as nat, COURSE_SIZE, ParseCourse)
  {
  }

  lemma EnrollmentSectionAt(data: seq<byte>, h: Header, eb: seq<byte>)
    requires RosterSize(h) <= |data| && data[EnrollmentsOffset(h)..RosterSize(h)] == eb
    ensures RecordsAt(data, h).enrollments == Records(eb, h.enrollmentCount as nat, ENROLLMENT_SIZE, ParseEnrollment)
  {
  }

  /** The four parts of a concatenation are its slices at the parts' boundaries. */
  lemma SplitFour(data: seq<byte>, a: seq<byte>, b: seq<byte>, c: seq<byte>, d: seq<byte>)
    requires data == a + b + c + d
    ensures data[..|a|] == a && data[|a|..|a| + |b|] == b
    ensures data[|a| + |b|..|a| + |b| + |c|] == c && data[|a| + |b| + |c|..] == d
  {
  }

  /** A prefix is the concatenation of its slices at any ascending cut points. */
  lemma JoinFour(data: seq<byte>, i: nat, j: nat, k: nat, n: nat)
    requires i <= j <= k <= n <= |data|
    ensures data[..n] == data[..i] + data[i..j] + data[j..k] + data[k..n]
  {
  }

  /** A file that decodes is, up to the end of its last record, a header followed by
      three sections that decode to the roster's records. */
  lemma LayoutOfDecode(data: seq<byte>)
    requires DecodeRoster(data).Ok?
    ensures var h := HeaderAt(data);
      var sb := data[HEADER_SIZE..CoursesOffset(h)];
      var cb := data[CoursesOffset(h)..EnrollmentsOffset(h)];
      var eb := data[EnrollmentsOffset(h)..RosterSize(h)];
      && h.magic == MAGIC
      && |sb| == STUDENT_SIZE * h.studentCount as nat && |cb| == COURSE_SIZE * h.courseCount as nat
      && |eb| == ENROLLMENT_SIZE * h.enrollmentCount as nat
      && data[..RosterSize(h)] == EncodeHeader(h) + sb + cb + eb
      && DecodeRoster(data).value == Roster(Records(sb, h.studentCount as nat, STUDENT_SIZE, ParseStudent),
           Records(cb, h.courseCount as nat, COURSE_SIZE, ParseCourse),
           Records(eb, h.enrollmentCount as nat, ENROLLMENT_SIZE, ParseEnrollment))
  {
    var h := HeaderAt(data);
    var size := RosterSize(h);
    var sb := data[HEADER_SIZE..CoursesOffset(h)];
    var cb := data[CoursesOffset(h)..EnrollmentsOffset(h)];
    var eb := data[EnrollmentsOffset(h)..size];
    HeaderBytesOf(data);
    JoinFour(data, HEADER_SIZE, CoursesOffset(h), EnrollmentsOffset(h), size);
    DecodeRosterOk(data);
    SectionsAt(data, h, sb, cb, eb);
  }

  /** Re-encoding a decoded header gives its 14 bytes back. */
  lemma HeaderBytesOf(data: seq<byte>)
    requires HEADER_SIZE <= |data|
    ensures EncodeHeader(HeaderAt(data)) == data[..HEADER_SIZE]
  {
    LE32AtInverse(data, 2);
    LE32AtInverse(data, 6);
    LE32AtInverse(data, 10);
    BE16Injective(data[0], data[1]);
    assert data[..HEADER_SIZE] == data[0..2] + data[2..6] + data[6..10] + data[10..14];
  }

  /** Decoding the file written for a roster gives that roster. */
  lemma DecodeEncodeRoster(r: Roster)
    requires WellFormedRoster(r)
    ensures DecodeRoster(EncodeRoster(r)) == Ok(r)
  {
    StudentsOfEncoding(r.students);
    CoursesOfEncoding(r.courses);
    EnrollmentsOfEncoding(r.enrollments);
    DecodeOfLayout(EncodeRoster(r), HeaderOf(r), Concat(r.students, EncodeStudent),
      Concat(r.courses, EncodeCourse), Concat(r.enrollments, EncodeEnrollment));
  }

  /** Re-encoding a decoded roster gives back every byte the decode read. */
  lemma EncodeDecodeRoster(data: seq<byte>)
    requires DecodeRoster(data).Ok?
    ensures WellFormedRoster(DecodeRoster(data).value)
    ensures EncodeRoster(DecodeRoster(data).value) == data[..RosterSize(HeaderAt(data))]
  {
    var h := HeaderAt(data);
    LayoutOfDecode(data);
    var sb := data[HEADER_SIZE..CoursesOffset(h)];
    var cb := data[CoursesOffset(h)..EnrollmentsOffset(h)];
    var eb := data[EnrollmentsOffset(h)..RosterSize(h)];
    var r := DecodeRoster(data).value;
    DecodedNamesWellFormed(h, sb, cb, eb, r);
    DecodedWellFormed(h, r);
    EncodeOfSections(h, sb, cb, eb, r);
  }

  /** Every roster decoded from sections of the announced sizes can be written back. */
  lemma DecodedWellFormed(h: Header, r: Roster)
    requires |r.students| == h.studentCount as nat && |r.courses| == h.courseCount as nat
    requires |r.enrollments| == h.enrollmentCount as nat
    requires forall x <- r.students :: WellFormedStudent(x)
    requires forall x <- r.courses :: WellFormedCourse(x)
    ensures WellFormedRoster(r) && HeaderOf(r) == Header(MAGIC, h.studentCount, h.courseCount, h.enrollmentCount)
  {
  }

  lemma DecodedNamesWellFormed(h: Header, sb: seq<byte>, cb: seq<byte>, eb: seq<byte>, r: Roster)
    requires |sb| == STUDENT_SIZE * h.studentCount as nat && |cb| == COURSE_SIZE * h.courseCount as nat
    requires |eb| == ENROLLMENT_SIZE * h.enrollmentCount as nat
    requires r == Roster(Records(sb, h.studentCount as nat, STUDENT_SIZE, ParseStudent),
      Records(cb, h.courseCount as nat, COURSE_SIZE, ParseCourse),
      Records(eb, h.enrollmentCount as nat, ENROLLMENT_SIZE, ParseEnrollment))
    ensures forall x <- r.students :: WellFormedStudent(x)
    ensures forall x <- r.courses :: WellFormedCourse(x)
  {
    ParsedStudentsWellFormed(sb, h.studentCount as nat);
    ParsedCoursesWellFormed(cb, h.courseCount as nat);
  }

  lemma ParsedStudentsWellFormed(sb: seq<byte>, n: nat)
    requires |sb| == STUDENT_SIZE * n
    ensures forall x <- Records(sb, n, STUDENT_SIZE, ParseStudent) :: WellFormedStudent(x)
  {
    forall w: seq<byte> | |w| == STUDENT_SIZE ensures WellFormedStudent(ParseStudent(w)) {
      assert ParseStudent(w).name == NameBuffer(w[5..28]);
    }
    RecordsSatisfy(sb, n, STUDENT_SIZE, ParseStudent, WellFormedStudent);
  }

  lemma ParsedCoursesWellFormed(cb: seq<byte>, n: nat)
    requires |cb| == COURSE_SIZE * n
    ensures forall x <- Records(cb, n, COURSE_SIZE, ParseCourse) :: WellFormedCourse(x)
  {
    forall w: seq<byte> | |w| == COURSE_SIZE ensures WellFormedCourse(ParseCourse(w)) {
      assert ParseCourse(w).name == NameBuffer(w[4..36]);
    }
    RecordsSatisfy(cb, n, COURSE_SIZE, ParseCourse, WellFormedCourse);
  }

  /** The roster decoded from three sections of the announced sizes is written back as
      the header followed by those same sections. */
  lemma EncodeOfSections(h: Header, sb: seq<byte>, cb: seq<byte>, eb: seq<byte>, r: Roster)
    requires h.magic == MAGIC
    requires |sb| == STUDENT_SIZE * h.studentCount as nat && |cb| == COURSE_SIZE * h.courseCount as nat
    requires |eb| == ENROLLMENT_SIZE * h.enrollmentCount as nat
    requires r == Roster(Records(sb, h.studentCount as nat, STUDENT_SIZE, ParseStudent),
      Records(cb, h.courseCount as nat, COURSE_SIZE, ParseCourse),
      Records(eb, h.enrollmentCount as nat, ENROLLMENT_SIZE, ParseEnrollment))
    requires WellFormedRoster(r)
    ensures EncodeRoster(r) == EncodeHeader(h) + sb + cb + eb
  {
    assert HeaderOf(r) == h;
    EncodingOfStudents(sb, h.studentCount as nat);
    EncodingOfCourses(cb, h.courseCount as nat);
    EncodingOfEnrollments(eb, h.enrollmentCount as nat);
  }
}
