/** tarea1.c: the same student filter as edwin_rojas_tarea1.c, with two differences in how
    it reads. The 16- and 32-bit readers fill a small buffer with one `fread` and combine its
    bytes, and the student id is read by `fread` straight into a `uint32_t`, so it takes the
    host's byte order. The id is never printed, so the rows do not depend on the host. */
module NativeAgeFilter {
  import opened Bytes
  import opened FileStreams
  import Layout
  import Flags
  import AgeFilter

  /** A student record as this program reads it: the id in the host's byte order, the
      rest as the shared layout describes it. */
  function NativeStudentAt(host: Endianness, data: seq<byte>, off: nat): Layout.Student
    requires off + Layout.STUDENT_SIZE <= |data|
  {
    Layout.Student(Native32(host, data[off], data[off + 1], data[off + 2], data[off + 3]),
                   data[off + 4], Layout.NameBuffer(data[off + 5..off + 28]), Layout.LE32At(data, off + 28))
  }

  /** The record read with the host's order differs from the little-endian one at most in
      its id: on a little-endian host not at all, on a big-endian host by the id's bytes in
      reverse. Either way the printed row and the filter's verdict are the same. */
  lemma NativeStudentAgrees(host: Endianness, data: seq<byte>, off: nat)
    requires off + Layout.STUDENT_SIZE <= |data|
    ensures var s, t := NativeStudentAt(host, data, off), Layout.StudentAt(data, off);
      && s.flags == t.flags && s.name == t.name && s.age == t.age
      && (host == LittleEndian ==> s == t)
      && (host == BigEndian ==> s.id == LE32(data[off + 3], data[off + 2], data[off + 1], data[off]))
      && AgeFilter.RowOf(s) == AgeFilter.RowOf(t)
  {
    var w := data[off..off + Layout.STUDENT_SIZE];
    Layout.SubWindow(data, off, Layout.STUDENT_SIZE, 5, 28);
    assert Layout.LE32At(w, 28) == Layout.LE32At(data, off + 28);
  }

  /** The header read: the magic and both section counts are read and discarded. */
  method ReadHeader(f: FileStream) returns (studentCount: u32)
    requires f.Valid() && f.pos == 0 && f.Remaining() >= Layout.HEADER_SIZE
    modifies f
    ensures f.Valid() && f.pos == Layout.HEADER_SIZE
    ensures studentCount == Layout.HeaderAt(f.data).studentCount
  {
    var _ := f.ReadBigEndian16Buffered();
    studentCount := f.ReadLittleEndian32Buffered();
    var _ := f.ReadLittleEndian32Buffered();
    var _ := f.ReadLittleEndian32Buffered();
  }

  /** One student record: the id in host order, flags, the 23 name bytes into a 24-byte
      buffer ending in NUL, the age through the buffered little-endian reader. */
  method ReadStudent(f: FileStream, host: Endianness) returns (s: Layout.Student)
    requires f.Valid() && f.Remaining() >= Layout.STUDENT_SIZE
    modifies f
    ensures f.Valid() && f.pos == old(f.pos) + Layout.STUDENT_SIZE
    ensures s == NativeStudentAt(host, f.data, old(f.pos))
  {
    ghost var start := f.pos;
    var id := f.ReadNative32(host);
    var flags := f.ReadByte();
    var raw := f.ReadBytes(Layout.NAME_SIZE);
    var name := raw + [0];
    var age := f.ReadLittleEndian32Buffered();
    s := Layout.Student(id, flags, name, age);
  }

  /** The loop step: a student read in the host's order adds the same row, or none, as the
      little-endian read of its bytes. */
  lemma ReportStep(data: seq<byte>, host: Endianness, start: nat, i: nat, rows: seq<AgeFilter.Row>,
                   s: Layout.Student, rows': seq<AgeFilter.Row>, minAge: i32, maxAge: i32)
    requires start + Layout.STUDENT_SIZE * (i + 1) <= |data|
    requires rows == AgeFilter.Report(Layout.StudentsAt(data, start, i), minAge, maxAge)
    requires s == NativeStudentAt(host, data, start + Layout.STUDENT_SIZE * i)
    requires rows' == rows + (if AgeFilter.InAgeRange(s.age, minAge, maxAge) then [AgeFilter.RowOf(s)] else [])
    ensures rows' == AgeFilter.Report(Layout.StudentsAt(data, start, i + 1), minAge, maxAge)
  {
    var off := start + Layout.STUDENT_SIZE * i;
    NativeStudentAgrees(host, data, off);
    AgeFilter.ReportStep(data, start, i, rows, Layout.StudentAt(data, off), rows', minAge, maxAge);
  }

  /** One pass of the loop: read the next student and print its row when its age is in
      range. */
  method FilterStudent(f: FileStream, host: Endianness, ghost start: nat, ghost i: nat,
                      rows: seq<AgeFilter.Row>, minAge: i32, maxAge: i32)
    returns (rows': seq<AgeFilter.Row>)
    requires f.Valid() && f.pos == start + Layout.STUDENT_SIZE * i && f.Remaining() >= Layout.STUDENT_SIZE
    requires rows == AgeFilter.Report(Layout.StudentsAt(f.data, start, i), minAge, maxAge)
    modifies f
    ensures f.Valid() && f.pos == old(f.pos) + Layout.STUDENT_SIZE
    ensures rows' == AgeFilter.Report(Layout.StudentsAt(f.data, start, i + 1), minAge, maxAge)
  {
    var student := ReadStudent(f, host);
    rows' := rows;
    if student.age >= AgeFilter.ToUnsigned(minAge) && student.age <= AgeFilter.ToUnsigned(maxAge) {
      rows' := rows + [AgeFilter.Row(Layout.CString(student.name), student.age, Flags.GetGender(student.flags))];
    }
    ReportStep(f.data, host, start, i, rows, student, rows', minAge, maxAge);
  }

  /** The loop over the students, printing the rows whose age is in range. */
  method FilterStudents(f: FileStream, host: Endianness, count: nat, minAge: i32, maxAge: i32)
    returns (rows: seq<AgeFilter.Row>)
    requires f.Valid() && f.Remaining() >= Layout.STUDENT_SIZE * count
    modifies f
    ensures f.Valid() && f.pos == old(f.pos) + Layout.STUDENT_SIZE * count
    ensures rows == AgeFilter.Report(Layout.StudentsAt(f.data, old(f.pos), count), minAge, maxAge)
  {
    ghost var start := f.pos;
    rows := [];
    var i := 0;
    while i < count
      invariant i <= count
      invariant f.Valid() && f.pos == start + Layout.STUDENT_SIZE * i
      invariant start + Layout.STUDENT_SIZE * count <= |f.data|
      invariant rows == AgeFilter.Report(Layout.StudentsAt(f.data, start, i), minAge, maxAge)
    {
      Layout.MulStep(Layout.STUDENT_SIZE, i);
      rows := FilterStudent(f, host, start, i, rows, minAge, maxAge);
      i := i + 1;
    }
  }

  /** The whole program on the file's bytes, the host's byte order and the two bounds: on
      every host it has exactly the outcome of edwin_rojas_tarea1.c. */
  method Run(data: seq<byte>, host: Endianness, minAge: i32, maxAge: i32) returns (outcome: Layout.Result<seq<AgeFilter.Row>>)
    ensures AgeFilter.DecodeStudents(data).Err? ==> outcome == Layout.Err(AgeFilter.DecodeStudents(data).error)
    ensures AgeFilter.DecodeStudents(data).Ok? ==>
      outcome == Layout.Ok(AgeFilter.Report(AgeFilter.DecodeStudents(data).value, minAge, maxAge))
  {
    var f := new FileStream.Open(data);
    if f.Remaining() < Layout.HEADER_SIZE {
      return Layout.Err(Layout.Truncated);
    }
    var studentCount := ReadHeader(f);
    if f.Remaining() < Layout.STUDENT_SIZE * studentCount as nat {
      return Layout.Err(Layout.Truncated);
    }
    var rows := FilterStudents(f, host, studentCount as nat, minAge, maxAge);
    outcome := Layout.Ok(rows);
  }
}
