/** edwin_rojas_tarea1.c: the header is read without checking the magic, then exactly
    `student_count` student records, and a row (name, age, gender label) is printed for
    every student whose age lies in the inclusive range given on the command line. The
    course and enrollment sections are never read. */
module AgeFilter {
  import opened Bytes
  import opened FileStreams
  import opened Flags
  import Layout
  import RecordReader

  /** One printed row: what `%s` shows of the name buffer, the age and the gender label. */
  datatype Row = Row(name: seq<byte>, age: u32, gender: string)

  /** The conversion of an `int` bound to `uint32_t` that C applies when it compares the
      bound with an unsigned age: the value modulo 2^32. */
  function ToUnsigned(x: i32): (u: u32)
    ensures u as int % 0x1_0000_0000 == x as int % 0x1_0000_0000
    ensures x >= 0 ==> u as int == x as int
    ensures x < 0 ==> u as int >= 0x8000_0000
  {
    if x < 0 then (x as int + 0x1_0000_0000) as u32 else x as u32
  }

  /** `student.age >= min_age && student.age <= max_age`, compared as unsigned. */
  predicate InAgeRange(age: u32, minAge: i32, maxAge: i32) {
    ToUnsigned(minAge) <= age <= ToUnsigned(maxAge)
  }

  /** With non-negative bounds the filter is the plain inclusive range. */
  lemma InAgeRangeNonNegative(age: u32, minAge: i32, maxAge: i32)
    requires minAge >= 0 && maxAge >= 0
    ensures InAgeRange(age, minAge, maxAge) <==> minAge as int <= age as int <= maxAge as int
  {
  }

  /** A negative minimum does not widen the range: it admits only ages of 2^31 and more,
      and a negative maximum with a non-negative minimum below 2^31 admits every age from
      the minimum up to the maximum's unsigned value. */
  lemma NegativeBounds(age: u32, minAge: i32, maxAge: i32)
    ensures minAge < 0 && InAgeRange(age, minAge, maxAge) ==> age as int >= 0x8000_0000
    ensures minAge >= 0 && maxAge < 0 ==>
      (InAgeRange(age, minAge, maxAge) <==> minAge as int <= age as int <= maxAge as int + 0x1_0000_0000)
  {
  }

  function RowOf(s: Layout.Student): Row {
    Row(Layout.CString(s.name), s.age, GetGender(s.flags))
  }

  /** The rows printed for the students `ss`, in decode order. */
  function Report(ss: seq<Layout.Student>, minAge: i32, maxAge: i32): (rows: seq<Row>)
    ensures |rows| <= |ss|
  {
    if ss == [] then []
    else
      var s := ss[|ss| - 1];
      Report(ss[..|ss| - 1], minAge, maxAge) + (if InAgeRange(s.age, minAge, maxAge) then [RowOf(s)] else [])
  }

  /** Appending a student appends its row exactly when its age is in range. */
  lemma ReportSnoc(ss: seq<Layout.Student>, s: Layout.Student, minAge: i32, maxAge: i32)
    ensures Report(ss + [s], minAge, maxAge)
      == Report(ss, minAge, maxAge) + (if InAgeRange(s.age, minAge, maxAge) then [RowOf(s)] else [])
  {
    assert (ss + [s])[..|ss|] == ss;
  }

  /** The loop step of the filters: the rows so far, plus the next student's row when its
      age is in range, are the rows of one student more. */
  lemma ReportStep(data: seq<byte>, start: nat, i: nat, rows: seq<Row>, t: Layout.Student,
                   rows': seq<Row>, minAge: i32, maxAge: i32)
    requires start + Layout.STUDENT_SIZE * (i + 1) <= |data|
    requires rows == Report(Layout.StudentsAt(data, start, i), minAge, maxAge)
    requires t == Layout.StudentAt(data, start + Layout.STUDENT_SIZE * i)
    requires rows' == rows + (if InAgeRange(t.age, minAge, maxAge) then [RowOf(t)] else [])
    ensures rows' == Report(Layout.StudentsAt(data, start, i + 1), minAge, maxAge)
  {
    Layout.StudentsAtSnoc(data, start, i);
    ReportSnoc(Layout.StudentsAt(data, start, i), t, minAge, maxAge);
  }

  /** The report of two runs of students is the first run's rows followed by the second's. */
  lemma {:induction false} ReportConcat(a: seq<Layout.Student>, b: seq<Layout.Student>, minAge: i32, maxAge: i32)
    ensures Report(a + b, minAge, maxAge) == Report(a, minAge, maxAge) + Report(b, minAge, maxAge)
    decreases |b|
  {
    if b == [] {
      assert a + b == a;
    } else {
      var b' := b[..|b| - 1];
      ReportConcat(a, b', minAge, maxAge);
      assert (a + b)[..|a + b| - 1] == a + b';
      assert (a + b)[|a + b| - 1] == b[|b| - 1];
    }
  }

  /** A row is printed exactly when some student in range has it. */
  lemma {:induction false} ReportMembers(ss: seq<Layout.Student>, minAge: i32, maxAge: i32, row: Row)
    ensures row in Report(ss, minAge, maxAge)
      <==> exists k | 0 <= k < |ss| :: InAgeRange(ss[k].age, minAge, maxAge) && row == RowOf(ss[k])
    decreases |ss|
  {
    if ss != [] {
      var n := |ss| - 1;
      ReportMembers(ss[..n], minAge, maxAge, row);
      assert forall k | 0 <= k < n :: ss[..n][k] == ss[k];
      if row in Report(ss, minAge, maxAge) && row !in Report(ss[..n], minAge, maxAge) {
        assert InAgeRange(ss[n].age, minAge, maxAge) && row == RowOf(ss[n]);
      }
    }
  }

  /** Every printed row has an age in range and the gender label of its student's flags. */
  lemma ReportRowsInRange(ss: seq<Layout.Student>, minAge: i32, maxAge: i32)
    ensures forall row <- Report(ss, minAge, maxAge) ::
      ToUnsigned(minAge) <= row.age <= ToUnsigned(maxAge) && (row.gender == "Femenino" || row.gender == "Masculino")
  {
    forall row <- Report(ss, minAge, maxAge)
      ensures ToUnsigned(minAge) <= row.age <= ToUnsigned(maxAge) && (row.gender == "Femenino" || row.gender == "Masculino")
    {
      ReportMembers(ss, minAge, maxAge, row);
    }
  }

  /** What the program reads: the header, whatever its magic, and the student section. */
  function DecodeStudents(data: seq<byte>): Layout.Result<seq<Layout.Student>> {
    if |data| < Layout.HEADER_SIZE then Layout.Err(Layout.Truncated)
    else
      var n := Layout.HeaderAt(data).studentCount as nat;
      if |data| < Layout.HEADER_SIZE + Layout.STUDENT_SIZE * n then Layout.Err(Layout.Truncated)
      else Layout.Ok(Layout.StudentsAt(data, Layout.HEADER_SIZE, n))
  }

  /** The magic bytes do not matter. */
  lemma MagicIgnored(data: seq<byte>, magic: seq<byte>)
    requires |data| >= 2 && |magic| == 2
    ensures DecodeStudents(magic + data[2..]) == DecodeStudents(data)
  {
    var other := magic + data[2..];
    assert |other| == |data|;
    if |data| >= Layout.HEADER_SIZE {
      assert other[2..] == data[2..];
      assert Layout.HeaderAt(other).studentCount == Layout.HeaderAt(data).studentCount by {
        assert other[2] == data[2] && other[3] == data[3] && other[4] == data[4] && other[5] == data[5];
      }
      var end := Layout.HEADER_SIZE + Layout.STUDENT_SIZE * Layout.HeaderAt(data).studentCount as nat;
      if end <= |data| {
        assert other[Layout.HEADER_SIZE..end] == data[Layout.HEADER_SIZE..end];
      }
    }
  }

  /** Nothing after the student section is read: the course and enrollment sections, and
      any other bytes after the students, do not matter. */
  lemma RestIgnored(data: seq<byte>, rest: seq<byte>)
    requires DecodeStudents(data).Ok?
    ensures DecodeStudents(data + rest) == DecodeStudents(data)
  {
    var n := Layout.HeaderAt(data).studentCount as nat;
    var end := Layout.HEADER_SIZE + Layout.STUDENT_SIZE * n;
    assert (data + rest)[..end] == data[..end];
    assert Layout.HeaderAt(data + rest) == Layout.HeaderAt(data) by {
      assert forall i | 0 <= i < Layout.HEADER_SIZE :: (data + rest)[i] == data[i];
    }
    assert (data + rest)[Layout.HEADER_SIZE..end] == data[Layout.HEADER_SIZE..end];
  }

  /** On a file the full roster decode accepts, the students read are the roster's. */
  lemma StudentsOfRoster(data: seq<byte>)
    requires Layout.DecodeRoster(data).Ok?
    ensures DecodeStudents(data) == Layout.Ok(Layout.DecodeRoster(data).value.students)
  {
    Layout.DecodeRosterOk(data);
  }

  /** The header read: the magic is read and not looked at, then the three counts. */
  method ReadHeader(f: FileStream) returns (h: Layout.Header)
    requires f.Valid() && f.pos == 0 && f.Remaining() >= Layout.HEADER_SIZE
    modifies f
    ensures f.Valid() && f.pos == Layout.HEADER_SIZE
    ensures h == Layout.HeaderAt(f.data)
  {
    var magic := f.ReadBigEndian16();
    var studentCount := f.ReadLittleEndian32();
    var courseCount := f.ReadLittleEndian32();
    var enrollmentCount := f.ReadLittleEndian32();
    h := Layout.Header(magic, studentCount, courseCount, enrollmentCount);
  }

  /** One pass of the loop: read the next student in full and print its row when its age
      is in range. */
  method FilterStudent(f: FileStream, ghost start: nat, ghost i: nat, rows: seq<Row>, minAge: i32, maxAge: i32)
    returns (rows': seq<Row>)
    requires f.Valid() && f.pos == start + Layout.STUDENT_SIZE * i && f.Remaining() >= Layout.STUDENT_SIZE
    requires rows == Report(Layout.StudentsAt(f.data, start, i), minAge, maxAge)
    modifies f
    ensures f.Valid() && f.pos == old(f.pos) + Layout.STUDENT_SIZE
    ensures rows' == Report(Layout.StudentsAt(f.data, start, i + 1), minAge, maxAge)
  {
    var student := RecordReader.ReadStudent(f);
    rows' := rows;
    if student.age >= ToUnsigned(minAge) && student.age <= ToUnsigned(maxAge) {
      rows' := rows + [Row(Layout.CString(student.name), student.age, GetGender(student.flags))];
    }
    ReportStep(f.data, start, i, rows, student, rows', minAge, maxAge);
  }

  /** The loop over the students: each record is read in full and printed when its age
      is in range. */
  method FilterStudents(f: FileStream, count: nat, minAge: i32, maxAge: i32) returns (rows: seq<Row>)
    requires f.Valid() && f.Remaining() >= Layout.STUDENT_SIZE * count
    modifies f
    ensures f.Valid() && f.pos == old(f.pos) + Layout.STUDENT_SIZE * count
    ensures rows == Report(Layout.StudentsAt(f.data, old(f.pos), count), minAge, maxAge)
  {
    ghost var start := f.pos;
    rows := [];
    var i := 0;
    while i < count
      invariant i <= count
      invariant f.Valid() && f.pos == start + Layout.STUDENT_SIZE * i
      invariant start + Layout.STUDENT_SIZE * count <= |f.data|
      invariant rows == Report(Layout.StudentsAt(f.data, start, i), minAge, maxAge)
    {
      Layout.MulStep(Layout.STUDENT_SIZE, i);
      rows := FilterStudent(f, start, i, rows, minAge, maxAge);
      i := i + 1;
    }
  }

  /** The whole program on the file's bytes and the two bounds: a file too short for its
      header or for the student section it announces is reported as truncated, otherwise
      the rows printed. */
  method Run(data: seq<byte>, minAge: i32, maxAge: i32) returns (outcome: Layout.Result<seq<Row>>)
    ensures DecodeStudents(data).Err? ==> outcome == Layout.Err(DecodeStudents(data).error)
    ensures DecodeStudents(data).Ok? ==> outcome == Layout.Ok(Report(DecodeStudents(data).value, minAge, maxAge))
  {
    var f := new FileStream.Open(data);
    if f.Remaining() < Layout.HEADER_SIZE {
      return Layout.Err(Layout.Truncated);
    }
    var h := ReadHeader(f);
    if f.Remaining() < Layout.STUDENT_SIZE * h.studentCount as nat {
      return Layout.Err(Layout.Truncated);
    }
    var rows := FilterStudents(f, h.studentCount as nat, minAge, maxAge);
    outcome := Layout.Ok(rows);
  }
}
