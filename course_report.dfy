/** The per-course table of task02.c and Edwin_Rojas_Tarea2.c: one line per course, in
    catalog order, carrying the course name and either the `int` total and the count from
    which the average age is printed, or the "No hay estudiantes" marker. */
module CourseReport {
  import opened Bytes
  import opened Layout

  datatype CourseLine =
    | NoStudents(name: seq<byte>)
    | Average(name: seq<byte>, totalAge: i32, count: nat)

  /** The branch on `student_count_in_course > 0`. The name is what `%s` prints of the
      course's name buffer. */
  function LineFor(c: Course, totalAge: i32, count: nat): (line: CourseLine)
    ensures line.name == CString(c.name)
    ensures line.NoStudents? <==> count == 0
    ensures line.Average? ==> line.totalAge == totalAge && line.count == count
  {
    if count > 0 then Average(CString(c.name), totalAge, count) else NoStudents(CString(c.name))
  }
}
