# Student roster decoder and reports, modelled in Dafny

Five small C programs read the same fixed-layout binary roster file:

- a 2-byte big-endian magic `0xAAAE`;
- three little-endian 32-bit counts;
- then that many student records (32 bytes: id, flags, a 23-byte name, age), course records (40 bytes: id, a 32-byte name, credit hours) and enrollment records (16 bytes: student id, course id, year, semester).

Each program computes one report from the file:

- `task02.c` and `Edwin_Rojas_Tarea2.c` compute the average age of the students enrolled in each course. The first joins by scanning the students. The second looks ages up in an array indexed by student id.
- `task03.c` counts enrollments per (year, semester) pair, split by gender and undergraduate/graduate.
- `edwin_rojas_tarea1.c` and `tarea1.c` list the students whose age lies in a given range.

The model is written in the programs' own form:

- The `FILE*` cursor is a class `FileStreams.FileStream` holding the file's bytes and a position that every read advances.
- The decode loops are methods that fill arrays. The join, aggregation and filter loops are methods with loop invariants.
- Every method is proved against a specification function of the inputs: `Layout.DecodeRoster` for the shared decoder, `Demographics.DecodeAsWritten` and `Demographics.Decode` for task03.c's read as written and corrected, and `ScanJoin.Report`, `AgeMapJoin.Report`, `Demographics.Tally` and `AgeFilter.Report` for the reports.
- The specification functions have their own properties proved as lemmas, among them round trips, frame properties, first-match and last-match characterisations, counts as set cardinalities, distinctness and first-seen order.

Modules:

- `Bytes`: byte and integer types and the byte-assembly expressions.
- `Flags`: the gender and graduate bits.
- `FileStreams`: the stream class and its readers.
- `Layout`: record layout, decoders, encoders and round trips.
- `RecordReader`: the imperative decode loops shared by `task02.c` and `Edwin_Rojas_Tarea2.c`.
- `CourseReport`: one line of the per-course table.
- `ScanJoin`: `task02.c`.
- `AgeMapJoin`: `Edwin_Rojas_Tarea2.c`.
- `Demographics`: `task03.c`.
- `AgeFilter`: `edwin_rojas_tarea1.c`.
- `NativeAgeFilter`: `tarea1.c`.

Where the code and the format description disagree, the model follows the code:

- **Dangling ids in `Edwin_Rojas_Tarea2.c`.** An enrollment whose student id matches no student is still counted. It adds whatever the map slot holds. The disagreement between the two joins is stated by `AgeMapJoin.MapCountVersusScan` and `AgeMapJoin.DanglingEnrollmentCounted`.
- **No magic check in the filters.** `edwin_rojas_tarea1.c` and `tarea1.c` read the magic but never check it (`AgeFilter.MagicIgnored`).
- **Wrapping totals.** `total_age` is an `int` to which `uint32_t` ages are added. Each `+=` is done in unsigned arithmetic modulo 2^32, and the result is converted back to `int`. That conversion is implementation-defined, and the model takes the two's-complement reading (`Bytes.ToInt32`). A single student of age 3000000000 is enough to make a course's total negative (`ScanJoin.LargeTotalWraps`).
- **Short files.** The C programs ignore short reads. The model checks up front that the file holds every byte each program will read, and otherwise returns `Truncated`.

## Model

| member | source | states |
|---|---|---|
| Bytes.BE16Bytes | task03.c:26-31 | The first byte read is the value's high byte and the second its low byte. |
| Bytes.LE32Bytes | task03.c:34-41 | The value's base-256 digits, least significant first, are the four bytes in the order read. |
| Bytes.BE16 | task03.c:26-31 | The 16-bit value of two bytes, the first one high: `b0 * 256 + b1`. Its byte-level facts are `Bytes.BE16Bytes`, `Bytes.EncodeBE16` and `Bytes.BE16Injective`. |
| Bytes.LE32 | task03.c:34-41 | The 32-bit value of four bytes, the first one low: `b0 + b1 * 2^8 + b2 * 2^16 + b3 * 2^24`. Its byte-level facts are `Bytes.LE32Bytes`, `Bytes.EncodeLE32` and `Bytes.LE32Injective`. |
| Bytes.ToInt32 | task02.c:121 | The `int` that `total_age += <uint32_t>` leaves: congruent to the exact value modulo 2^32, equal to it below 2^31, and the exact value minus 2^32 between 2^31 and 2^32. |
| Bytes.ToInt32Add | task02.c:113-121 | Adding to an already wrapped `int` total gives the wrap of the exact sum, so a loop of `+=` ends with the wrap of the exact total. |
| Bytes.BE32 | tarea1.c:55 | Four bytes assembled most significant first give the little-endian value of the reversed bytes. |
| Bytes.Native32 | tarea1.c:55 | A native `fread` of a `uint32_t` gives the little-endian value on a little-endian host and the value of the reversed bytes on a big-endian host. |
| Bytes.BE16ByShifts | task03.c:30 | `(byte1 << 8) \| byte2` equals `byte1 * 256 + byte2`. |
| Bytes.LE32ByShifts | task03.c:40 | The shift-and-OR expression equals `b0 + b1 * 2^8 + b2 * 2^16 + b3 * 2^24`. |
| Bytes.EncodeLE32 | task03.c:34-41 | Four bytes which the little-endian read turns back into the value. |
| Bytes.EncodeBE16 | task03.c:26-31 | Two bytes which the big-endian read turns back into the value. |
| Bytes.LE32Injective | task03.c:34-41 | Encoding the value assembled from four bytes gives the same four bytes back, so the read loses nothing. |
| Bytes.BE16Injective | task03.c:26-31 | Encoding the value assembled from two bytes gives the same two bytes back. |
| Flags.IsFemale | task03.c:44-46 | Holds exactly when bit 0x80 of the flags is set. |
| Flags.IsGraduate | task03.c:49-51 | Holds exactly when bit 0x40 of the flags is set. |
| Flags.GetGender | edwin_rojas_tarea1.c:35-37 | "Femenino" exactly when bit 0x80 is set, "Masculino" exactly when it is clear. |
| FileStreams.FileStream.Remaining | task02.c:59 | Position plus remaining bytes is the file's length. |
| FileStreams.FileStream.Open | task02.c:59 | An opened stream holds the file's bytes with the cursor at offset 0. |
| FileStreams.FileStream.ReadByte | task03.c:116 | Returns the byte at the cursor and advances it by 1. |
| FileStreams.FileStream.ReadBytes | task02.c:83 | Returns the next n bytes verbatim and advances the cursor by n. |
| FileStreams.FileStream.Skip | task03.c:117 | `fseek(SEEK_CUR)`: advances the cursor by n. |
| FileStreams.FileStream.ReadBigEndian16 | task02.c:35-40 | Returns `b0 * 256 + b1` of the next two bytes and advances by 2. |
| FileStreams.FileStream.ReadBigEndian16Buffered | tarea1.c:14-18 | The one-`fread` variant: the same value, advancing by 2. |
| FileStreams.FileStream.ReadLittleEndian32 | task02.c:43-50 | Returns `b0 + b1 * 2^8 + b2 * 2^16 + b3 * 2^24` of the next four bytes and advances by 4. |
| FileStreams.FileStream.ReadLittleEndian32Buffered | Edwin_Rojas_Tarea2.c:42-46 | The one-`fread` variant: the same value, advancing by 4. |
| FileStreams.FileStream.ReadNative32 | tarea1.c:55 | Returns the host-order value of the next four bytes and advances by 4. |
| Layout.NameBuffer | task02.c:83-84 | The name buffer holds the copied bytes verbatim, then a NUL in its last slot. |
| Layout.CString | task02.c:132 | What `%s` prints of a buffer: a NUL-free prefix of it, followed by a NUL whenever it is shorter than the buffer. |
| Layout.Records | task02.c:80-86 | A section of n fixed-width records decodes to exactly n records. |
| Layout.RecordsSnoc | task02.c:80-86 | The first n+1 records are the first n followed by the record at offset `width * n`: one pass of a decode loop. |
| Layout.StudentsAtSnoc | task02.c:80-86 | The step of the student loop: record n lies at offset `32 * n` of the section. |
| Layout.StudentsAtStep | task02.c:80-86 | The students read so far followed by the record at the next offset are the students one further. |
| Layout.CoursesAtStep | task02.c:90-95 | The courses read so far followed by the record at the next offset are the courses one further. |
| Layout.EnrollmentsAtStep | task02.c:99-104 | The enrollments read so far followed by the record at the next offset are the enrollments one further. |
| Layout.CoursesAtSnoc | task02.c:90-95 | The step of the course loop: record n lies at offset `40 * n`. |
| Layout.EnrollmentsAtSnoc | task02.c:99-104 | The step of the enrollment loop: record n lies at offset `16 * n`. |
| Layout.BadMagicStopsDecode | task02.c:65-70 | With a wrong magic the decode fails with `BadMagic` carrying the value read, whatever follows the first two bytes. |
| Layout.ParseStudent | task02.c:81-85 | A student record's 32 bytes as id (LE), flags, the 23-byte name buffer with its NUL, and age (LE). Its inverse is `Layout.EncodeStudent` (`Layout.StudentRoundTrip`, `Layout.StudentBytesRoundTrip`). |
| Layout.StudentsAt | task02.c:79-86 | The n student records from an offset, one every 32 bytes. The loop step is `Layout.StudentsAtSnoc`. |
| Layout.DecodeRoster | task02.c:65-104 | The shared decode: `Truncated` when the two magic bytes are missing, `BadMagic` with the value read when the magic differs, `Truncated` when the header or an announced record is missing, otherwise the three sections in file order. Stated by `Layout.BadMagicStopsDecode`, `Layout.DecodeRosterOk` and the round trips. |
| Layout.RecordsFrame | Edwin_Rojas_Tarea2.c:94-116 | The three sections depend only on the first `14 + 32 sc + 40 cc + 16 ec` bytes. |
| Layout.SectionFrame | Edwin_Rojas_Tarea2.c:94-116 | A section's records depend only on the bytes of that section. |
| Layout.DecodeIgnoresTrailingBytes | Edwin_Rojas_Tarea2.c:70-116 | Bytes after the last enrollment do not change the decoded roster. |
| Layout.SameHeader | Edwin_Rojas_Tarea2.c:70-80 | The header depends only on the first 14 bytes. |
| Layout.NameField | Edwin_Rojas_Tarea2.c:97-98 | The encoder's name field has the field's width and, for a NUL-terminated buffer, holds the buffer's bytes before the terminator slot. |
| Layout.EncodeStudent | Edwin_Rojas_Tarea2.c:94-100 | A student is written as 32 bytes. |
| Layout.EncodeCourse | Edwin_Rojas_Tarea2.c:103-108 | A course is written as 40 bytes. |
| Layout.EncodeEnrollment | Edwin_Rojas_Tarea2.c:111-116 | An enrollment is written as 16 bytes. |
| Layout.StudentRoundTrip | Edwin_Rojas_Tarea2.c:94-100 | Decoding the encoding of a student with a NUL-terminated name gives the student back. |
| Layout.StudentBytesRoundTrip | Edwin_Rojas_Tarea2.c:94-100 | Encoding a decoded student record gives its 32 bytes back. |
| Layout.LE32AtInverse | Edwin_Rojas_Tarea2.c:42-46 | Encoding a 32-bit field read at an offset gives back the four bytes at that offset. |
| Layout.CourseRoundTrip | Edwin_Rojas_Tarea2.c:103-108 | Decoding the encoding of a course with a NUL-terminated name gives the course back. |
| Layout.CourseBytesRoundTrip | Edwin_Rojas_Tarea2.c:103-108 | Encoding a decoded course record gives its 40 bytes back. |
| Layout.EnrollmentRoundTrip | Edwin_Rojas_Tarea2.c:111-116 | Decoding an encoded enrollment gives it back. |
| Layout.EnrollmentBytesRoundTrip | Edwin_Rojas_Tarea2.c:111-116 | Encoding a decoded enrollment record gives its 16 bytes back. |
| Layout.RecordsOfConcat | Edwin_Rojas_Tarea2.c:94-116 | If each record round trips, decoding the concatenated encodings of a sequence gives the sequence back. |
| Layout.ConcatOfRecords | Edwin_Rojas_Tarea2.c:94-116 | If every record's bytes round trip, re-encoding a decoded section gives the section back. |
| Layout.RecordsSatisfy | Edwin_Rojas_Tarea2.c:94-116 | A property every decoded window has holds of every record of a section. |
| Layout.RecordsRelated | task03.c:113-119 | Two decoders that agree (by a relation) on every window agree record by record on a whole section. |
| Layout.StudentsOfEncoding | Edwin_Rojas_Tarea2.c:94-100 | The student section written from well-formed students decodes back to them. |
| Layout.EncodingOfStudents | Edwin_Rojas_Tarea2.c:94-100 | Any student section is the encoding of the students it decodes to. |
| Layout.CoursesOfEncoding | Edwin_Rojas_Tarea2.c:103-108 | The course section written from well-formed courses decodes back to them. |
| Layout.EncodingOfCourses | Edwin_Rojas_Tarea2.c:103-108 | Any course section is the encoding of the courses it decodes to. |
| Layout.EnrollmentsOfEncoding | Edwin_Rojas_Tarea2.c:111-116 | The enrollment section written from enrollments decodes back to them. |
| Layout.EncodingOfEnrollments | Edwin_Rojas_Tarea2.c:111-116 | Any enrollment section is the encoding of the enrollments it decodes to. |
| Layout.EncodeHeader | Edwin_Rojas_Tarea2.c:70-80 | A header is written as 14 bytes. |
| Layout.HeaderRoundTrip | Edwin_Rojas_Tarea2.c:70-80 | Bytes starting with an encoded header decode to that header. |
| Layout.DecodeOfLayout | Edwin_Rojas_Tarea2.c:70-116 | A file made of a header with the magic and three sections of the announced sizes decodes to those sections' records, in the order students, courses, enrollments. |
| Layout.DecodeRosterOk | Edwin_Rojas_Tarea2.c:70-116 | A file with the magic that holds all announced records decodes successfully to the records at their offsets. |
| Layout.SectionsAt | Edwin_Rojas_Tarea2.c:94-116 | The students lie at 14, the courses at `14 + 32 sc`, the enrollments at `14 + 32 sc + 40 cc`. |
| Layout.StudentSectionAt | Edwin_Rojas_Tarea2.c:94-100 | The students are the records of bytes `14 .. 14 + 32 sc`. |
| Layout.CourseSectionAt | Edwin_Rojas_Tarea2.c:103-108 | The courses are the records of the bytes right after the students. |
| Layout.EnrollmentSectionAt | Edwin_Rojas_Tarea2.c:111-116 | The enrollments are the records of the bytes right after the courses. |
| Layout.LayoutOfDecode | Edwin_Rojas_Tarea2.c:70-116 | A file that decodes consists, up to its last record, of the encoded header and three sections of exactly the announced sizes, which decode to the roster. |
| Layout.HeaderBytesOf | Edwin_Rojas_Tarea2.c:70-80 | Re-encoding the decoded header gives the first 14 bytes back. |
| Layout.DecodeEncodeRoster | Edwin_Rojas_Tarea2.c:70-116 | Decoding the file written from a well-formed roster gives the roster back. |
| Layout.EncodeDecodeRoster | Edwin_Rojas_Tarea2.c:70-116 | A decoded roster is well formed, and writing it reproduces exactly the `14 + 32 sc + 40 cc + 16 ec` bytes it was read from. |
| Layout.DecodedWellFormed | Edwin_Rojas_Tarea2.c:94-116 | Records decoded under a header form a well-formed roster whose written header has the same counts. |
| Layout.DecodedNamesWellFormed | Edwin_Rojas_Tarea2.c:97-106 | Every decoded student and course name ends in NUL in its last slot. |
| Layout.ParsedStudentsWellFormed | Edwin_Rojas_Tarea2.c:97-98 | Every decoded student name has a NUL at index 23. |
| Layout.ParsedCoursesWellFormed | Edwin_Rojas_Tarea2.c:105-106 | Every decoded course name has a NUL at index 32. |
| Layout.EncodeOfSections | Edwin_Rojas_Tarea2.c:70-116 | Writing the roster decoded from a header and three sections gives back exactly those bytes. |
| RecordReader.ReadStudent | task02.c:81-85 | Consumes 32 bytes and yields the student the layout decodes at the starting offset. |
| RecordReader.ReadCourse | task02.c:91-94 | Consumes 40 bytes and yields the course at the starting offset. |
| RecordReader.ReadEnrollment | task02.c:100-103 | Consumes 16 bytes and yields the enrollment at the starting offset. |
| RecordReader.ReadStudentInto | task02.c:80-86 | One pass of the student loop: slot i receives the student at the cursor, no other slot changes, and the first i + 1 slots are the first i + 1 decoded students. |
| RecordReader.ReadCourseInto | task02.c:90-95 | One pass of the course loop: slot i receives the course at the cursor, no other slot changes, and the first i + 1 slots are the first i + 1 decoded courses. |
| RecordReader.ReadEnrollmentInto | task02.c:99-104 | One pass of the enrollment loop: slot i receives the enrollment at the cursor, no other slot changes, and the first i + 1 slots are the first i + 1 decoded enrollments. |
| RecordReader.ReadStudents | task02.c:79-86 | Fills a fresh array of n students, equal to the n records from the cursor, and advances `32 n`. |
| RecordReader.ReadCourses | task02.c:89-95 | Fills a fresh array of n courses, equal to the n records from the cursor, and advances `40 n`. |
| RecordReader.ReadEnrollments | task02.c:98-104 | Fills a fresh array of n enrollments, equal to the n records from the cursor, and advances `16 n`. |
| RecordReader.ReadCounts | task02.c:74-76 | Reads the three counts at offsets 2, 6 and 10, leaving the cursor at 14. |
| RecordReader.ReadSections | task02.c:78-104 | The three loops in order read exactly the record sections the header announces, ending at the roster size. |
| RecordReader.ReadRoster | task02.c:65-104 | Succeeds exactly when the decode does, else fails with the same error (stopping after the magic on `BadMagic`); on success the arrays hold the decoded roster and exactly `14 + 32 sc + 40 cc + 16 ec` bytes have been consumed. |
| CourseReport.LineFor | task02.c:129-136 | The line carries the course name and is "No hay estudiantes" exactly when the count is zero; otherwise it carries the `int` total and the count. |
| ScanJoin.FirstWithId | task02.c:119-125 | The index where the student scan stops: the first student with the id, every earlier one differing, or the number of students. |
| ScanJoin.FirstWithIdFound | task02.c:119-125 | The scan finds a student exactly when some student has the id. |
| ScanJoin.ScanCount | task02.c:116-127 | A course's count never exceeds the number of enrollments. |
| ScanJoin.ScanTotal | task02.c:116-127 | The exact total of the joined ages, before the 32-bit wrap of `Bytes.ToInt32`, lies between 0 and the count times the largest `uint32_t`. |
| ScanJoin.ScanConcat | task02.c:116-127 | Count and total add up over two consecutive runs of enrollments. |
| ScanJoin.UnjoinedAddsNothing | task02.c:117-125 | An enrollment for another course or with an id no student has adds nothing to the count or total, wherever it stands. |
| ScanJoin.ScanCountIsJoinedIndices | task02.c:116-127 | The count equals the number of enrollments that name the course and an existing student. |
| ScanJoin.JoinedIndicesSnoc | task02.c:116-127 | One more enrollment adds its own position to the joined positions exactly when it names the course and an existing student. |
| ScanJoin.ScanCountZero | task02.c:129-136 | The count is zero exactly when no enrollment names the course together with an existing student. |
| ScanJoin.Report | task02.c:111-137 | The table: for each course in catalog order, the line of its scan count and of its wrapped scan total. Stated by `ScanJoin.ReportLines`. |
| ScanJoin.ReportLines | task02.c:111-137 | One line per course in catalog order under the course's name; "No hay estudiantes" exactly when no joined enrollment exists; otherwise a count between 1 and the number of enrollments, and the `int` the exact total wraps to. |
| ScanJoin.LargeTotalWraps | task02.c:121-130 | When the joined ages add up to between 2^31 and 2^32, the course gets an average line whose `int` total is the exact total minus 2^32, which is negative. |
| ScanJoin.FindStudent | task02.c:119-125 | The loop with `break` returns the index of the first student with the id, or the number of students. |
| ScanJoin.ScanStep | task02.c:117-125 | The count and exact total of the first j + 1 enrollments are those of the first j plus the next enrollment's contribution: one and its first matching student's age when it joins, nothing otherwise. |
| ScanJoin.JoinEnrollment | task02.c:117-125 | One pass of the enrollment loop carries the specified count and wrapped `int` total of the first j enrollments to those of the first j + 1. |
| ScanJoin.CourseTotals | task02.c:113-127 | Returns the specified count of a course and the `int` its exact total wraps to. |
| ScanJoin.AverageAges | task02.c:111-137 | Returns exactly the specified table. |
| ScanJoin.Run | task02.c:65-137 | A file that does not decode yields the decode's error; otherwise the table of the decoded roster. |
| AgeMapJoin.LastWithId | Edwin_Rojas_Tarea2.c:125-127 | The index of the last student with the id, every later one differing, or -1. |
| AgeMapJoin.AgeMap | Edwin_Rojas_Tarea2.c:125-127 | The store loop keeps the map's size. |
| AgeMapJoin.AgeMapSlots | Edwin_Rojas_Tarea2.c:125-127 | After the loop a student id's slot holds the age of the last student with that id; every other slot keeps its previous content. |
| AgeMapJoin.MapCount | Edwin_Rojas_Tarea2.c:140-146 | A course's count never exceeds the number of enrollments. |
| AgeMapJoin.MapTotal | Edwin_Rojas_Tarea2.c:140-146 | The exact total of the map slots, before the 32-bit wrap of `Bytes.ToInt32`, lies between 0 and the count times the largest `uint32_t`. |
| AgeMapJoin.MapCountVersusScan | Edwin_Rojas_Tarea2.c:140-146 | The map join counts at least as many enrollments as the scan join, and exactly as many iff every enrollment for the course names an existing student. |
| AgeMapJoin.DanglingEnrollmentCounted | Edwin_Rojas_Tarea2.c:141-144 | An enrollment with an id no student has adds one to the count and its slot's initial content to the total, while the scan join ignores it. |
| AgeMapJoin.MapAgreesWithScan | Edwin_Rojas_Tarea2.c:140-146 | With distinct student ids and every enrollment naming an existing student, both joins give the same count and total. |
| AgeMapJoin.Report | Edwin_Rojas_Tarea2.c:134-154 | The table over a map: for each course in catalog order, the line of its map count and of its wrapped map total. Stated by `AgeMapJoin.ReportLines`. |
| AgeMapJoin.ReportLines | Edwin_Rojas_Tarea2.c:134-154 | One line per course in catalog order under its name; "No hay estudiantes" exactly when no enrollment names the course; otherwise the map count and the `int` the exact map total wraps to. |
| AgeMapJoin.MapCountZero | Edwin_Rojas_Tarea2.c:148-153 | The count is zero exactly when no enrollment names the course. |
| AgeMapJoin.InitialMap | Edwin_Rojas_Tarea2.c:119 | The allocated map has one slot per student. |
| AgeMapJoin.BuildAgeMap | Edwin_Rojas_Tarea2.c:125-127 | Given ids below the map size, the array after the loop is the specified map of the array before. |
| AgeMapJoin.MapStep | Edwin_Rojas_Tarea2.c:141-145 | The count and exact total of the first j + 1 enrollments are those of the first j plus one and the slot of the next enrollment's student when it names the course, nothing otherwise. |
| AgeMapJoin.CourseTotals | Edwin_Rojas_Tarea2.c:136-146 | Returns the specified count of a course and the `int` its exact total wraps to. |
| AgeMapJoin.AverageAges | Edwin_Rojas_Tarea2.c:134-154 | Returns exactly the specified table. |
| AgeMapJoin.Process | Edwin_Rojas_Tarea2.c:118-154 | For decoded arrays whose ids keep the map in bounds, the table over the map built from the unspecified initial contents. |
| AgeMapJoin.Run | Edwin_Rojas_Tarea2.c:70-154 | A file that does not decode yields the decode's error; otherwise the table over the map built from the unspecified initial contents. |
| Demographics.IsValidYearSemester | task03.c:74-84 | Returns 0 or 1, and 1 exactly when `1900 <= year <= 2100` and `1 <= semester <= 4`. |
| Demographics.CategoryOf | task03.c:170-182 | A female category exactly when bit 0x80 is set, a graduate category exactly when bit 0x40 is set. |
| Demographics.Bump | task03.c:170-182 | Increments the counter of the flags' category by one and leaves the pair and the other three counters unchanged. |
| Demographics.IndexOf | task03.c:64-71 | The smallest index whose pair matches, or -1 when none does. |
| Demographics.FirstWithId | task03.c:146-152 | The first student with the id, every earlier one differing, or the number of students. |
| Demographics.Tally | task03.c:131-184 | There are never more records than enrollments. |
| Demographics.Step | task03.c:136-183 | One pass of the processing loop on the records so far: nothing for an invalid or unmatched enrollment, else a new record for a new pair or a bumped counter of the existing one. Stated by `Demographics.StepPairs`, `Demographics.StepIndex` and `Demographics.CountedBumpsOne`. |
| Demographics.Occurrences | task03.c:135-184 | The reference count of counted enrollments of a pair and category never exceeds the number of enrollments. |
| Demographics.FirstSeen | task03.c:135-184 | The position of the first counted enrollment of a pair, every earlier one not counted for it, or the number of enrollments. |
| Demographics.IndexOfSnoc | task03.c:156-167 | Appending a record does not move an existing match. When there is none, the appended record is found exactly when it matches. |
| Demographics.IndexOfUpdate | task03.c:170-182 | Changing a record's counters does not change where any pair is found. |
| Demographics.StepPairs | task03.c:156-167 | One pass keeps every existing pair and appends a record only for a counted enrollment whose pair is new. |
| Demographics.StepKeepsDistinct | task03.c:156-167 | One pass keeps the pairs pairwise distinct. |
| Demographics.TallyDistinct | task03.c:156-167 | No two records ever share a pair. |
| Demographics.SkippedChangesNothing | task03.c:141-154 | An enrollment that is invalid or matches no student leaves every record unchanged. |
| Demographics.CountedBumpsOne | task03.c:156-182 | A counted enrollment creates a record only for a new pair, bumps exactly one counter of its pair's record and leaves every other record unchanged. |
| Demographics.TallyCounts | task03.c:135-184 | A record for a pair exists exactly when a counted enrollment has it, and each counter equals the number of counted enrollments of the pair whose student has that category. |
| Demographics.FirstSeenSnoc | task03.c:135-167 | One more enrollment keeps a pair's first-seen position, or makes it the new position when the enrollment is counted for the pair. |
| Demographics.OccurrencesSnoc | task03.c:169-182 | One more enrollment adds one to a pair's count for a category exactly when it counts as that category for the pair. |
| Demographics.StepIndex | task03.c:154-183 | After one pass a pair has a record exactly when it had one or the enrollment is counted for it, and its counter grew by one exactly for the enrollment's category. |
| Demographics.StepKeepsFirstSeen | task03.c:155-167 | A pass never moves a record, so each existing record keeps its first-seen position. |
| Demographics.TallyOrder | task03.c:156-167 | Records appear in the order their pairs are first seen. |
| Demographics.SemesterTable | task03.c:135-197 | The printed table: distinct pairs, one for each counted pair, counters equal to the reference counts. |
| Demographics.StudentsAtSnoc | task03.c:114-119 | The step of the student loop that skips names. |
| Demographics.DecodeAsWritten | task03.c:99-128 | The read as task03.c performs it: the header checks, the students at 14, then the enrollments at `14 + 32 sc`, where the course section begins. Stated by `Demographics.DecodeAsWrittenOk` and the lemmas after it. |
| Demographics.Decode | task03.c:99-128 | The corrected read: the same header checks, the students at 14, and the enrollments after the `40 cc` course bytes. Stated by `Demographics.DecodeMatchesRoster` and `Demographics.DecodeOk`. |
| Demographics.DecodeMatchesRoster | task03.c:100-128 | The corrected decode succeeds exactly when the shared decode does, with the same errors, the same enrollments and the same students without their names. |
| Demographics.DecodeOk | task03.c:100-128 | On a file with the magic holding all announced records, the corrected decode yields the students at offset 14 and the enrollments after the course section. |
| Demographics.AsWrittenAgreesWithoutCourses | task03.c:121-128 | With no courses, the as-written and corrected decodes agree. |
| Demographics.DecodeAsWrittenOk | task03.c:121-128 | The as-written decode takes the enrollments right after the students. |
| Demographics.AsWrittenReadsCourseBytes | task03.c:121-128 | On any valid file with a course and an enrollment, the as-written first enrollment's student id is the first course's id. |
| Demographics.AsWrittenOnEncoded | task03.c:121-128 | For any well-formed roster with a course and an enrollment, the as-written decode misreads the first enrollment while the corrected one recovers the enrollments. |
| Demographics.AsWrittenMisreadsEnrollments | task03.c:121-128 | For the concrete roster of the finding, the as-written decode reports student 7 where the file holds student 1. |
| Demographics.ReadStudent | task03.c:115-118 | Consumes 32 bytes (skipping the name) and yields id, flags and age of the record. |
| Demographics.ReadStudents | task03.c:113-119 | Fills a fresh array with the n records from the cursor, advancing `32 n`. |
| Demographics.ReadStudentInto | task03.c:114-119 | One pass of the student loop: slot i receives the student at the cursor, no other slot changes, and the first i + 1 slots are the first i + 1 decoded students. |
| Demographics.FindStudent | task03.c:146-152 | The search loop returns the first student with the id, or the number of students. |
| Demographics.FindSemesterRecord | task03.c:64-71 | Returns the smallest matching index among the first `count` records, or -1. |
| Demographics.ProcessEnrollment | task03.c:136-183 | One pass of the processing loop: the first slots afterwards hold exactly one more step of the specified records, with at most one record created. |
| Demographics.BumpRecord | task03.c:169-182 | The record at the index has the counter of the flags' category bumped; no other slot changes. |
| Demographics.Aggregate | task03.c:131-184 | Allocates one slot per enrollment and leaves in the first `record_count` slots exactly the specified records. |
| Demographics.ReadSections | task03.c:112-128 | The corrected read of the sections: the students, the course section skipped as a whole (a skip task03.c does not perform), and the enrollments, equal to the corrected decode's sections. |
| Demographics.ReadSectionsAsWritten | task03.c:112-128 | The student loop and then the enrollment loop, back to back: the arrays are the students at 14 and the enrollments at `14 + 32 sc`, and the cursor ends after them. |
| Demographics.ReadHeader | task03.c:99-110 | Succeeds exactly on a file with the magic and a whole header, returning the header with the cursor at 14; otherwise both decodes fail with the returned error, and on `BadMagic` the cursor stops after the magic. |
| Demographics.ReadInput | task03.c:99-128 | The corrected read: succeeds exactly when the corrected decode does, else fails with its error, stopping after the magic on `BadMagic`; on success the arrays hold its students and enrollments. |
| Demographics.ReadInputAsWritten | task03.c:99-128 | The read as written: succeeds exactly when the as-written decode does, else fails with its error, stopping after the magic on `BadMagic`; on success the arrays hold its students and enrollments. |
| Demographics.Run | task03.c:100-184 | The corrected program: a file that does not decode yields the error; otherwise the records of the corrected decode's students and enrollments. |
| Demographics.RunAsWritten | task03.c:99-184 | The program as written: a file the as-written read rejects yields its error; otherwise the records tallied over the as-written decode, whose enrollments come from where the courses begin. |
| AgeFilter.ToUnsigned | edwin_rojas_tarea1.c:86 | The conversion of an `int` bound to unsigned: congruent modulo 2^32, unchanged when non-negative, at least 2^31 when negative. |
| AgeFilter.InAgeRange | edwin_rojas_tarea1.c:86 | The test `age >= min_age && age <= max_age` with both bounds converted to unsigned. Stated by `AgeFilter.InAgeRangeNonNegative` and `AgeFilter.NegativeBounds`. |
| AgeFilter.InAgeRangeNonNegative | edwin_rojas_tarea1.c:86 | With non-negative bounds the filter is the inclusive range `min <= age <= max`. |
| AgeFilter.NegativeBounds | edwin_rojas_tarea1.c:86 | A negative minimum admits only ages of at least 2^31; a negative maximum reaches up to `max + 2^32`. |
| AgeFilter.RowOf | edwin_rojas_tarea1.c:87 | The printed row of a student: the name up to its NUL, the age and the gender label. |
| AgeFilter.Report | edwin_rojas_tarea1.c:74-89 | No more rows than students. |
| AgeFilter.ReportSnoc | edwin_rojas_tarea1.c:86-88 | One more student adds its row exactly when its age is in range. |
| AgeFilter.ReportStep | edwin_rojas_tarea1.c:74-89 | The rows of the first i students plus the next student's row, when its age is in range, are the rows of the first i + 1. |
| AgeFilter.ReportConcat | edwin_rojas_tarea1.c:74-89 | Rows follow decode order: the rows of two runs of students are concatenated. |
| AgeFilter.ReportMembers | edwin_rojas_tarea1.c:86-88 | A row is printed exactly when some student in range has it. |
| AgeFilter.ReportRowsInRange | edwin_rojas_tarea1.c:86-88 | Every printed row has an age in range and one of the two gender labels. |
| AgeFilter.DecodeStudents | edwin_rojas_tarea1.c:53-82 | The students this program reads: `Truncated` when the header or an announced student is missing, otherwise the student section at 14, with the magic never checked. Stated by `AgeFilter.MagicIgnored`, `AgeFilter.RestIgnored` and `AgeFilter.StudentsOfRoster`. |
| AgeFilter.MagicIgnored | edwin_rojas_tarea1.c:53-57 | Replacing the magic bytes does not change what is read. |
| AgeFilter.RestIgnored | edwin_rojas_tarea1.c:74-92 | Bytes after the student section (courses, enrollments, anything else) do not change what is read. |
| AgeFilter.StudentsOfRoster | edwin_rojas_tarea1.c:74-82 | On a file the full decoder accepts, the students read are the roster's students. |
| AgeFilter.ReadHeader | edwin_rojas_tarea1.c:53-62 | Reads the header without checking the magic, leaving the cursor at 14. |
| AgeFilter.FilterStudent | edwin_rojas_tarea1.c:75-88 | One pass of the loop consumes 32 bytes and extends the rows of the first i students to those of the first i + 1. |
| AgeFilter.FilterStudents | edwin_rojas_tarea1.c:74-89 | Consumes `32 n` bytes and returns exactly the specified rows of the n students read. |
| AgeFilter.Run | edwin_rojas_tarea1.c:53-89 | A file too short for its header or students yields `Truncated`; otherwise the rows of the students read. |
| NativeAgeFilter.NativeStudentAgrees | tarea1.c:55-59 | A record read with the host-order id differs from the little-endian one only in its id: not at all on a little-endian host, by byte reversal on a big-endian one; the printed row is the same. |
| NativeAgeFilter.ReadHeader | tarea1.c:42-45 | Discards the magic and two counts, keeps the student count, leaves the cursor at 14. |
| NativeAgeFilter.ReadStudent | tarea1.c:55-59 | Consumes 32 bytes and yields the record with its id in host order. |
| NativeAgeFilter.ReportStep | tarea1.c:53-64 | A student read in the host's byte order adds the same row, or none, as the little-endian read of its bytes. |
| NativeAgeFilter.FilterStudent | tarea1.c:54-63 | One pass of the loop consumes 32 bytes and extends the rows of the first i students to those of the first i + 1, on either host. |
| NativeAgeFilter.FilterStudents | tarea1.c:53-64 | Returns exactly the rows `edwin_rojas_tarea1.c` prints for the same students, on either host. |
| NativeAgeFilter.Run | tarea1.c:42-64 | On every host, the same outcome as `edwin_rojas_tarea1.c` on the same file and bounds. |

## Left out

- I/O: `fopen`, `fclose` and `perror` are left out. Opening always succeeds, and the file's contents are the `data` parameter. The `printf` table formatting is left out: each report is returned as a sequence of rows or lines.
- The `double` average (task02.c:130, Edwin_Rojas_Tarea2.c:149) is floating point. Each line carries the `int` total and the count from which it is printed.
- `atoi` of the command-line bounds (edwin_rojas_tarea1.c:67-68, tarea1.c:47-48) is a library call. The bounds are `i32` parameters.
- `malloc` failure and the out-of-memory branch (Edwin_Rojas_Tarea2.c:87-91, 120-124) are left out: allocation always succeeds.
- Short reads: the C programs ignore `fread` results and go on with undefined contents. The reader methods require enough remaining bytes. Each program's `Run` checks the size first and returns `Truncated`, so a truncated file yields no partial report.
- `byte2 << 8`, `byte3 << 16` and `byte4 << 24` are computed on a promoted `int`, and the last overflows when the byte is at least 0x80, which is undefined behaviour in C. The model uses the intended unsigned value (`Bytes.LE32ByShifts`).
- The record readers in `RecordReader` use the byte-by-byte 32-bit reader for both `task02.c` and `Edwin_Rojas_Tarea2.c`. The latter's one-`fread` reader (Edwin_Rojas_Tarea2.c:42-46) is `FileStreams.FileStream.ReadLittleEndian32Buffered`. The two have the same contract.
- ScanJoin.ScanCount: `student_count_in_course` is a signed `int`, and is modelled as an unbounded natural. It could overflow only with more than 2^31 - 1 enrollments of one course, which would be undefined behaviour.
- AgeMapJoin.MapCount: the same for Edwin_Rojas_Tarea2.c's `student_count_in_course`.
- Demographics.SemesterRecord: the four `int` counters are unbounded naturals. They cannot exceed the number of enrollments, so overflow needs more than 2^31 enrollments.
- AgeMapJoin.Run: out-of-bounds map accesses (`student_age_map[id]` with `id >= student_count`) are undefined behaviour. They are excluded by the precondition that every student id, and every student id of an enrollment naming a course, is below the number of students. The uninitialised contents of the `malloc`ed map are the parameter `uninit`.
- Demographics.ReadSections: it models the corrected read, with a skip of the course section that task03.c:112-128 does not perform (see Findings). The read as written is `Demographics.ReadSectionsAsWritten`.
- Demographics.ReadInput: it models the corrected read of task03.c:99-128. The read as written is `Demographics.ReadInputAsWritten`, proved against `Demographics.DecodeAsWritten`.
- Demographics.Run: it reports over the corrected decode. The program as written is `Demographics.RunAsWritten`, whose outcome is the tally over `Demographics.DecodeAsWritten`.
- The C programs' exit statuses are left out. A decode error is returned as `Err`, and the message it prints is not modelled.

## Findings

| source | as written | input that shows it | evidently intended | confidence | as-written member | corrected member |
|---|---|---|---|---|---|---|
| task03.c:121-128 | The enrollment loop reads right after the student records, at offset `14 + 32 sc`, without skipping the `40 cc` bytes of the course section. With at least one course it decodes course bytes as enrollments, and the file-size expectation is off by `40 cc`. | A file with no students, one course (id 7, NUL name, 3 credit hours) and one enrollment (student 1, course 7, 2024, semester 1). The first "enrollment" read has student id 7, the course's id. | Skip the course section, as the other variants do, and read enrollments at `14 + 32 sc + 40 cc`. | not executed | Demographics.AsWrittenMisreadsEnrollments | Demographics.DecodeMatchesRoster |
