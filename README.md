# CCRM academic records, modelled in Dafny

This project models the in-memory core of CCRM, a Java console application that keeps
students, instructors, courses, enrolments and grades. The model covers:

- **Value types.** `CourseCode` with its normalisation and pattern, `Name`, the `Grade` point table
  and the `Semester` order.
- **Entities.** `Course` with its validating builder, `Person`, `Student`, `Instructor` and
  `Enrollment`. The entities whose fields the Java code updates in place are Dafny classes, and
  their setters are methods with `modifies` clauses.
- **Registries.** The student registry keeps two maps, one by id and one by registration number.
  The course registry keeps one map, by code.
- **GPA and transcripts.** Grade recording, the GPA, the transcript builder, the GPA distribution
  and the top-students ranking.
- **Utilities.**
  - the comparators;
  - the validation predicates, including a recogniser for the email pattern, proved equal to the
    pattern;
  - the recursive utilities: factorial, memoised Fibonacci, string reversal, array maximum and
    `FileCount.add`;
  - the CSV row parsing and formatting of the import/export service.

Java's fixed-width arithmetic is written out: `int` sums wrap at 32 bits and `long` products at
64 bits. A null reference is `None` of an `Option`. An exception is the `Err`/`Fail` case of a
`Result`/`Outcome`, naming the exception class.

The GPA follows the code rather than the written specification of the system, which describes a credit-weighted mean
(59/7 for an A in a 3-credit course and a B in a 4-credit course). `Student.calculateGPA` divides
the plain sum of grade points by the sum of credits, which gives 17/7. The model computes 17/7, and
`GradePointAverage.GpaNotCreditWeighted` states the difference.

Modules, one per Java class or concern:

- `Wrappers` (`wrappers.dfy`): `Option`, `Result`, `Outcome`, and the exception classes.
- `JavaInt` (`java_int.dfy`): 32/64-bit wrap-around, `compare`, `Objects.hash`.
- `JavaString` (`java_string.dfy`): `trim`, case mapping, `contains`, `compareTo`, `split`, `parseInt`, `hashCode`.
- `Sums` (`sums.dfy`): order-free sums over maps, which model stream `sum()` over a HashMap.
- `CodeOrder` (`code_order.dfy`): the course-code order and sums taken along it.
- `Dates` (`dates.dfy`): `LocalDate.compareTo` and ISO text.
- `CourseCodes`, `Names`, `Grades`, `Semesters` (`course_code.dfy`, `name.dfy`, `grade.dfy`, `semester.dfy`): the value types.
- `People`, `Instructors`, `Courses`, `Students`, `Enrollments` (`person.dfy`, `instructor.dfy`, `course.dfy`, `student.dfy`, `enrollment.dfy`): the entities.
- `GradePointAverage` (`gpa.dfy`): the GPA as calculateGPA computes it.
- `StudentServices`, `CourseServices` (`student_service.dfy`, `course_service.dfy`): the registries.
- `Transcripts`, `GpaReports`, `TranscriptServices` (`transcript.dfy`, `gpa_reports.dfy`, `transcript_service.dfy`): the transcript service.
- `Comparators` (`comparators.dfy`): ComparatorUtils.
- `Validation` (`validation.dfy`): ValidationUtils.
- `RecursiveUtils` (`recursive_utils.dfy`): RecursiveUtils without the filesystem walkers.
- `ImportExport` (`import_export.dfy`): ImportExportService without the file access.

## Model

| member | source | states |
|---|---|---|
| CourseCodes.RecogniseIff | src/edu/ccrm/domain/CourseCode.java:11 | the letter-count matcher accepts exactly the strings of `^[A-Z]{2,4}\d{3,4}$` (2 to 4 letters A-Z, then 3 to 4 digits), both directions |
| CourseCodes.New | src/edu/ccrm/domain/CourseCode.java:14-20 | null gives NullPointerException; otherwise the code is accepted exactly when the upper-cased, trimmed text matches the pattern, any rejection is IllegalArgumentException, and the stored code is that normalised text |
| CourseCodes.Equals | src/edu/ccrm/domain/CourseCode.java:28-36 | two codes are equal exactly when their strings are, and equal codes have equal hash codes |
| CourseCodes.NormalisedWhenMatching | src/edu/ccrm/domain/CourseCode.java:15-17 | a string that matches the pattern is unchanged by upper-casing and trimming |
| CourseCodes.NewIdempotent | src/edu/ccrm/domain/CourseCode.java:14-22 | rebuilding a code from its getCode() string gives the same code |
| CourseCodes.NewIgnoresSurroundingSpace | src/edu/ccrm/domain/CourseCode.java:15 | characters up to U+0020 around the input change nothing: same code or same exception |
| CourseCodes.NewIgnoresCase | src/edu/ccrm/domain/CourseCode.java:15 | upper- or lower-casing the input changes nothing |
| CourseCodes.SameNormalForm | src/edu/ccrm/domain/CourseCode.java:15-19 | the outcome depends only on the normalised text |
| CourseCodes.AcceptsNormalised | src/edu/ccrm/domain/CourseCode.java:11-19 | 2 to 4 letters followed by 3 to 4 digits are accepted unchanged |
| CourseCodes.AcceptsNormalForm | src/edu/ccrm/domain/CourseCode.java:14-19 | a recognised, already normalised string is accepted unchanged |
| CourseCodes.RejectsNormalised | src/edu/ccrm/domain/CourseCode.java:17-18 | a normalised string outside the pattern is refused with IllegalArgumentException |
| CourseCodes.NewAcceptsPaddedLowerCase | src/edu/ccrm/domain/CourseCode.java:15-17 | `" cs101 "` becomes the code `CS101` |
| CourseCodes.NewAcceptsFourLetters | src/edu/ccrm/domain/CourseCode.java:11-17 | `MATH2001` is accepted as it is, and null is refused with NullPointerException |
| CourseCodes.NewRejectsExamples | src/edu/ccrm/domain/CourseCode.java:11-18 | one letter (`C101`) and two digits (`CS10`) are refused |
| Grades.Ordinal | src/edu/ccrm/domain/Grade.java:7-14 | the ordinal is the constant's position in the declaration |
| Grades.Points | src/edu/ccrm/domain/Grade.java:8-25 | every grade's points lie in [0, 10] |
| Grades.Name | src/edu/ccrm/domain/Grade.java:7-14 | every constant's name is one letter |
| Grades.IsPassing | src/edu/ccrm/domain/Grade.java:28 | a grade passes exactly when it is not F |
| Grades.ToString | src/edu/ccrm/domain/Grade.java:31-33 | the text starts with the grade's letter |
| Grades.PointsDecrease | src/edu/ccrm/domain/Grade.java:7-14 | points strictly decrease along the declaration order, both directions |
| Grades.NameInjective | src/edu/ccrm/domain/Grade.java:7-14 | the letter determines the grade |
| Grades.ToStringExample | src/edu/ccrm/domain/Grade.java:31-33 | `A (9.0) - Very Good !` and `F (0.0) - Fail` |
| Semesters.Order | src/edu/ccrm/domain/Semester.java:8-21 | order numbers lie in 1..4 |
| Semesters.ValueOf | src/edu/ccrm/domain/Semester.java:7-11 | valueOf returns the constant with exactly that name, or IllegalArgumentException when no constant has it |
| Semesters.OrderInjective | src/edu/ccrm/domain/Semester.java:8-11 | distinct semesters have distinct order numbers |
| Semesters.OrderFollowsDeclaration | src/edu/ccrm/domain/Semester.java:8-11 | SPRING < SUMMER < FALL < WINTER by order number |
| Semesters.ValueOfName | src/edu/ccrm/domain/Semester.java:7-11 | valueOf reads back every constant's name |
| Semesters.ToStringExample | src/edu/ccrm/domain/Semester.java:25 | toString of FALL is `Fall Semester` |
| Names.New | src/edu/ccrm/domain/Name.java:14-23 | a null part gives NullPointerException; otherwise the name is built exactly when both trimmed parts are non-empty (else IllegalArgumentException), and it holds the trimmed parts |
| Names.Equals | src/edu/ccrm/domain/Name.java:36-47 | equal exactly when both parts are equal; equal names have equal hash codes and full names |
| Names.FullNameShape | src/edu/ccrm/domain/Name.java:22 | the full name is trimmed, the first part is its prefix and the last part its suffix, with one character between |
| Names.SplitFullName | src/edu/ccrm/domain/Name.java:22 | when the first part has no space, cutting the full name at its first space gives the two parts |
| Names.NewOfParts | src/edu/ccrm/domain/Name.java:14-23 | a name is rebuilt unchanged from its own parts |
| Names.FullNameNotInjective | src/edu/ccrm/domain/Name.java:22-41 | `Mary Ann`/`Smith` and `Mary`/`Ann Smith` have the same full name but are not equal |
| Names.NewIgnoresSurroundingSpace | src/edu/ccrm/domain/Name.java:15-16 | blanks around either part change nothing |
| People.Person.constructor | src/edu/ccrm/domain/Person.java:18-24 | a new person keeps its class, id, name, email and creation date and starts active |
| People.Person.New | src/edu/ccrm/domain/Person.java:18-24 | a null id, name or email gives NullPointerException; otherwise a fresh, active person created today |
| People.Person.SetName | src/edu/ccrm/domain/Person.java:34-36 | null is refused and nothing changes; otherwise only the name changes |
| People.Person.SetEmail | src/edu/ccrm/domain/Person.java:39-41 | null is refused and nothing changes; otherwise only the email changes |
| People.Person.SetActive | src/edu/ccrm/domain/Person.java:46 | only the active flag changes |
| People.Person.Equals | src/edu/ccrm/domain/Person.java:56-66 | equal exactly when the runtime class and the id agree; equal persons have equal hash codes |
| People.EqualsProperties | src/edu/ccrm/domain/Person.java:56-61 | equals is reflexive, symmetric and transitive, and a student never equals an instructor |
| Instructors.Instructor.constructor | src/edu/ccrm/domain/Instructor.java:14-18 | a new instructor has its employee id and department, no specialization and salary 0 |
| Instructors.Instructor.New | src/edu/ccrm/domain/Instructor.java:14-18 | any null among id, name, email, employee id and department gives NullPointerException; otherwise a fresh instructor with those values |
| Instructors.Instructor.Role | src/edu/ccrm/domain/Instructor.java:22-24 | the role is `Instructor` |
| Instructors.Instructor.DisplayInfo | src/edu/ccrm/domain/Instructor.java:27-30 | the text is `Instructor: <full name> (<employee id>) - `, then the department, then ` Department` |
| Instructors.Instructor.SetEmployeeId | src/edu/ccrm/domain/Instructor.java:34-36 | null is refused and nothing changes; otherwise only the employee id changes |
| Instructors.Instructor.SetDepartment | src/edu/ccrm/domain/Instructor.java:39-41 | null is refused and nothing changes; otherwise only the department changes |
| Instructors.Instructor.SetSpecialization | src/edu/ccrm/domain/Instructor.java:44 | only the specialization changes, null included |
| Instructors.Instructor.SetSalary | src/edu/ccrm/domain/Instructor.java:47-50 | a negative salary is refused and nothing changes, so the salary is never negative; otherwise only the salary changes |
| Courses.Course.constructor | src/edu/ccrm/domain/Course.java:20-29 | a new course carries the builder's values, is created today and starts active |
| Courses.Course.SetTitle | src/edu/ccrm/domain/Course.java:79-81 | null is refused and nothing changes; otherwise only the title changes |
| Courses.Course.SetCredits | src/edu/ccrm/domain/Course.java:84-87 | credits that are not positive are refused and nothing changes; otherwise only the credits change, so credits stay positive |
| Courses.Course.SetInstructor | src/edu/ccrm/domain/Course.java:90-92 | null is refused and nothing changes; otherwise only the instructor changes |
| Courses.Course.SetSemester | src/edu/ccrm/domain/Course.java:95-97 | null is refused and nothing changes; otherwise only the semester changes |
| Courses.Course.SetDepartment | src/edu/ccrm/domain/Course.java:100-102 | null is refused and nothing changes; otherwise only the department changes |
| Courses.Course.SetActive | src/edu/ccrm/domain/Course.java:107 | only the active flag changes |
| Courses.Course.Equals | src/edu/ccrm/domain/Course.java:116-126 | courses are equal exactly when their codes are, whatever their other fields; equal courses have equal hash codes |
| Courses.EqualsIsEquivalence | src/edu/ccrm/domain/Course.java:116-121 | course equality is reflexive, symmetric and transitive |
| Courses.CourseBuilder.constructor | src/edu/ccrm/domain/Course.java:40-43 | a new builder holds the code and title and nothing else is set |
| Courses.CourseBuilder.New | src/edu/ccrm/domain/Course.java:40-43 | a null code or title gives NullPointerException; otherwise a fresh builder with nothing else set |
| Courses.CourseBuilder.WithCredits | src/edu/ccrm/domain/Course.java:45-49 | credits that are not positive are refused and the builder is unchanged; otherwise only the credits are set |
| Courses.CourseBuilder.WithInstructor | src/edu/ccrm/domain/Course.java:51-54 | null is refused and the builder is unchanged; otherwise only the instructor is set |
| Courses.CourseBuilder.WithSemester | src/edu/ccrm/domain/Course.java:56-59 | null is refused and the builder is unchanged; otherwise only the semester is set |
| Courses.CourseBuilder.WithDepartment | src/edu/ccrm/domain/Course.java:61-64 | null is refused and the builder is unchanged; otherwise only the department is set |
| Courses.CourseBuilder.Build | src/edu/ccrm/domain/Course.java:66-73 | a missing instructor, semester or department gives NullPointerException (checked in that order), then unset credits give IllegalStateException; it succeeds exactly when all are set, with a fresh active course carrying the builder's values |
| Students.StatusNameInjective | src/edu/ccrm/domain/Student.java:18-20 | distinct statuses have distinct names |
| Students.Enroll | src/edu/ccrm/domain/Student.java:61-67 | refused with IllegalArgumentException exactly when a course with the same code is enrolled; otherwise exactly that course is added and the grades are untouched |
| Students.Unenroll | src/edu/ccrm/domain/Student.java:69-76 | refused with IllegalArgumentException exactly when the course is not enrolled; otherwise the course leaves both the enrolled set and the grade map and every other grade is kept |
| Students.AssignGrade | src/edu/ccrm/domain/Student.java:78-85 | refused with IllegalArgumentException exactly when the course is not enrolled; otherwise that course's grade is set or overwritten, the enrolled set is unchanged and every other grade is kept |
| Students.OperationsKeepValid | src/edu/ccrm/domain/Student.java:61-85 | enrolling, unenrolling and grading keep every graded course enrolled and every entry under its own code |
| Students.UnenrollUndoesEnroll | src/edu/ccrm/domain/Student.java:61-76 | unenrolling a course just enrolled gives the record back |
| Students.AssignGradeOverwrites | src/edu/ccrm/domain/Student.java:78-85 | grading a course twice leaves only the second grade |
| Students.GradeTable | src/edu/ccrm/domain/Student.java:91-97 | the table the GPA reads has exactly the graded courses |
| Students.EnrolledCredits | src/edu/ccrm/domain/Student.java:102-106 | each enrolled course's current credits, under its code |
| Students.Student.constructor | src/edu/ccrm/domain/Student.java:22-28 | a new student holds the person and registration number, is ACTIVE and has no courses or grades |
| Students.Student.New | src/edu/ccrm/domain/Student.java:22-28 | a null id, name, email or registration number gives NullPointerException; otherwise a fresh valid ACTIVE student with the given fields, created today and active, with no courses |
| Students.Student.SetRegNo | src/edu/ccrm/domain/Student.java:44-46 | null is refused and nothing changes; otherwise the number is stored, with no registry index updated |
| Students.Student.SetStatus | src/edu/ccrm/domain/Student.java:49 | only the status changes |
| Students.Student.EnrolledCourses | src/edu/ccrm/domain/Student.java:52-54 | the copy holds exactly the enrolled course objects |
| Students.Student.Grades | src/edu/ccrm/domain/Student.java:56-58 | the copy maps exactly the graded courses to their grades |
| Students.Student.EnrollInCourse | src/edu/ccrm/domain/Student.java:61-67 | null gives NullPointerException; otherwise the new record and outcome are those of Enroll; the student stays valid |
| Students.Student.UnenrollFromCourse | src/edu/ccrm/domain/Student.java:69-76 | null gives NullPointerException; otherwise the new record and outcome are those of Unenroll; the student stays valid |
| Students.Student.AssignGradeTo | src/edu/ccrm/domain/Student.java:78-85 | a null course, then a null grade, gives NullPointerException; otherwise the new record and outcome are those of AssignGrade; the student stays valid |
| Students.Student.CalculateGPA | src/edu/ccrm/domain/Student.java:88-100 | the GPA of the current grade table: 0 with no grades, otherwise the plain sum of grade points over the 32-bit sum of the graded courses' credits |
| Students.Student.CalculateGPARange | src/edu/ccrm/domain/Student.java:88-100 | while the graded credits add up to an `int`, the GPA lies in [0, 10] |
| Students.Student.GetTotalCredits | src/edu/ccrm/domain/Student.java:102-106 | the 32-bit wrapped sum of the credits of every enrolled course, graded or not |
| Enrollments.Enrollment.constructor | src/edu/ccrm/domain/Enrollment.java:21-26 | a new enrollment holds the student, course and date, is ENROLLED and ungraded |
| Enrollments.Enrollment.New | src/edu/ccrm/domain/Enrollment.java:21-26 | a null student or course gives NullPointerException; otherwise a fresh ENROLLED, ungraded enrollment dated today |
| Enrollments.Enrollment.SetGrade | src/edu/ccrm/domain/Enrollment.java:34-41 | the grade is set, null clears it, and HasGrade holds exactly when a grade was given |
| Enrollments.Enrollment.SetStatus | src/edu/ccrm/domain/Enrollment.java:37-39 | null is refused and nothing changes; any other status is stored, from any status |
| Enrollments.Enrollment.Equals | src/edu/ccrm/domain/Enrollment.java:50-62 | equal exactly when the students are of the same class with the same id and the courses have the same code; equal enrollments have equal hash codes |
| Students.Student.DisplayInfo | src/edu/ccrm/domain/Student.java:37-40 | the text starts "Student: <full name> (Reg: <registration number>) - ", ends " courses enrolled", and the digits between read back as the number of enrolled courses |
| StudentServices.SearchMatchesProperties | src/edu/ccrm/service/StudentServiceImpl.java:79-81 | the search filter ignores the case of the query, and the empty query matches every student |
| StudentServices.SearchMatchesIff | src/edu/ccrm/service/StudentServiceImpl.java:79-81 | a student matches exactly when the lower-cased query occurs at some offset of its lower-cased full name, registration number or id |
| StudentServices.StudentRegistry.constructor | src/edu/ccrm/service/StudentServiceImpl.java:15-18 | a new registry has both maps empty, and the index is in step |
| StudentServices.StudentRegistry.FindById | src/edu/ccrm/service/StudentServiceImpl.java:66-68 | a student is found exactly when one is stored under the id, and it is that one |
| StudentServices.StudentRegistry.FindByRegNo | src/edu/ccrm/service/StudentServiceImpl.java:71-73 | a student is found exactly when the index holds the number, and it is the one indexed |
| StudentServices.StudentRegistry.AddStudent | src/edu/ccrm/service/StudentServiceImpl.java:21-34 | null, then a taken id, then a taken registration number are refused with neither map changed; it succeeds exactly when both are free, after which both lookups return the student; a successful add keeps the index in step |
| StudentServices.StudentRegistry.GetAllStudents | src/edu/ccrm/service/StudentServiceImpl.java:37-39 | the new list has one entry per stored student and holds exactly the stored students |
| StudentServices.StudentRegistry.UpdateStudent | src/edu/ccrm/service/StudentServiceImpl.java:42-54 | null gives NullPointerException and an unknown id IllegalArgumentException, with nothing changed; otherwise the student replaces the one under its id, the old number leaves the index and the new number maps to the student; an index in step stays in step exactly when the new number was free or already the replaced student's own |
| StudentServices.StudentRegistry.StaleIndex | src/edu/ccrm/service/StudentServiceImpl.java:49-53 | updating with a number another stored student holds leaves the index out of step |
| StudentServices.StudentRegistry.FreshIndex | src/edu/ccrm/service/StudentServiceImpl.java:49-53 | updating with a free number, or the replaced student's own, keeps the index in step |
| StudentServices.StudentRegistry.UpdateStudentChecked | src/edu/ccrm/service/StudentServiceImpl.java:42-54 | the corrected update: a number held by another student is refused before anything changes, and the index always stays in step |
| StudentServices.StudentRegistry.DeactivateStudent | src/edu/ccrm/service/StudentServiceImpl.java:57-63 | nothing changes for an unknown id; otherwise the student becomes inactive with status INACTIVE, and its number, courses and grades and both maps are unchanged |
| StudentServices.StudentRegistry.Search | src/edu/ccrm/service/StudentServiceImpl.java:77-83 | a null query throws NullPointerException exactly when some student is stored; otherwise the result holds exactly the stored students whose full name, registration number or id contains the query, ignoring case |
| StudentServices.StudentRegistry.EnrollStudentInCourse | src/edu/ccrm/service/StudentServiceImpl.java:86-93 | an unknown id gives IllegalArgumentException; otherwise the outcome and the student's new record are those of Student.enrollInCourse, and the maps are unchanged |
| StudentServices.StudentRegistry.UnenrollStudentFromCourse | src/edu/ccrm/service/StudentServiceImpl.java:96-103 | an unknown id gives IllegalArgumentException; otherwise the outcome and the student's new record are those of Student.unenrollFromCourse, and the maps are unchanged |
| CourseServices.CourseRegistry.constructor | src/edu/ccrm/service/CourseServiceImpl.java:14-16 | a new registry is empty |
| CourseServices.CourseRegistry.AddCourse | src/edu/ccrm/service/CourseServiceImpl.java:19-28 | null, then a code already stored, are refused with the map unchanged; it succeeds exactly when the code is new, and then only that code's entry is added |
| CourseServices.CourseRegistry.GetAllCourses | src/edu/ccrm/service/CourseServiceImpl.java:31-33 | the new list has one entry per stored course and holds exactly the stored courses |
| CourseServices.CourseRegistry.UpdateCourse | src/edu/ccrm/service/CourseServiceImpl.java:36-45 | null, then an unknown code, are refused with the map unchanged; it succeeds exactly when the code is stored, and then only that entry is replaced |
| CourseServices.CourseRegistry.DeactivateCourse | src/edu/ccrm/service/CourseServiceImpl.java:48-53 | nothing changes for an unknown code; otherwise only that course's active flag becomes false |
| CourseServices.CourseRegistry.FindById | src/edu/ccrm/service/CourseServiceImpl.java:56-58 | a course is found exactly when one is stored under the argument as given, and it is that one |
| CourseServices.CourseRegistry.FindByIdIsExact | src/edu/ccrm/service/CourseServiceImpl.java:56-58 | an argument that upper-casing would change finds nothing, so "cs101" misses CS101 |
| CourseServices.CourseRegistry.Search | src/edu/ccrm/service/CourseServiceImpl.java:62-69 | a null query throws NullPointerException exactly when some course is stored; otherwise the result holds exactly the stored courses whose title, code, instructor or department contains the query, ignoring case |
| CourseServices.CourseRegistry.FindByInstructor | src/edu/ccrm/service/CourseServiceImpl.java:72-76 | exactly the stored courses whose instructor equals the argument ignoring case; null matches none |
| CourseServices.CourseRegistry.FindByDepartment | src/edu/ccrm/service/CourseServiceImpl.java:79-83 | exactly the stored courses whose department equals the argument ignoring case; null matches none |
| CourseServices.CourseRegistry.FindBySemester | src/edu/ccrm/service/CourseServiceImpl.java:86-90 | exactly the stored courses of that semester; null matches none |
| GradePointAverage.PointsOf | src/edu/ccrm/domain/Student.java:91-93 | each graded course's grade points, between 0 and 10 |
| GradePointAverage.CreditsOf | src/edu/ccrm/domain/Student.java:95-97 | each graded course's credits |
| GradePointAverage.ComputeGpa | src/edu/ccrm/domain/Student.java:88-100 | the two stream sums taken along the course codes give the GPA of the table: 0 without grades or when the 32-bit credit sum is not positive, otherwise points over credits |
| GradePointAverage.GpaRange | src/edu/ccrm/domain/Student.java:88-100 | with every credit count in 1..2^31-1 and a credit sum that fits an `int`, the GPA lies in [0, 10] |
| GradePointAverage.GpaExact | src/edu/ccrm/domain/Student.java:88-100 | the GPA with an exact credit sum agrees with calculateGPA whenever the credit sum fits an `int` |
| GradePointAverage.GpaExactRange | src/edu/ccrm/domain/Student.java:88-100 | with every credit count positive, the exact GPA lies in [0, 10] whatever the credit sum |
| GradePointAverage.GpaNotCreditWeighted | src/edu/ccrm/domain/Student.java:91-99 | an A in a 3-credit course and a B in a 4-credit course give 17/7, not the credit-weighted 59/7 |
| GradePointAverage.GpaOverflow | src/edu/ccrm/domain/Student.java:95-99 | three S grades with credits 2^31-1, 2^31-1 and 3 wrap the credit sum to 1 and give a GPA of 30 |
| GpaReports.LabelInjective | src/edu/ccrm/service/TranscriptServiceImpl.java:117-121 | the five group labels are distinct |
| GpaReports.BandOf | src/edu/ccrm/service/TranscriptServiceImpl.java:115-122 | the classifier picks the one band whose interval holds the GPA |
| GpaReports.Members | src/edu/ccrm/service/TranscriptServiceImpl.java:114-123 | the GPAs grouped under a band all fall in it |
| GpaReports.MembersEmpty | src/edu/ccrm/service/TranscriptServiceImpl.java:114-123 | a band has members exactly when some GPA falls in it |
| GpaReports.MembersMultiset | src/edu/ccrm/service/TranscriptServiceImpl.java:114-123 | a band's members are exactly the GPAs in it, each as often as in the list |
| GpaReports.Distribution | src/edu/ccrm/service/TranscriptServiceImpl.java:112-125 | a key for exactly the bands some GPA falls in, each mapped to the mean of that band's GPAs, and no other key |
| GpaReports.DistributionMeansInBand | src/edu/ccrm/service/TranscriptServiceImpl.java:112-125 | the mean reported for a band lies in that band |
| GpaReports.DistributionPermutation | src/edu/ccrm/service/TranscriptServiceImpl.java:112-125 | the distribution does not depend on the order the students are listed in |
| GpaReports.Insert | src/edu/ccrm/service/TranscriptServiceImpl.java:131 | inserting into a list sorted by descending GPA keeps it sorted and adds exactly the one element |
| GpaReports.SortByGpa | src/edu/ccrm/service/TranscriptServiceImpl.java:131 | the sorted list is a permutation of the input in descending GPA order |
| GpaReports.Graded | src/edu/ccrm/service/TranscriptServiceImpl.java:130 | the filter keeps every graded student as often as listed and nobody ungraded |
| GpaReports.Top | src/edu/ccrm/service/TranscriptServiceImpl.java:129-133 | min(count, graded students) graded students in descending GPA order, drawn from the graded students |
| GpaReports.TopOf | src/edu/ccrm/service/TranscriptServiceImpl.java:128-134 | a negative count gives IllegalArgumentException; otherwise the top students |
| GpaReports.TopIsTop | src/edu/ccrm/service/TranscriptServiceImpl.java:128-134 | no graded student left out has a higher GPA than any student taken |
| TranscriptServices.RankedList | src/edu/ccrm/service/TranscriptServiceImpl.java:116-131 | each listed student with its current GPA and whether it has a grade |
| TranscriptServices.TranscriptService.constructor | src/edu/ccrm/service/TranscriptServiceImpl.java:73-76 | the service holds the two registries it was given |
| TranscriptServices.TranscriptService.RecordGrade | src/edu/ccrm/service/TranscriptServiceImpl.java:79-87 | an unknown student, then an unknown course, gives IllegalArgumentException and a null grade NullPointerException, with nothing changed; otherwise the outcome and the student's new record are those of Student.assignGrade, and no other student changes |
| TranscriptServices.TranscriptService.CalculateGPA | src/edu/ccrm/service/TranscriptServiceImpl.java:90-95 | an unknown student gives IllegalArgumentException; otherwise the student's GPA, in [0, 10] while the graded credits add up to an `int` |
| TranscriptServices.TranscriptService.GenerateTranscript | src/edu/ccrm/service/TranscriptServiceImpl.java:98-108 | an unknown student gives IllegalArgumentException; otherwise the student's transcript text |
| TranscriptServices.TranscriptService.GetGPADistribution | src/edu/ccrm/service/TranscriptServiceImpl.java:112-125 | the distribution of the GPAs of some listing of exactly the stored students |
| TranscriptServices.TranscriptService.GetTopStudents | src/edu/ccrm/service/TranscriptServiceImpl.java:128-134 | a negative count gives IllegalArgumentException; otherwise the top students of some listing of exactly the stored students |
| Transcripts.TitleCell | src/edu/ccrm/service/TranscriptServiceImpl.java:51 | a title of at most 30 characters is kept; a longer one becomes its first 27 characters and "...", exactly 30 |
| Transcripts.Hundredths | src/edu/ccrm/service/TranscriptServiceImpl.java:63 | the value in hundredths, rounded half up as `%.2f` rounds |
| Transcripts.TwoDecimalsReadBack | src/edu/ccrm/service/TranscriptServiceImpl.java:63 | the `%.2f` text has a point before two digits, and its digits read back as the rounded hundredths |
| Transcripts.TwoDecimalsExample | src/edu/ccrm/service/TranscriptServiceImpl.java:63 | 17/7 prints as "2.43" and 0 as "0.00" |
| Transcripts.RowColumns | src/edu/ccrm/service/TranscriptServiceImpl.java:49-54 | in every row the code is padded to 10, the title cell starts at column 11 and the credits at column 42 |
| Transcripts.Row | src/edu/ccrm/service/TranscriptServiceImpl.java:47-54 | a row shows the code and grade of the grade map's key course |
| Transcripts.RowsOf | src/edu/ccrm/service/TranscriptServiceImpl.java:44-55 | one row per listed code, in the listed order |
| Transcripts.TableOrderIsForced | src/edu/ccrm/service/TranscriptServiceImpl.java:44-45 | any listing of the graded courses in increasing code order gives the same transcript, so the sort alone fixes the table |
| Transcripts.TranscriptBuilder.constructor | src/edu/ccrm/service/TranscriptServiceImpl.java:20-24 | a new builder has empty text, holds the student and captures the student's GPA as it is then |
| Transcripts.TranscriptBuilder.AddHeader | src/edu/ccrm/service/TranscriptServiceImpl.java:26-36 | the header with the student's full name, id, registration number and status is appended to the builder's text, and the builder itself is returned |
| Transcripts.TranscriptBuilder.AddCourses | src/edu/ccrm/service/TranscriptServiceImpl.java:38-58 | the table heading and one row per graded course, in code order, are appended to the builder's text, and the builder itself is returned |
| Transcripts.TranscriptBuilder.AddSummary | src/edu/ccrm/service/TranscriptServiceImpl.java:60-66 | the total credits of all enrolled courses and the GPA captured at creation are appended, and the builder itself is returned |
| Transcripts.TextsUnchanged | src/edu/ccrm/service/TranscriptServiceImpl.java:103-107 | while the student, its person and its courses are untouched, the header, the course table and the total credits stay the same across a builder step |
| Transcripts.GpaUnchanged | src/edu/ccrm/service/TranscriptServiceImpl.java:23 | while the student and its graded courses are untouched, the GPA stays the same |
| Transcripts.BuildTranscript | src/edu/ccrm/service/TranscriptServiceImpl.java:103-107 | the builder chain produces the student's transcript: header, course table in code order, summary with the GPA captured at the start |
| Comparators.StatusNameOrder | src/edu/ccrm/util/ComparatorUtils.java:42-43 | status names order ACTIVE < GRADUATED < INACTIVE < SUSPENDED and compare equal only for the same status |
| Comparators.StudentOrderMeaning | src/edu/ccrm/util/ComparatorUtils.java:13-64 | each student comparator puts a first exactly when its key does: names, registration numbers and dates ascending, GPA and total credits descending, status name then GPA |
| Comparators.CourseOrderMeaning | src/edu/ccrm/util/ComparatorUtils.java:26-47 | each course comparator puts a first exactly when its key does: code, title, department and instructor ascending, credits descending, department then code |
| Comparators.GradeOrderMeaning | src/edu/ccrm/util/ComparatorUtils.java:50-51 | a grade comes first exactly when it has more points, and ties exactly on equal points |
| Comparators.NullSafeAgreesWithName | src/edu/ccrm/util/ComparatorUtils.java:62-64 | with full names never null, the null-safe order is BY_NAME |
| Comparators.NullsLastProperties | src/edu/ccrm/util/ComparatorUtils.java:62-64 | nullsLast puts null after every string and is antisymmetric |
| Comparators.StudentOrderAntisymmetric | src/edu/ccrm/util/ComparatorUtils.java:13-64 | swapping the two students flips the sign of every student comparator |
| Comparators.CourseOrderAntisymmetric | src/edu/ccrm/util/ComparatorUtils.java:26-47 | swapping the two courses flips the sign of every course comparator |
| Comparators.GradeOrderAntisymmetric | src/edu/ccrm/util/ComparatorUtils.java:50-51 | swapping the two grades flips the sign, and a grade ties with itself |
| Comparators.StudentComparator | src/edu/ccrm/util/ComparatorUtils.java:67-76 | a null key gives NullPointerException; otherwise the order whose keyword is the lower-cased key, and BY_NAME only when no other keyword matches |
| Comparators.CourseComparator | src/edu/ccrm/util/ComparatorUtils.java:78-87 | a null key gives NullPointerException; otherwise the order whose keyword is the lower-cased key, and BY_COURSE_CODE only when no other keyword matches |
| Comparators.KeywordsSelect | src/edu/ccrm/util/ComparatorUtils.java:67-87 | each keyword, in any case, selects its own order |
| Comparators.ComparatorLookupIgnoresCase | src/edu/ccrm/util/ComparatorUtils.java:68-79 | upper-casing the key does not change the order selected |
| Comparators.LookupExamples | src/edu/ccrm/util/ComparatorUtils.java:67-87 | "GPA" selects BY_GPA, "gpa " falls back to BY_NAME, "Credits" selects BY_CREDITS, "semester" falls back to BY_COURSE_CODE |
| ImportExport.FilterMembers | src/edu/ccrm/io/ImportExportService.java:44-79 | a line is kept by the filter exactly when it is there and passes the test |
| ImportExport.FilterAppend | src/edu/ccrm/io/ImportExportService.java:44-79 | filtering keeps the order of the lines |
| ImportExport.ParseAllMeaning | src/edu/ccrm/io/ImportExportService.java:45-81 | the parsed list has one value per line, each the parse of its line, or else the exception of the first line that does not parse |
| ImportExport.ParseAllStopsAtError | src/edu/ccrm/io/ImportExportService.java:45-81 | once a line is refused, the lines after it are not looked at |
| ImportExport.DataLinesMembers | src/edu/ccrm/io/ImportExportService.java:43-79 | the lines parsed are exactly those after the first that are not blank after trimming |
| ImportExport.ReadLines | src/edu/ccrm/io/ImportExportService.java:41-76 | a text written one line at a time reads back as the same lines, when no line holds a line break and the last one is not empty |
| ImportExport.CsvReadBack | src/edu/ccrm/io/ImportExportService.java:41-124 | a written file read back skips the header and parses each line written after it to its own value |
| ImportExport.ReadName | src/edu/ccrm/io/ImportExportService.java:58-63 | the name field either gives a valid Name or IllegalArgumentException |
| ImportExport.ReadFullName | src/edu/ccrm/io/ImportExportService.java:58-63 | a full name whose first part has no space reads back as the same Name |
| ImportExport.OneWordNameRejected | src/edu/ccrm/io/ImportExportService.java:58-63 | a name field of one word leaves the last name empty and is refused |
| ImportExport.StudentRowOf | src/edu/ccrm/io/ImportExportService.java:50-65 | fewer than four fields gives IllegalArgumentException; otherwise the trimmed id, registration number and email and a valid Name, or IllegalArgumentException for the name |
| ImportExport.EmptyEmailRejected | src/edu/ccrm/io/ImportExportService.java:51-54 | a line whose email field is empty splits into three fields and is refused |
| ImportExport.NewStudent | src/edu/ccrm/io/ImportExportService.java:64 | the student made from a row has the row's fields, is ACTIVE and has no courses |
| ImportExport.ParseStudent | src/edu/ccrm/io/ImportExportService.java:50-65 | fails exactly when the row does, with IllegalArgumentException; otherwise a fresh student holding the row's values |
| ImportExport.ImportStudents | src/edu/ccrm/io/ImportExportService.java:33-48 | fails exactly when some data line is refused, with the first refusal's exception; otherwise one fresh student per data line, in order, each holding that line's values |
| ImportExport.NewStudents | src/edu/ccrm/io/ImportExportService.java:45-46 | one fresh student per row, in order |
| ImportExport.StudentLinesIndex | src/edu/ccrm/io/ImportExportService.java:114-122 | exportStudents writes one line per student, in list order |
| ImportExport.ExportStudents | src/edu/ccrm/io/ImportExportService.java:107-125 | the text built is the header and then the line of each student, each ended by a line break |
| ImportExport.StudentLineReadsBack | src/edu/ccrm/io/ImportExportService.java:50-121 | a student line, for fields without commas or surrounding blanks, parses back to the same id, registration number, name and email |
| ImportExport.StudentLinesReadBack | src/edu/ccrm/io/ImportExportService.java:50-122 | every line exportStudents writes parses back as its own student |
| ImportExport.StudentsReadBack | src/edu/ccrm/io/ImportExportService.java:33-125 | the file exportStudents writes, imported again, gives one row per student, in order, with each student's id, registration number, name and email |
| ImportExport.CourseRowOf | src/edu/ccrm/io/ImportExportService.java:85-97 | fewer than six fields gives IllegalArgumentException; the only other refusals are the code's and valueOf's IllegalArgumentException and parseInt's NumberFormatException; the text fields are trimmed |
| ImportExport.ParseCourseRow | src/edu/ccrm/io/ImportExportService.java:85-104 | the builder also refuses credits that are not positive; every course read has positive credits |
| ImportExport.BuildCourse | src/edu/ccrm/io/ImportExportService.java:98-103 | the builder chain fails exactly for credits that are not positive, with IllegalArgumentException; otherwise a fresh active course holding the row's values |
| ImportExport.ParseCourse | src/edu/ccrm/io/ImportExportService.java:85-104 | fails exactly when the row does, with its exception; otherwise a fresh course holding the row's values |
| ImportExport.ImportCourses | src/edu/ccrm/io/ImportExportService.java:68-83 | fails exactly when some data line is refused, with the first refusal's exception; otherwise one fresh course per data line, in order |
| ImportExport.BuildCourses | src/edu/ccrm/io/ImportExportService.java:80-81 | one fresh course per row, in order |
| ImportExport.CourseLinesIndex | src/edu/ccrm/io/ImportExportService.java:135-144 | exportCourses writes one line per course, in list order |
| ImportExport.ExportCourses | src/edu/ccrm/io/ImportExportService.java:128-147 | the text built is the header and then the line of each course, each ended by a line break |
| ImportExport.DisplayNameRejected | src/edu/ccrm/io/ImportExportService.java:95-141 | valueOf refuses every semester's display name, upper-cased |
| ImportExport.CourseLineSplits | src/edu/ccrm/io/ImportExportService.java:86-143 | a course line with plain text fields splits back into its seven fields |
| ImportExport.CourseFieldsRead | src/edu/ccrm/io/ImportExportService.java:85-97 | seven fields as exportCourses writes them read as the same code and credits, and only valueOf can still refuse them |
| ImportExport.ExportedCourseRejected | src/edu/ccrm/io/ImportExportService.java:95-143 | the line exportCourses writes for a course does not import again: it is refused with IllegalArgumentException |
| ImportExport.CourseLineWithNameReadsBack | src/edu/ccrm/io/ImportExportService.java:85-143 | the line written with the semester's identifier imports to the same code, title, credits, instructor, semester and department |
| ImportExport.GradeLinesIndex | src/edu/ccrm/io/ImportExportService.java:158-166 | one line per listed course of a student, in the listed order |
| ImportExport.EnrollmentLinesSnoc | src/edu/ccrm/io/ImportExportService.java:157-167 | the lines for one more student are the lines so far and then that student's lines |
| ImportExport.ExportEnrollments | src/edu/ccrm/io/ImportExportService.java:150-170 | the text built is the header and then, student by student, one line per grade in the order the student's grade map is visited |
| ImportExport.StudentGradeLinesExactly | src/edu/ccrm/io/ImportExportService.java:158-166 | a student's lines are exactly those of its graded courses, whatever the visiting order |
| ImportExport.StudentGradeLineCount | src/edu/ccrm/io/ImportExportService.java:158-166 | a student gets exactly one line per grade |
| ImportExport.EnrollmentLineCount | src/edu/ccrm/io/ImportExportService.java:157-167 | the export has exactly one line per grade held by the students |
| ImportExport.EnrollmentLineOf | src/edu/ccrm/io/ImportExportService.java:157-167 | each line written is that of one graded course of one listed student |
| ImportExport.GradeLineWritten | src/edu/ccrm/io/ImportExportService.java:157-167 | the line of every graded course of every listed student is written |
| ImportExport.EnrollmentLinesExactly | src/edu/ccrm/io/ImportExportService.java:150-170 | the lines written are exactly those of the students' graded courses, one per grade, whatever order each grade map is visited in |
| Validation.LastIndexOf | src/edu/ccrm/util/ValidationUtils.java:15 | the position of the last occurrence of the character |
| Validation.RecogniseEmailIff | src/edu/ccrm/util/ValidationUtils.java:14-16 | the matcher accepts exactly the strings the email pattern describes: one '@' after a non-empty local part, then a non-empty domain run, a dot and at least two letters |
| Validation.OneAt | src/edu/ccrm/util/ValidationUtils.java:15 | a matching address has exactly one '@' |
| Validation.EmailSplitUnique | src/edu/ccrm/util/ValidationUtils.java:15 | a matching address is read in only one way |
| Validation.IsNotEmptyIff | src/edu/ccrm/util/ValidationUtils.java:22-23 | a string passes IS_NOT_EMPTY exactly when some character is above U+0020 |
| JavaString.Utf16Length | src/edu/ccrm/util/ValidationUtils.java:30 | String.length counts UTF-16 code units: between the number of characters and twice that, and equal to it exactly when no character lies above U+FFFF |
| JavaString.Utf16LengthAppend | src/edu/ccrm/util/ValidationUtils.java:30 | the length of a concatenation is the sum of the lengths |
| Validation.ValidateCreditsIff | src/edu/ccrm/util/ValidationUtils.java:25-39 | validateCredits holds exactly for a non-null value from 1 to 6 |
| Validation.StudentIdExamples | src/edu/ccrm/util/ValidationUtils.java:29-31 | "  a" passes validateStudentId because the length is not trimmed; "a" and null do not; an emoji followed by a letter passes, its length being three UTF-16 code units |
| Validation.ValidateStudentIff | src/edu/ccrm/util/ValidationUtils.java:42-47 | validateStudent holds exactly for a non-null student whose id is at least three UTF-16 code units long (String.length) and has a character above U+0020, whose email the pattern matches, and whose registration number has a character above U+0020 |
| Validation.ValidateCourseIff | src/edu/ccrm/util/ValidationUtils.java:49-56 | validateCourse holds exactly for a non-null course with 1 to 6 credits and a non-blank title, instructor and department; the code never fails it, and a course with more than 6 credits fails it |
| Validation.AssertValidGPA | src/edu/ccrm/util/ValidationUtils.java:59-61 | with assertions enabled, exactly a GPA outside [0, 10] fails with AssertionError |
| Validation.AssertValidCredits | src/edu/ccrm/util/ValidationUtils.java:63-65 | with assertions enabled, exactly credits outside 1 to 6 fail with AssertionError |
| Validation.AssertValidCreditsAgrees | src/edu/ccrm/util/ValidationUtils.java:37-65 | the credits assertion and validateCredits accept the same values |
| Validation.GpaPassesAssertion | src/edu/ccrm/util/ValidationUtils.java:59-61 | every GPA calculateGPA returns passes the GPA assertion while the graded credits add up to an `int` |
| Validation.GpaOverflowFailsAssertion | src/edu/ccrm/util/ValidationUtils.java:59-61 | a GPA computed from a wrapped credit sum can fail the GPA assertion |
| Validation.EmailAccepted | src/edu/ccrm/util/ValidationUtils.java:14-20 | "alice@uni.edu" is a valid email |
| Validation.EmailRejected | src/edu/ccrm/util/ValidationUtils.java:14-20 | "alice@uni" and null are not valid emails |
| RecursiveUtils.AddCommutative | src/edu/ccrm/util/RecursiveUtils.java:103-105 | adding two file counts gives the same counts in either order |
| RecursiveUtils.AddAssociative | src/edu/ccrm/util/RecursiveUtils.java:103-105 | adding file counts gives the same counts however the additions are grouped, `int` wrap-around included |
| RecursiveUtils.AddZero | src/edu/ccrm/util/RecursiveUtils.java:103-105 | adding the zero count changes nothing |
| RecursiveUtils.Fact | src/edu/ccrm/util/RecursiveUtils.java:114-122 | n! is at least 1 (the mathematical reference) |
| RecursiveUtils.FactorialLong | src/edu/ccrm/util/RecursiveUtils.java:119-121 | the `long` recursion always yields a value in the `long` range |
| RecursiveUtils.Factorial | src/edu/ccrm/util/RecursiveUtils.java:114-122 | a negative argument gives IllegalArgumentException, any other the `long` recursion |
| RecursiveUtils.FactMonotone | src/edu/ccrm/util/RecursiveUtils.java:114-122 | n! grows with n |
| RecursiveUtils.FactorialExact | src/edu/ccrm/util/RecursiveUtils.java:114-122 | up to 20 the result is exactly n! |
| RecursiveUtils.FactorialWrapsAt21 | src/edu/ccrm/util/RecursiveUtils.java:121 | at 21 the product wraps and the result is not 21! |
| RecursiveUtils.FactorialChecked | src/edu/ccrm/util/RecursiveUtils.java:114-122 | the factorial with a checked product: a negative argument is still IllegalArgumentException, otherwise the checked recursion |
| RecursiveUtils.CheckedProduct | src/edu/ccrm/util/RecursiveUtils.java:119-121 | a checked product is in the `long` range, and its only failure is ArithmeticException |
| RecursiveUtils.FactorialCheckedExact | src/edu/ccrm/util/RecursiveUtils.java:114-122 | the checked factorial is exactly n! up to 20 and ArithmeticException from 21 on |
| RecursiveUtils.FibLong | src/edu/ccrm/util/RecursiveUtils.java:132-142 | the `long` recursion stays in the `long` range |
| RecursiveUtils.FibonacciHelper | src/edu/ccrm/util/RecursiveUtils.java:132-142 | returns the `long` Fibonacci number of n; every memo entry stays unset or correct; no entry outside 2..n changes |
| RecursiveUtils.Fibonacci | src/edu/ccrm/util/RecursiveUtils.java:125-130 | negative gives IllegalArgumentException; Integer.MAX_VALUE gives NegativeArraySizeException (n + 1 wraps); any other n gives the helper's value |
| RecursiveUtils.FibonacciIterative | src/edu/ccrm/util/RecursiveUtils.java:125-142 | the corrected fibonacci: negative gives IllegalArgumentException, and every other n, Integer.MAX_VALUE included, gives the `long` Fibonacci value the memoised recursion computes |
| RecursiveUtils.FibMonotone | src/edu/ccrm/util/RecursiveUtils.java:125-142 | F(n) grows with n |
| RecursiveUtils.FibonacciExact | src/edu/ccrm/util/RecursiveUtils.java:125-142 | while F(n) fits a `long`, the result is F(n) exactly |
| RecursiveUtils.FibPositive | src/edu/ccrm/util/RecursiveUtils.java:137 | F(k) > 0 from k = 1 on, so 0 works as the "unset" marker for the entries that are read |
| RecursiveUtils.Reverse | src/edu/ccrm/util/RecursiveUtils.java:145-150 | the result has the same length, with character i taken from position length-1-i |
| RecursiveUtils.ReverseString | src/edu/ccrm/util/RecursiveUtils.java:145-150 | null stays null; any other string is reversed |
| RecursiveUtils.ReverseInvolution | src/edu/ccrm/util/RecursiveUtils.java:145-150 | reversing twice gives the string back |
| RecursiveUtils.ReverseAppend | src/edu/ccrm/util/RecursiveUtils.java:145-150 | reversing a concatenation reverses the parts and swaps them |
| RecursiveUtils.FindMaxFrom | src/edu/ccrm/util/RecursiveUtils.java:153-160 | the result is an element of array[index..] and at least every element there |
| RecursiveUtils.FindMaxPastEndNeverEnds | src/edu/ccrm/util/RecursiveUtils.java:153-160 | with an index at or past the end, the recursion as written never reaches its base case, whatever the number of calls allowed |
| RecursiveUtils.FindMaxStepsInside | src/edu/ccrm/util/RecursiveUtils.java:153-160 | with an index inside the array, the recursion as written reaches its base case within length - index calls and gives the largest of array[index..] |
| RecursiveUtils.FindMaxChecked | src/edu/ccrm/util/RecursiveUtils.java:153-160 | the corrected findMax(array, index): an index outside the array gives IllegalArgumentException (both directions); any other gives an element of array[index..] at least every element there |
| RecursiveUtils.FindMax | src/edu/ccrm/util/RecursiveUtils.java:163-168 | null or empty gives IllegalArgumentException (both directions); otherwise the result is an element of the array and at least every element |
| Dates.CompareToProperties | src/edu/ccrm/util/ComparatorUtils.java:54-58 | LocalDate.compareTo is zero exactly for equal dates and antisymmetric |
| Dates.CompareToTransitive | src/edu/ccrm/util/ComparatorUtils.java:54-58 | LocalDate.compareTo is transitive |
| Dates.ZeroPad | src/edu/ccrm/io/ImportExportService.java:121 | a zero-padded field has at least the requested width, all digits, and reads back as the number |
| Dates.IsoTextFields | src/edu/ccrm/io/ImportExportService.java:121-143 | for years 0 to 9999 the ISO date is ten characters, and its fields read back as the year, month and day |
| Dates.IsoTextInjective | src/edu/ccrm/io/ImportExportService.java:121-143 | for years 0 to 9999, different dates are exported as different text |
| JavaString.TrimIdempotent | src/edu/ccrm/domain/CourseCode.java:15 | trimming twice gives the same result as trimming once |
| JavaString.TrimIgnoresSurroundingSpace | src/edu/ccrm/io/ImportExportService.java:56-61 | spaces and control characters around a field do not change its trimmed value |
| JavaString.BlankIffAllTrimmable | src/edu/ccrm/io/ImportExportService.java:44 | a line is dropped as blank exactly when every character is at most U+0020 |
| JavaString.CaseFoldings | src/edu/ccrm/service/CourseServiceImpl.java:64-67 | upper- and lower-casing absorb each other and are idempotent |
| JavaString.ContainsIff | src/edu/ccrm/service/CourseServiceImpl.java:64-67 | `contains` holds exactly when the text occurs at some position |
| JavaString.CompareToAntisymmetric | src/edu/ccrm/util/ComparatorUtils.java:14 | swapping String.compareTo's arguments negates the result |
| JavaString.CompareToZero | src/edu/ccrm/util/ComparatorUtils.java:14 | String.compareTo is zero exactly for equal strings |
| JavaString.CompareToTransitive | src/edu/ccrm/util/ComparatorUtils.java:14 | String.compareTo is transitive |
| JavaString.CompareToIffLexLess | src/edu/ccrm/util/ComparatorUtils.java:14 | String.compareTo is negative exactly when the first string comes first in lexicographic order |
| JavaString.SplitOfJoin | src/edu/ccrm/io/ImportExportService.java:51-86 | joining at least two comma-free fields with commas, the last one non-empty, and splitting the line gives the fields back |
| JavaString.ParseIntOfIntToString | src/edu/ccrm/io/ImportExportService.java:93 | Integer.parseInt reads back every `int` that %d printed |
| JavaInt.Wrap32Add | src/edu/ccrm/util/RecursiveUtils.java:103-105 | wrapping to 32 bits between additions gives the same result as wrapping at the end |
| JavaInt.Wrap64Add | src/edu/ccrm/util/RecursiveUtils.java:139 | wrapping to 64 bits between additions gives the same result as wrapping at the end |

## Left out

- Files, the clock and the console: `Files.lines`, `Files.writeString` and `ensureDataDirectory` are not modelled. The imports take the file's lines as a parameter and the exports return the CSV text. `LocalDate.now()` is a `today` parameter of every constructor and import that stamps a date. The CLI menu (`Main_page`), `AppConfig` (a double-checked-locking singleton that reads system properties), `BackupService` and the filesystem walkers of `RecursiveUtils` are not part of this model.
- Transcripts.TitleCell: strings are sequences of Unicode scalar values, while Java counts UTF-16 code units. A title with characters outside the Basic Multilingual Plane is measured and cut differently: 16 emoji have Java length 32 and are truncated there, possibly inside a surrogate pair.
- JavaString.CompareTo: compares scalar values, not UTF-16 code units, so "￿" and an emoji compare in the opposite order from Java.
- JavaString.StringHash: hashes scalar values, not UTF-16 code units, so it differs from `String.hashCode` for text outside the Basic Multilingual Plane.
- RecursiveUtils.Reverse: reverses scalar values. Java's `charAt` recursion reverses UTF-16 code units and so splits surrogate pairs.
- JavaString.ParseInt: accepts ASCII digits only. `Integer.parseInt` also accepts other Unicode decimal digits, such as Arabic-Indic ones.
- JavaString.ToUpper: ASCII case mapping only. Java's `toUpperCase` follows the default locale and full Unicode casing.
- JavaString.ToLower: ASCII case mapping only, for the same reason.
- JavaString.EqualsIgnoreCase: ASCII case folding only. `equalsIgnoreCase` folds all of Unicode.
- Grades.PointsText: always writes a '.' decimal point. `String.format("%.1f")` uses the default locale, which in a comma-decimal locale adds a CSV field to every enrollment row.
- Transcripts.TwoDecimals: always writes a '.' decimal point, for the same reason.
- GradePointAverage.Gpa: the GPA is an exact `real`, not a `double`. The same holds for the band means of GpaReports.Distribution and for the salary of Instructors.Instructor.SetSalary. Rounding is not modelled; the `%.2f` text is modelled on the exact value.
- Students.Student.CalculateGPA: keeps the 32-bit wrap of the credit sum, as the code has it. The corrected exact mean is GradePointAverage.GpaExact (see Findings).
- RecursiveUtils.Factorial: recursion depth is unbounded, so a StackOverflowError is not modelled. Java reaches it only for arguments far past the point where the result wraps.
- RecursiveUtils.FibonacciHelper: recursion depth is unbounded, so the StackOverflowError of a large n (in the tens of thousands with default stack sizes) is not modelled.
- RecursiveUtils.ReverseString: the StackOverflowError of very long strings is not modelled.
- RecursiveUtils.FindMaxFrom: requires an index inside the array, which is the only index findMax(array) passes. For an index at or past the end, Java recurses until the stack overflows; RecursiveUtils.FindMaxPastEndNeverEnds shows that the base case is never reached. For a negative index, Java climbs to the base case and then fails on `array[index]`; the model's index is a `nat`.
- Ordering: `HashMap` and `HashSet` iteration order is not modelled. StudentServices.StudentRegistry.GetAllStudents and CourseServices.CourseRegistry.GetAllCourses promise contents, not order. The exports take the list, or for enrollments each student's listing of graded courses, as a parameter.
- GpaReports.SortByGpa: an insertion sort that is stable like Java's TimSort. Ties among equal GPAs keep the input order, which in Java is HashMap order, so only the descending order and the contents are stated.
- Validation.AssertValidGPA: whether assertions run (the `-ea` flag) is an `enabled` parameter. The same holds for Validation.AssertValidCredits.
- Students.Student.SetStatus: takes a non-null status. Java's `setStatus` stores null without a check; its one caller in the core, `deactivateStudent`, passes INACTIVE.
- Lookups by id, registration number or code take a non-null `string`: `findById`, `findByRegNo`, `deactivateStudent`, `deactivateCourse`, and the ids given to the transcript service. In Java a null key only finds nothing, because `HashMap.get(null)` returns null; that case is not modelled. Null queries to `search`, `findByInstructor`, `findByDepartment` and `findBySemester` are modelled.
- `toString` of Course, Person, Student, Instructor and Enrollment is not modelled: it is debugging text that nothing in the core parses or compares. The `toString` of the value types, `Grade` included, is modelled.
- ImportExport.ImportStudents: parses every line first and constructs the students afterwards. Java constructs each student as it parses its line. The first failing line decides the exception in both, and the students built before it are unreachable in Java.
- ImportExport.ImportCourses: parses every line first, for the same reason.
- ImportExport.ReadLines: lines are split at '\n' only. `Files.lines` also ends a line at '\r' and at "\r\n".

## Findings

| source | as written | input that shows it | evidently intended | confidence | as-written member | corrected member |
|---|---|---|---|---|---|---|
| src/edu/ccrm/domain/Student.java:91-99 | the credits of the graded courses are summed as an `int` (`mapToInt(...).sum()`), which wraps | three courses graded S with 2147483647, 2147483647 and 3 credits (the builder accepts any positive credits): the sum wraps to 1 and the GPA is 30.0, which fails assertValidGPA | the mean of the grade points over the exact credit sum, always within [0, 10] | not executed | GradePointAverage.GpaOverflow | GradePointAverage.GpaExactRange |
| src/edu/ccrm/service/StudentServiceImpl.java:49-53 | updateStudent maps the new registration number to the updated student without checking that another student holds it | students 1 (R1) and 2 (R2), then updateStudent with id 2 and registration number R1: findByRegNo("R1") now gives student 2, and student 1 can no longer be found by its number | the same check addStudent makes: a number held by another student is refused | not executed | StudentServices.StudentRegistry.StaleIndex | StudentServices.StudentRegistry.UpdateStudentChecked |
| src/edu/ccrm/io/ImportExportService.java:136-143 | exportCourses writes the semester with `toString`, the display name | a FALL course exports "Fall Semester", and parseCourseFromCSV's `Semester.valueOf("FALL SEMESTER")` throws IllegalArgumentException, so an exported file does not import | write the constant's name (`name()`), which valueOf reads back | not executed | ImportExport.ExportedCourseRejected | ImportExport.CourseLineWithNameReadsBack |
| src/edu/ccrm/util/RecursiveUtils.java:114-122 | factorial multiplies in `long` without an overflow check | factorial(21) returns -4249290049419214848 instead of 21! | n! or an exception, never a wrong value | not executed | RecursiveUtils.FactorialWrapsAt21 | RecursiveUtils.FactorialCheckedExact |
| src/edu/ccrm/util/RecursiveUtils.java:125-129 | fibonacci allocates `new long[n + 1]`, and n + 1 wraps for the largest `int` | fibonacci(2147483647) throws NegativeArraySizeException, although the guard lets the argument through | a value for every n >= 0, wrapped to a `long` as for smaller n, computed without an array sized n + 1 | not executed | RecursiveUtils.Fibonacci | RecursiveUtils.FibonacciIterative |
| src/edu/ccrm/util/RecursiveUtils.java:153-160 | the public findMax(array, index) checks only for `index == array.length - 1` | findMax(new int[]{1}, 1) recurses with index 2, 3, ... and ends in StackOverflowError | an index outside the array refused with IllegalArgumentException | not executed | RecursiveUtils.FindMaxPastEndNeverEnds | RecursiveUtils.FindMaxChecked |
