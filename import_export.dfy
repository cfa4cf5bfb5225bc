/** ImportExportService at the level of text: the CSV lines the two imports parse
    and the text the three exports write. Reading and writing the files is outside
    this model: an import receives the lines of its file, an export returns the
    text it would write. */
module ImportExport {
  import opened Wrappers
  import opened JavaInt
  import opened JavaString
  import Grades
  import Semesters
  import Names
  import Dates
  import CourseCodes
  import opened People
  import opened Courses
  import opened Students
  import opened CodeOrder

  // ---------------------------------------------------------------- streams

  /** Stream.filter: the elements that satisfy `keep`, in their order. */
  function Filter<T>(xs: seq<T>, keep: T -> bool): (r: seq<T>)
    ensures |r| <= |xs|
  {
    if xs == [] then [] else (if keep(xs[0]) then [xs[0]] else []) + Filter(xs[1..], keep)
  }

  /** Filtering keeps the order: what is kept from a concatenation is what is kept
      from the first part followed by what is kept from the second. */
  lemma {:induction false} FilterAppend<T>(a: seq<T>, b: seq<T>, keep: T -> bool)
    ensures Filter(a + b, keep) == Filter(a, keep) + Filter(b, keep)
  {
    if a == [] {
      assert a + b == b;
    } else {
      var head := if keep(a[0]) then [a[0]] else [];
      assert (a + b)[0] == a[0];
      assert (a + b)[1..] == a[1..] + b;
      FilterAppend(a[1..], b, keep);
      assert Filter(a + b, keep) == head + Filter(a[1..] + b, keep);
      assert head + (Filter(a[1..], keep) + Filter(b, keep))
          == (head + Filter(a[1..], keep)) + Filter(b, keep);
    }
  }

  /** An element is kept exactly when it is there and satisfies `keep`. */
  lemma {:induction false} FilterMembers<T>(xs: seq<T>, keep: T -> bool, x: T)
    ensures x in Filter(xs, keep) <==> x in xs && keep(x)
  {
    if xs != [] {
      FilterMembers(xs[1..], keep, x);
      assert xs == [xs[0]] + xs[1..];
    }
  }

  /** When every element satisfies `keep`, nothing is dropped. */
  lemma {:induction false} FilterKeepsAll<T>(xs: seq<T>, keep: T -> bool)
    requires forall i :: 0 <= i < |xs| ==> keep(xs[i])
    ensures Filter(xs, keep) == xs
  {
    if xs != [] {
      FilterKeepsAll(xs[1..], keep);
    }
  }

  /** `map(parse).toList()` on a sequential stream: the lines are parsed in order
      and the first one that throws ends the whole with its exception. */
  function ParseAll<T>(lines: seq<string>, parse: string -> Result<T>): Result<seq<T>>
  {
    if lines == [] then Ok([])
    else
      match ParseAll(lines[..|lines| - 1], parse)
      case Err(e) => Err(e)
      case Ok(done) =>
        match parse(lines[|lines| - 1])
        case Err(e) => Err(e)
        case Ok(x) => Ok(done + [x])
  }

  /** The result is one value per line, each the parse of its line, or the
      exception of the first line that does not parse. */
  lemma {:induction false} ParseAllMeaning<T>(lines: seq<string>, parse: string -> Result<T>)
    ensures var r := ParseAll(lines, parse);
      r.Ok? ==> |r.value| == |lines| && forall i :: 0 <= i < |lines| ==> parse(lines[i]) == Ok(r.value[i])
    ensures var r := ParseAll(lines, parse);
      r.Err? ==> exists i :: 0 <= i < |lines| && parse(lines[i]) == Err(r.error)
                             && forall j :: 0 <= j < i ==> parse(lines[j]).Ok?
  {
    if lines != [] {
      var n := |lines| - 1;
      var init := lines[..n];
      ParseAllMeaning(init, parse);
      var r0 := ParseAll(init, parse);
      if r0.Err? {
        var i :| 0 <= i < n && parse(init[i]) == Err(r0.error)
                 && forall j :: 0 <= j < i ==> parse(init[j]).Ok?;
        assert lines[i] == init[i];
        assert forall j :: 0 <= j < i ==> lines[j] == init[j];
      } else {
        assert forall j :: 0 <= j < n ==> lines[j] == init[j];
      }
    }
  }

  /** Once a prefix fails, the lines after it are not looked at. */
  lemma {:induction false} ParseAllStopsAtError<T>(lines: seq<string>, k: nat, parse: string -> Result<T>)
    requires k <= |lines| && ParseAll(lines[..k], parse).Err?
    ensures ParseAll(lines, parse) == ParseAll(lines[..k], parse)
    decreases |lines| - k
  {
    if k == |lines| {
      assert lines[..k] == lines;
    } else {
      var init := lines[..|lines| - 1];
      assert init[..k] == lines[..k];
      ParseAllStopsAtError(init, k, parse);
    }
  }

  /** What holds of every value the parser produces holds of every parsed line. */
  lemma {:induction false} ParseAllValues<T>(lines: seq<string>, parse: string -> Result<T>,
                                             ok: T -> bool)
    requires forall line :: parse(line).Ok? ==> ok(parse(line).value)
    ensures var r := ParseAll(lines, parse);
      r.Ok? ==> forall i :: 0 <= i < |r.value| ==> ok(r.value[i])
  {
    if lines != [] {
      ParseAllValues(lines[..|lines| - 1], parse, ok);
    }
  }

  // ---------------------------------------------------------------- lines

  predicate NotBlank(line: string)
  {
    !IsBlank(line)
  }

  /** `skip(1)` then `filter(line -> !line.trim().isEmpty())`: the header line goes
      whatever it holds, and so does every blank line after it. */
  function DataLines(lines: seq<string>): seq<string>
  {
    if lines == [] then [] else Filter(lines[1..], NotBlank)
  }

  /** The lines an import parses are those after the first that are not blank. */
  lemma DataLinesMembers(lines: seq<string>, x: string)
    ensures x in DataLines(lines) <==> |lines| > 1 && x in lines[1..] && !IsBlank(x)
  {
    if lines != [] {
      FilterMembers(lines[1..], NotBlank, x);
    }
  }

  /** The text of a file whose lines are `lines`: each one followed by a line break,
      which is how the exports end every line, the last included. */
  function Text(lines: seq<string>): string
  {
    if lines == [] then "" else lines[0] + "\n" + Text(lines[1..])
  }

  lemma {:induction false} TextAppend(lines: seq<string>, x: string)
    ensures Text(lines + [x]) == Text(lines) + x + "\n"
  {
    if lines != [] {
      assert (lines + [x])[1..] == lines[1..] + [x];
      TextAppend(lines[1..], x);
    } else {
      assert [] + [x] == [x];
    }
  }

  lemma ConcatAssoc<T>(a: seq<T>, b: seq<T>, c: seq<T>)
    ensures (a + b) + c == a + (b + c)
  {
  }

  lemma {:induction false} TextConcat(a: seq<string>, b: seq<string>)
    ensures Text(a + b) == Text(a) + Text(b)
  {
    if a != [] {
      assert (a + b)[1..] == a[1..] + b;
      TextConcat(a[1..], b);
    } else {
      assert [] + b == b;
    }
  }

  /** One more line written after some text. */
  lemma AppendLine(start: string, lines: seq<string>, x: string)
    ensures start + Text(lines) + (x + "\n") == start + Text(lines + [x])
  {
    TextAppend(lines, x);
    ConcatAssoc(start, Text(lines), x + "\n");
    ConcatAssoc(Text(lines), x, "\n");
  }

  /** Lines written after a header, in two runs. */
  lemma TextAfterHeader(header: string, before: seq<string>, more: seq<string>)
    ensures Text([header] + (before + more)) == Text([header] + before) + Text(more)
  {
    TextConcat([header] + before, more);
    ConcatAssoc([header], before, more);
  }

  lemma {:induction false} TextIsJoin(lines: seq<string>)
    requires lines != []
    ensures Text(lines) == Join(lines + [""], '\n')
  {
    assert (lines + [""])[1..] == lines[1..] + [""];
    if |lines| > 1 {
      TextIsJoin(lines[1..]);
    }
  }

  /** Reading a written text back line by line gives the lines again, when no line
      holds a line break and the last one is not empty. */
  lemma ReadLines(lines: seq<string>)
    requires lines != [] && lines[|lines| - 1] != []
    requires forall i :: 0 <= i < |lines| ==> '\n' !in lines[i]
    ensures Split(Text(lines), '\n') == lines
  {
    var fs := lines + [""];
    TextIsJoin(lines);
    JoinHasSep(fs, '\n');
    FieldsOfJoin(fs, '\n');
    assert fs[..|fs| - 1] == lines;
    assert DropTrailingEmpty(fs) == DropTrailingEmpty(lines) == lines;
  }

  /** An export read back by an import: the header is dropped, every line written
      after it is kept, and each parses to the value at its place. */
  lemma CsvReadBack<T>(header: string, body: seq<string>, parse: string -> Result<T>, rows: seq<T>)
    requires header != [] && '\n' !in header && |body| == |rows|
    requires forall i :: 0 <= i < |body| ==>
      '\n' !in body[i] && NotBlank(body[i]) && body[i] != [] && parse(body[i]) == Ok(rows[i])
    ensures ParseAll(DataLines(Split(Text([header] + body), '\n')), parse) == Ok(rows)
  {
    DataLinesOfText(header, body);
    ParseAllOk(body, parse, rows);
  }

  /** The data lines of a written file are the lines written after its header. */
  lemma DataLinesOfText(header: string, body: seq<string>)
    requires header != [] && '\n' !in header
    requires forall i :: 0 <= i < |body| ==> '\n' !in body[i] && NotBlank(body[i]) && body[i] != []
    ensures DataLines(Split(Text([header] + body), '\n')) == body
  {
    var lines := [header] + body;
    assert lines[1..] == body;
    assert forall i :: 0 <= i < |lines| ==> '\n' !in lines[i] by {
      forall i | 0 <= i < |lines|
        ensures '\n' !in lines[i]
      {
        if i > 0 {
          assert lines[i] == body[i - 1];
        }
      }
    }
    ReadLines(lines);
    assert lines[1..] == body;
    FilterKeepsAll(body, NotBlank);
    assert Split(Text(lines), '\n') == lines;
    assert DataLines(lines) == Filter(body, NotBlank);
  }

  /** Lines that each parse give the values they parse to. */
  lemma {:induction false} ParseAllOk<T>(lines: seq<string>, parse: string -> Result<T>, rows: seq<T>)
    requires |lines| == |rows| && forall i :: 0 <= i < |lines| ==> parse(lines[i]) == Ok(rows[i])
    ensures ParseAll(lines, parse) == Ok(rows)
  {
    if lines != [] {
      var n := |lines| - 1;
      ParseAllOk(lines[..n], parse, rows[..n]);
      assert rows == rows[..n] + [rows[n]];
    }
  }

  /** A field that splits neither a CSV line nor a file into lines. */
  predicate Plain(s: string)
  {
    ',' !in s && '\n' !in s
  }

  /** A character that is in no field and is not the separator is not in the line. */
  lemma {:induction false} JoinAvoids(fs: seq<string>, sep: char, c: char)
    requires |fs| >= 1 && c != sep
    requires forall k :: 0 <= k < |fs| ==> c !in fs[k]
    ensures c !in Join(fs, sep)
  {
    if |fs| > 1 {
      JoinAvoids(fs[1..], sep, c);
    }
  }

  /** Plain fields joined with commas split back into themselves, and the line is
      not blank, since it holds a comma, and holds no line break. */
  lemma PlainFieldsRead(fs: seq<string>)
    requires |fs| >= 2 && fs[|fs| - 1] != [] && forall k :: 0 <= k < |fs| ==> Plain(fs[k])
    ensures Split(Join(fs, ','), ',') == fs
    ensures NotBlank(Join(fs, ',')) && '\n' !in Join(fs, ',') && Join(fs, ',') != []
  {
    var s := Join(fs, ',');
    JoinHasSep(fs, ',');
    BlankIffAllTrimmable(s);
    var k :| 0 <= k < |s| && s[k] == ',';
    JoinAvoids(fs, ',', '\n');
    SplitOfJoin(fs, ',');
  }

  lemma SixPlainFieldsRead(a: string, b: string, c: string, d: string, e: string, f: string)
    requires Plain(a) && Plain(b) && Plain(c) && Plain(d) && Plain(e) && Plain(f) && f != []
    ensures var line := Join([a, b, c, d, e, f], ',');
      Split(line, ',') == [a, b, c, d, e, f] && NotBlank(line) && '\n' !in line && line != []
  {
    PlainFieldsRead([a, b, c, d, e, f]);
  }

  lemma SevenPlainFieldsRead(a: string, b: string, c: string, d: string, e: string, f: string,
                             g: string)
    requires Plain(a) && Plain(b) && Plain(c) && Plain(d) && Plain(e) && Plain(f) && Plain(g)
    requires g != []
    ensures var line := Join([a, b, c, d, e, f, g], ',');
      Split(line, ',') == [a, b, c, d, e, f, g] && NotBlank(line) && '\n' !in line && line != []
  {
    PlainFieldsRead([a, b, c, d, e, f, g]);
  }

  lemma DigitsArePlain(s: string)
    requires forall i :: 0 <= i < |s| ==> IsDigit(s[i])
    ensures Plain(s)
  {
  }

  /** `%d` of an int: plain and without surrounding blanks. */
  lemma IntTextPlain(n: int)
    ensures Plain(IntToString(n)) && IsTrimmed(IntToString(n))
  {
    var d := NatToString(if n < 0 then -n else n);
    DigitsArePlain(d);
    assert IsDigit(d[|d| - 1]);
    if n < 0 {
      assert IntToString(n) == "-" + d;
    }
  }

  /** The ISO date text is digits and signs. */
  lemma DateTextPlain(d: Dates.Date)
    requires Dates.Valid(d)
    ensures Plain(Dates.IsoText(d)) && Dates.IsoText(d) != []
  {
    var m := Dates.ZeroPad(d.month, 2);
    var dd := Dates.ZeroPad(d.day, 2);
    DigitsArePlain(m);
    DigitsArePlain(dd);
    if 0 <= d.year <= 9999 {
      DigitsArePlain(Dates.ZeroPad(d.year, 4));
    } else if d.year > 9999 {
      DigitsArePlain(NatToString(d.year));
    } else {
      DigitsArePlain(Dates.ZeroPad(-d.year, 4));
    }
  }

  /** The text of a course code is letters and digits. */
  lemma CodeTextPlain(k: CourseCode)
    ensures Plain(k.code)
  {
    var s := k.code;
    var n := CourseCodes.LeadingLetters(s);
    forall i | 0 <= i < |s|
      ensures s[i] != ',' && s[i] != '\n'
    {
      if i >= n {
        assert IsDigit(s[i]);
      }
    }
  }

  /** It is in normal form, so the constructor rebuilds the same code from it. */
  lemma CodeRebuilt(k: CourseCode)
    ensures CourseCodes.New(Some(Trim(k.code))) == Ok(k)
  {
    var s := k.code;
    CourseCodes.RecogniseIff(s);
    CourseCodes.NormalisedWhenMatching(s);
    CourseCodes.AcceptsNormalForm(s);
  }

  // ---------------------------------------------------------------- students

  /** What parseStudentFromCSV hands to the Student constructor. */
  datatype StudentRow = StudentRow(id: string, regNo: string, name: Names.Name, email: string)

  /** The name field, trimmed, cut at its first space into first and last name;
      the last name is "" when there is no space, and Name then rejects an empty
      part with IllegalArgumentException. */
  function ReadName(field: string): (r: Result<Names.Name>)
    ensures r.Err? ==> r.error == IllegalArgument
    ensures r.Ok? ==> Names.Valid(r.value)
  {
    var nameParts := SplitFirst(field, ' ');
    var last := if |nameParts| > 1 then nameParts[1] else "";
    Names.New(Some(nameParts[0]), Some(last))
  }

  /** A full name whose first part has no space reads back as the same name. */
  lemma ReadFullName(n: Names.Name)
    requires Names.Valid(n) && ' ' !in n.first
    ensures ReadName(Names.FullName(n)) == Ok(n)
  {
    Names.SplitFullName(n);
    Names.NewOfParts(n);
  }

  /** A name of one word leaves the last name empty, and is refused. */
  lemma OneWordNameRejected(field: string)
    requires ' ' !in field
    ensures ReadName(field) == Err(IllegalArgument)
  {
    assert Trim("") == [];
  }

  /** parseStudentFromCSV on the fields `split(",")` gives: fewer than four is an
      IllegalArgumentException; the fields are trimmed and the name field is read
      by ReadName. */
  function StudentRowOf(parts: seq<string>): (r: Result<StudentRow>)
    ensures |parts| < 4 ==> r == Err(IllegalArgument)
    ensures r.Err? ==> r.error == IllegalArgument
    ensures r.Ok? ==>
      Names.Valid(r.value.name) && IsTrimmed(r.value.id)
      && IsTrimmed(r.value.regNo) && IsTrimmed(r.value.email)
  {
    if |parts| < 4 then Err(IllegalArgument)
    else
      match ReadName(Trim(parts[2]))
      case Err(e) => Err(e)
      case Ok(name) => Ok(StudentRow(Trim(parts[0]), Trim(parts[1]), name, Trim(parts[3])))
  }

  /** parseStudentFromCSV up to the constructor call; `split(",")` drops trailing
      empty fields. */
  function ParseStudentRow(line: string): Result<StudentRow>
  {
    StudentRowOf(Split(line, ','))
  }

  /** A line whose fourth field, the email, is empty has only three fields once the
      trailing empty field is dropped, so it is refused as too short. */
  lemma EmptyEmailRejected(id: string, regNo: string, name: string)
    requires ',' !in id && ',' !in regNo && ',' !in name
    ensures ParseStudentRow(Join([id, regNo, name, ""], ',')) == Err(IllegalArgument)
  {
    var fs := [id, regNo, name, ""];
    var line := Join(fs, ',');
    JoinHasSep(fs, ',');
    FieldsOfJoin(fs, ',');
    assert |Split(line, ',')| <= 3;
  }

  /** The student a parsed line makes: the row's fields, ACTIVE, no courses,
      created on `today`. */
  ghost predicate IsImportedStudent(s: Student, row: StudentRow, today: Dates.Date)
    reads s, s.person
  {
    s.Valid() && s.person.id == row.id && s.regNo == row.regNo
    && s.person.Fields() == PersonFields(row.name, row.email, true)
    && s.person.createdDate == today
    && s.status == ACTIVE && s.Rec() == Record(map[], map[])
  }

  /** `new Student(id, name, email, regNo)` on the values of a row. */
  method NewStudent(row: StudentRow, today: Dates.Date) returns (s: Student)
    ensures fresh(s) && fresh(s.person) && IsImportedStudent(s, row, today)
  {
    var r := Student.New(Some(row.id), Some(row.name), Some(row.email), Some(row.regNo), today);
    s := r.value;
  }

  /** parseStudentFromCSV: the row, then the student made from it. */
  method ParseStudent(line: string, today: Dates.Date) returns (r: Result<Student>)
    ensures r.Err? <==> ParseStudentRow(line).Err?
    ensures r.Err? ==> r == Err(IllegalArgument)
    ensures r.Ok? ==>
      fresh(r.value) && fresh(r.value.person)
      && IsImportedStudent(r.value, ParseStudentRow(line).value, today)
  {
    var row := ParseStudentRow(line);
    if row.Err? {
      return Err(row.error);
    }
    var s := NewStudent(row.value, today);
    return Ok(s);
  }

  /** The rows importStudents makes its students from. */
  function StudentRows(lines: seq<string>): Result<seq<StudentRow>>
  {
    ParseAll(DataLines(lines), ParseStudentRow)
  }

  /** importStudents on the lines of the file: every data line becomes a student, in
      order, unless one of them is refused. The stream parses and constructs line
      by line; since construction cannot fail once a line has parsed, parsing every
      line first gives the same students or the same exception. */
  method ImportStudents(lines: seq<string>, today: Dates.Date) returns (r: Result<seq<Student>>)
    ensures r.Err? <==> StudentRows(lines).Err?
    ensures r.Err? ==> r.error == StudentRows(lines).error
    ensures r.Ok? ==> |r.value| == |StudentRows(lines).value|
    ensures r.Ok? ==> forall i :: 0 <= i < |r.value| ==>
      (fresh(r.value[i]) && fresh(r.value[i].person)
       && IsImportedStudent(r.value[i], StudentRows(lines).value[i], today))
  {
    var rows := StudentRows(lines);
    if rows.Err? {
      return Err(rows.error);
    }
    var out := NewStudents(rows.value, today);
    return Ok(out);
  }

  /** One student per row, in order. */
  method NewStudents(rows: seq<StudentRow>, today: Dates.Date) returns (out: seq<Student>)
    ensures |out| == |rows|
    ensures forall i :: 0 <= i < |out| ==>
      (fresh(out[i]) && fresh(out[i].person) && IsImportedStudent(out[i], rows[i], today))
  {
    out := [];
    var i := 0;
    while i < |rows|
      invariant 0 <= i <= |rows| && |out| == i
      invariant forall j :: 0 <= j < i ==>
        (fresh(out[j]) && fresh(out[j].person) && IsImportedStudent(out[j], rows[j], today))
    {
      var s := NewStudent(rows[i], today);
      out := out + [s];
      i := i + 1;
    }
  }

  const StudentHeader: string := "ID,RegNo,Name,Email,Status,CreatedDate"

  /** `%s,%s,%s,%s,%s,%s` for one student: id, registration number, full name,
      email, status name, ISO creation date. */
  function StudentLine(s: Student): string
    reads s, s.person
    requires Dates.Valid(s.person.createdDate)
  {
    Join([s.person.id, s.regNo, Names.FullName(s.person.name), s.person.email,
          StatusName(s.status), Dates.IsoText(s.person.createdDate)], ',')
  }

  predicate DatesValid(xs: seq<Student>)
    reads xs
  {
    forall s :: s in xs ==> Dates.Valid(s.person.createdDate)
  }

  function StudentLines(xs: seq<Student>): seq<string>
    reads xs, set s | s in xs :: s.person
    requires DatesValid(xs)
  {
    if xs == [] then [] else StudentLines(xs[..|xs| - 1]) + [StudentLine(xs[|xs| - 1])]
  }

  lemma StudentLinesSnoc(xs: seq<Student>, i: nat)
    requires i < |xs| && DatesValid(xs)
    ensures StudentLines(xs[..i + 1]) == StudentLines(xs[..i]) + [StudentLine(xs[i])]
  {
    assert xs[..i + 1][..i] == xs[..i];
  }

  /** One line per student, in list order. */
  lemma {:induction false} StudentLinesIndex(xs: seq<Student>)
    requires DatesValid(xs)
    ensures |StudentLines(xs)| == |xs|
    ensures forall i :: 0 <= i < |xs| ==> StudentLines(xs)[i] == StudentLine(xs[i])
  {
    if xs != [] {
      var n := |xs| - 1;
      var init := xs[..n];
      StudentLinesIndex(init);
      var lines := StudentLines(xs);
      assert lines == StudentLines(init) + [StudentLine(xs[n])];
      forall i | 0 <= i < |xs|
        ensures lines[i] == StudentLine(xs[i])
      {
        if i < n {
          assert lines[i] == StudentLines(init)[i] && init[i] == xs[i];
        } else {
          assert i == n;
        }
      }
    }
  }

  /** What exportStudents writes: the header, then one line per student in list order. */
  function StudentsCsv(xs: seq<Student>): string
    reads xs, set s | s in xs :: s.person
    requires DatesValid(xs)
  {
    Text([StudentHeader] + StudentLines(xs))
  }

  /** exportStudents: the StringBuilder, appended to once per student. */
  method ExportStudents(xs: seq<Student>) returns (csv: string)
    requires DatesValid(xs)
    ensures csv == StudentsCsv(xs)
  {
    csv := StudentHeader + "\n";
    var i := 0;
    while i < |xs|
      invariant 0 <= i <= |xs|
      invariant csv == Text([StudentHeader] + StudentLines(xs[..i]))
    {
      var line := StudentLine(xs[i]);
      StudentLinesSnoc(xs, i);
      TextAfterHeader(StudentHeader, StudentLines(xs[..i]), [line]);
      csv := csv + Text([line]);
      i := i + 1;
    }
    assert xs[..i] == xs;
  }

  /** The fields an exported student should read back as. */
  function ExportedRow(s: Student): StudentRow
    reads s, s.person
  {
    StudentRow(s.person.id, s.regNo, s.person.name, s.person.email)
  }

  /** A student whose line reads back: no field holds a comma or a line break (there
      is no quoting), the id, registration number and email carry no surrounding
      blanks (they are trimmed on the way in), and the first name holds no space
      (the name is cut at its first space). */
  predicate Exportable(s: Student)
    reads s, s.person
  {
    var n := s.person.name;
    Dates.Valid(s.person.createdDate) && Names.Valid(n) && ' ' !in n.first
    && Plain(s.person.id) && Plain(s.regNo) && Plain(s.person.email)
    && Plain(n.first) && Plain(n.last)
    && IsTrimmed(s.person.id) && IsTrimmed(s.regNo) && IsTrimmed(s.person.email)
  }

  lemma StatusNamePlain(st: StudentStatus)
    ensures Plain(StatusName(st))
  {
  }

  lemma FullNamePlain(n: Names.Name)
    requires Plain(n.first) && Plain(n.last)
    ensures Plain(Names.FullName(n))
  {
  }

  /** Six fields as exportStudents writes them read as their row. */
  lemma StudentFieldsRead(id: string, regNo: string, full: string, email: string,
                          status: string, date: string, n: Names.Name)
    requires IsTrimmed(id) && IsTrimmed(regNo) && IsTrimmed(email) && IsTrimmed(full)
    requires ReadName(full) == Ok(n)
    ensures StudentRowOf([id, regNo, full, email, status, date]) == Ok(StudentRow(id, regNo, n, email))
  {
    TrimOfTrimmed(id);
    TrimOfTrimmed(regNo);
    TrimOfTrimmed(email);
    TrimOfTrimmed(full);
  }

  /** A line written by exportStudents parses back to the same id, registration
      number, name and email. */
  lemma StudentLineReadsBack(s: Student)
    requires Exportable(s)
    ensures ParseStudentRow(StudentLine(s)) == Ok(ExportedRow(s))
    ensures NotBlank(StudentLine(s)) && '\n' !in StudentLine(s) && StudentLine(s) != []
  {
    var p := s.person;
    var full := Names.FullName(p.name);
    var status := StatusName(s.status);
    var date := Dates.IsoText(p.createdDate);
    DateTextPlain(p.createdDate);
    StatusNamePlain(s.status);
    FullNamePlain(p.name);
    SixPlainFieldsRead(p.id, s.regNo, full, p.email, status, date);
    Names.FullNameShape(p.name);
    ReadFullName(p.name);
    StudentFieldsRead(p.id, s.regNo, full, p.email, status, date, p.name);
  }

  /** The rows the students should read back as, in list order. */
  function ExportedRows(xs: seq<Student>): seq<StudentRow>
    reads xs, set s | s in xs :: s.person
  {
    if xs == [] then [] else ExportedRows(xs[..|xs| - 1]) + [ExportedRow(xs[|xs| - 1])]
  }

  /** Every line exportStudents writes for the list reads back as its student. */
  lemma {:induction false} StudentLinesReadBack(xs: seq<Student>)
    requires DatesValid(xs) && forall i :: 0 <= i < |xs| ==> Exportable(xs[i])
    ensures |StudentLines(xs)| == |xs| == |ExportedRows(xs)|
    ensures forall i :: 0 <= i < |xs| ==>
      var line := StudentLines(xs)[i];
      '\n' !in line && NotBlank(line) && line != [] && ParseStudentRow(line) == Ok(ExportedRows(xs)[i])
      && ExportedRows(xs)[i] == ExportedRow(xs[i])
  {
    if xs != [] {
      var n := |xs| - 1;
      var init := xs[..n];
      StudentLinesReadBack(init);
      StudentLineReadsBack(xs[n]);
      var lines, rows := StudentLines(xs), ExportedRows(xs);
      assert lines == StudentLines(init) + [StudentLine(xs[n])];
      assert rows == ExportedRows(init) + [ExportedRow(xs[n])];
      forall i | 0 <= i < |xs|
        ensures '\n' !in lines[i] && NotBlank(lines[i]) && lines[i] != []
        ensures ParseStudentRow(lines[i]) == Ok(rows[i]) && rows[i] == ExportedRow(xs[i])
      {
        if i < n {
          assert lines[i] == StudentLines(init)[i];
          assert rows[i] == ExportedRows(init)[i];
          assert init[i] == xs[i];
          assert ExportedRows(init)[i] == ExportedRow(init[i]);
          assert rows[i] == ExportedRow(xs[i]);
        } else {
          assert i == n;
          assert rows[i] == ExportedRow(xs[n]);
          assert rows[i] == ExportedRow(xs[i]);
        }
      }
    }
  }

  lemma StudentHeaderOneLine()
    ensures StudentHeader != [] && '\n' !in StudentHeader
  {
  }

  /** The whole file: read back line by line, filtered and parsed as importStudents
      does, the text exportStudents writes gives one row per student, in order,
      each with the student's id, registration number, name and email. */
  lemma StudentsReadBack(xs: seq<Student>)
    requires DatesValid(xs) && forall i :: 0 <= i < |xs| ==> Exportable(xs[i])
    ensures var r := StudentRows(Split(StudentsCsv(xs), '\n'));
      r.Ok? && |r.value| == |xs| && forall i :: 0 <= i < |xs| ==> r.value[i] == ExportedRow(xs[i])
  {
    StudentLinesReadBack(xs);
    StudentHeaderOneLine();
    CsvReadBack(StudentHeader, StudentLines(xs), ParseStudentRow, ExportedRows(xs));
  }

  // ---------------------------------------------------------------- courses

  /** The values parseCourseFromCSV reads from a line. */
  datatype CourseRow = CourseRow(
    code: CourseCode, title: string, credits: Int32, instructor: string,
    semester: Semesters.Semester, department: string)

  /** parseCourseFromCSV up to the builder, on the fields `split(",")` gives, step
      by step as the code runs: fewer than six fields, then the course code, then
      Integer.parseInt of the credits, then Semester.valueOf of the upper-cased
      semester field. Every field is trimmed. */
  function CourseRowOf(parts: seq<string>): (r: Result<CourseRow>)
    ensures |parts| < 6 ==> r == Err(IllegalArgument)
    ensures r.Err? ==> r.error == IllegalArgument || r.error == NumberFormat
    ensures r.Ok? ==> IsTrimmed(r.value.title) && IsTrimmed(r.value.instructor)
                      && IsTrimmed(r.value.department)
  {
    if |parts| < 6 then Err(IllegalArgument)
    else
      match CourseCodes.New(Some(Trim(parts[0])))
      case Err(e) => Err(e)
      case Ok(code) =>
        match ParseInt(Trim(parts[2]))
        case Err(e) => Err(e)
        case Ok(credits) =>
          match Semesters.ValueOf(ToUpper(Trim(parts[4])))
          case Err(e) => Err(e)
          case Ok(semester) =>
            Ok(CourseRow(code, Trim(parts[1]), credits, Trim(parts[3]), semester, Trim(parts[5])))
  }

  function ReadCourse(line: string): Result<CourseRow>
  {
    CourseRowOf(Split(line, ','))
  }

  /** The whole of parseCourseFromCSV: the builder then refuses credits that are
      not positive with IllegalArgumentException; instructor, semester and
      department are never null here, so build() does not throw. */
  function ParseCourseRow(line: string): (r: Result<CourseRow>)
    ensures r.Err? ==> r.error == IllegalArgument || r.error == NumberFormat
    ensures r.Ok? ==> r.value.credits > 0 && ReadCourse(line) == r
  {
    match ReadCourse(line)
    case Err(e) => Err(e)
    case Ok(row) => if row.credits <= 0 then Err(IllegalArgument) else Ok(row)
  }

  /** The course a parsed line makes: the row's values, active, created on `today`. */
  ghost predicate IsImportedCourse(c: Course, row: CourseRow, today: Dates.Date)
    reads c
  {
    c.code == row.code && c.createdDate == today && c.title == row.title
    && c.credits == row.credits && c.instructor == row.instructor
    && c.semester == row.semester && c.department == row.department && c.active
  }

  /** The Course.Builder chain on the values of a row: withCredits refuses credits
      that are not positive; instructor, semester and department are never null
      here, so build() does not throw. */
  method BuildCourse(row: CourseRow, today: Dates.Date) returns (r: Result<Course>)
    ensures r.Err? <==> row.credits <= 0
    ensures r.Err? ==> r.error == IllegalArgument
    ensures r.Ok? ==> fresh(r.value) && IsImportedCourse(r.value, row, today)
  {
    var b := CourseBuilder.New(Some(row.code), Some(row.title));
    var builder := b.value;
    var o := builder.WithCredits(row.credits);
    if o.Fail? {
      return Err(o.error);
    }
    o := builder.WithInstructor(Some(row.instructor));
    o := builder.WithSemester(Some(row.semester));
    o := builder.WithDepartment(Some(row.department));
    r := builder.Build(today);
  }

  /** parseCourseFromCSV: the values read from the line, then the builder. */
  method ParseCourse(line: string, today: Dates.Date) returns (r: Result<Course>)
    ensures r.Err? <==> ParseCourseRow(line).Err?
    ensures r.Err? ==> r.error == ParseCourseRow(line).error
    ensures r.Ok? ==> fresh(r.value) && IsImportedCourse(r.value, ParseCourseRow(line).value, today)
  {
    var read := ReadCourse(line);
    if read.Err? {
      return Err(read.error);
    }
    r := BuildCourse(read.value, today);
  }

  /** The rows importCourses makes its courses from. */
  function CourseRows(lines: seq<string>): Result<seq<CourseRow>>
  {
    ParseAll(DataLines(lines), ParseCourseRow)
  }

  /** importCourses on the lines of the file, parsed first and built after, as
      importStudents. */
  method ImportCourses(lines: seq<string>, today: Dates.Date) returns (r: Result<seq<Course>>)
    ensures r.Err? <==> CourseRows(lines).Err?
    ensures r.Err? ==> r.error == CourseRows(lines).error
    ensures r.Ok? ==> |r.value| == |CourseRows(lines).value|
    ensures r.Ok? ==> forall i :: 0 <= i < |r.value| ==>
      (fresh(r.value[i]) && IsImportedCourse(r.value[i], CourseRows(lines).value[i], today))
  {
    var rows := CourseRows(lines);
    if rows.Err? {
      return Err(rows.error);
    }
    ParseAllValues(DataLines(lines), ParseCourseRow, (row: CourseRow) => row.credits > 0);
    var out := BuildCourses(rows.value, today);
    return Ok(out);
  }

  /** One course per row, in order, for rows whose credits are positive. */
  method BuildCourses(rows: seq<CourseRow>, today: Dates.Date) returns (out: seq<Course>)
    requires forall i :: 0 <= i < |rows| ==> rows[i].credits > 0
    ensures |out| == |rows|
    ensures forall i :: 0 <= i < |out| ==> (fresh(out[i]) && IsImportedCourse(out[i], rows[i], today))
  {
    out := [];
    var i := 0;
    while i < |rows|
      invariant 0 <= i <= |rows| && |out| == i
      invariant forall j :: 0 <= j < i ==> (fresh(out[j]) && IsImportedCourse(out[j], rows[j], today))
    {
      var c := BuildCourse(rows[i], today);
      out := out + [c.value];
      i := i + 1;
    }
  }

  const CourseHeader: string := "Code,Title,Credits,Instructor,Semester,Department,CreatedDate"

  /** `%s,%s,%d,%s,%s,%s,%s` for one course, with the given text in the semester's
      place. */
  function CourseLineAs(c: Course, semester: string): string
    reads c
    requires Dates.Valid(c.createdDate)
  {
    Join([c.code.code, c.title, IntToString(c.credits), c.instructor, semester, c.department,
          Dates.IsoText(c.createdDate)], ',')
  }

  /** exportCourses prints the semester by toString, which is its display name. */
  function CourseLine(c: Course): string
    reads c
    requires Dates.Valid(c.createdDate)
  {
    CourseLineAs(c, Semesters.DisplayName(c.semester))
  }

  predicate CourseDatesValid(xs: seq<Course>)
    reads xs
  {
    forall c :: c in xs ==> Dates.Valid(c.createdDate)
  }

  function CourseLines(xs: seq<Course>): seq<string>
    reads xs
    requires CourseDatesValid(xs)
  {
    if xs == [] then [] else CourseLines(xs[..|xs| - 1]) + [CourseLine(xs[|xs| - 1])]
  }

  lemma CourseLinesSnoc(xs: seq<Course>, i: nat)
    requires i < |xs| && CourseDatesValid(xs)
    ensures CourseLines(xs[..i + 1]) == CourseLines(xs[..i]) + [CourseLine(xs[i])]
  {
    assert xs[..i + 1][..i] == xs[..i];
  }

  /** One line per course, in list order. */
  lemma {:induction false} CourseLinesIndex(xs: seq<Course>)
    requires CourseDatesValid(xs)
    ensures |CourseLines(xs)| == |xs|
    ensures forall i :: 0 <= i < |xs| ==> CourseLines(xs)[i] == CourseLine(xs[i])
  {
    if xs != [] {
      var n := |xs| - 1;
      var init := xs[..n];
      CourseLinesIndex(init);
      var lines := CourseLines(xs);
      assert lines == CourseLines(init) + [CourseLine(xs[n])];
      forall i | 0 <= i < |xs|
        ensures lines[i] == CourseLine(xs[i])
      {
        if i < n {
          assert lines[i] == CourseLines(init)[i] && init[i] == xs[i];
        } else {
          assert i == n;
        }
      }
    }
  }

  /** What exportCourses writes. */
  function CoursesCsv(xs: seq<Course>): string
    reads xs
    requires CourseDatesValid(xs)
  {
    Text([CourseHeader] + CourseLines(xs))
  }

  /** exportCourses. */
  method ExportCourses(xs: seq<Course>) returns (csv: string)
    requires CourseDatesValid(xs)
    ensures csv == CoursesCsv(xs)
  {
    csv := CourseHeader + "\n";
    var i := 0;
    while i < |xs|
      invariant 0 <= i <= |xs|
      invariant csv == Text([CourseHeader] + CourseLines(xs[..i]))
    {
      var line := CourseLine(xs[i]);
      CourseLinesSnoc(xs, i);
      TextAfterHeader(CourseHeader, CourseLines(xs[..i]), [line]);
      csv := csv + Text([line]);
      i := i + 1;
    }
    assert xs[..i] == xs;
  }

  /** valueOf is given the upper-cased display name, which holds a space that no
      constant's identifier has. */
  lemma DisplayNameRejected(s: Semesters.Semester)
    ensures Semesters.ValueOf(ToUpper(Trim(Semesters.DisplayName(s)))) == Err(IllegalArgument)
  {
    var d := Semesters.DisplayName(s);
    assert IsTrimmed(d);
    TrimOfTrimmed(d);
    var u := ToUpper(d);
    var k := if s == Semesters.FALL then 4 else 6;
    assert d[k] == ' ' && u[k] == UpperChar(d[k]);
    assert ' ' in u;
  }

  lemma SemesterTextPlain(s: Semesters.Semester)
    ensures Plain(Semesters.DisplayName(s)) && Plain(Semesters.Name(s))
  {
    var d, n := Semesters.DisplayName(s), Semesters.Name(s);
    assert forall i :: 0 <= i < |d| ==> d[i] == ' ' || 'A' <= d[i] <= 'z';
    assert forall i :: 0 <= i < |n| ==> 'A' <= n[i] <= 'Z';
  }

  /** The text fields of a course line other than the semester are plain when its
      title, instructor and department are, so the line splits into its seven
      fields. */
  lemma CourseLineSplits(c: Course, semester: string)
    requires Dates.Valid(c.createdDate) && Plain(semester)
    requires Plain(c.title) && Plain(c.instructor) && Plain(c.department)
    ensures Split(CourseLineAs(c, semester), ',')
         == [c.code.code, c.title, IntToString(c.credits), c.instructor, semester, c.department,
             Dates.IsoText(c.createdDate)]
  {
    CodeTextPlain(c.code);
    IntTextPlain(c.credits);
    DateTextPlain(c.createdDate);
    SevenPlainFieldsRead(c.code.code, c.title, IntToString(c.credits), c.instructor, semester,
                         c.department, Dates.IsoText(c.createdDate));
  }

  /** Seven fields as exportCourses writes them read as the code, the credits and
      the upper-cased semester field: only valueOf can still refuse them. */
  lemma CourseFieldsRead(code: CourseCode, title: string, credits: Int32, instructor: string,
                         semester: string, department: string, date: string)
    ensures var v := Semesters.ValueOf(ToUpper(Trim(semester)));
      CourseRowOf([code.code, title, IntToString(credits), instructor, semester, department, date])
      == if v.Err? then Err(v.error)
         else Ok(CourseRow(code, Trim(title), credits, Trim(instructor), v.value, Trim(department)))
  {
    var text := IntToString(credits);
    var parts := [code.code, title, text, instructor, semester, department, date];
    assert parts[0] == code.code && parts[2] == text;
    CodeRebuilt(code);
    IntTextPlain(credits);
    TrimOfTrimmed(text);
    ParseIntOfIntToString(credits);
    CourseRowOfParsed(parts, code, credits);
  }

  /** Once the code and the credits have read, only valueOf can still refuse a row. */
  lemma CourseRowOfParsed(parts: seq<string>, code: CourseCode, credits: Int32)
    requires |parts| >= 6
    requires CourseCodes.New(Some(Trim(parts[0]))) == Ok(code) && ParseInt(Trim(parts[2])) == Ok(credits)
    ensures var v := Semesters.ValueOf(ToUpper(Trim(parts[4])));
      CourseRowOf(parts)
      == if v.Err? then Err(v.error)
         else Ok(CourseRow(code, Trim(parts[1]), credits, Trim(parts[3]), v.value, Trim(parts[5])))
  {
  }

  /** An exported course does not import again: its code and credits read back,
      but the semester field holds the display name, which valueOf refuses. */
  lemma ExportedCourseRejected(c: Course)
    requires Dates.Valid(c.createdDate)
    requires Plain(c.title) && Plain(c.instructor) && Plain(c.department)
    ensures ParseCourseRow(CourseLine(c)) == Err(IllegalArgument)
  {
    var d := Semesters.DisplayName(c.semester);
    SemesterTextPlain(c.semester);
    CourseLineSplits(c, d);
    DisplayNameRejected(c.semester);
    CourseFieldsRead(c.code, c.title, c.credits, c.instructor, d, c.department,
                     Dates.IsoText(c.createdDate));
  }

  /** A constant's identifier is upper case and carries no blanks. */
  lemma NameUpper(s: Semesters.Semester)
    ensures IsTrimmed(Semesters.Name(s)) && ToUpper(Semesters.Name(s)) == Semesters.Name(s)
  {
    var n := Semesters.Name(s);
    assert forall i :: 0 <= i < |n| ==> 'A' <= n[i] <= 'Z';
    assert ToUpper(n) == n;
  }

  /** The line exportCourses evidently means to write: the semester by its
      identifier, which is what valueOf reads. */
  function CourseLineByName(c: Course): string
    reads c
    requires Dates.Valid(c.createdDate)
  {
    CourseLineAs(c, Semesters.Name(c.semester))
  }

  /** Written with the semester's identifier instead, the line imports to the same
      course values. */
  lemma CourseLineWithNameReadsBack(c: Course)
    requires Dates.Valid(c.createdDate)
    requires Plain(c.title) && Plain(c.instructor) && Plain(c.department)
    requires IsTrimmed(c.title) && IsTrimmed(c.instructor) && IsTrimmed(c.department)
    ensures ParseCourseRow(CourseLineByName(c))
            == Ok(CourseRow(c.code, c.title, c.credits, c.instructor, c.semester, c.department))
  {
    var n := Semesters.Name(c.semester);
    SemesterTextPlain(c.semester);
    CourseLineSplits(c, n);
    NameUpper(c.semester);
    TrimOfTrimmed(n);
    Semesters.ValueOfName(c.semester);
    TrimOfTrimmed(c.title);
    TrimOfTrimmed(c.instructor);
    TrimOfTrimmed(c.department);
    CourseFieldsRead(c.code, c.title, c.credits, c.instructor, n, c.department,
                     Dates.IsoText(c.createdDate));
  }

  // ---------------------------------------------------------------- enrollments

  const EnrollmentHeader: string := "StudentID,StudentName,CourseCode,CourseTitle,Grade,GradePoints"

  /** `%s,%s,%s,%s,%s,%.1f` for one graded course of a student: the student's id and
      full name, the code and current title of the course, the grade's letter and
      its points. */
  function GradeLine(s: Student, k: CourseCode): string
    requires k in s.grades
    reads s, s.person, s.grades[k].course
  {
    var e := s.grades[k];
    Join([s.person.id, Names.FullName(s.person.name), e.course.code.code, e.course.title,
          Grades.Name(e.grade), Grades.PointsText(e.grade)], ',')
  }

  function GradeLines(s: Student, codes: seq<CourseCode>): seq<string>
    reads s, s.person, set k | k in codes && k in s.grades :: s.grades[k].course
    requires forall k :: k in codes ==> k in s.grades
  {
    if codes == [] then []
    else GradeLines(s, codes[..|codes| - 1]) + [GradeLine(s, codes[|codes| - 1])]
  }

  lemma GradeLinesSnoc(s: Student, codes: seq<CourseCode>, j: nat)
    requires j < |codes| && forall k :: k in codes ==> k in s.grades
    ensures GradeLines(s, codes[..j + 1]) == GradeLines(s, codes[..j]) + [GradeLine(s, codes[j])]
  {
    assert codes[..j + 1][..j] == codes[..j];
  }

  /** One line per code, in the order of the codes. */
  lemma {:induction false} GradeLinesIndex(s: Student, codes: seq<CourseCode>)
    requires forall k :: k in codes ==> k in s.grades
    ensures |GradeLines(s, codes)| == |codes|
    ensures forall j :: 0 <= j < |codes| ==> GradeLines(s, codes)[j] == GradeLine(s, codes[j])
  {
    if codes != [] {
      var n := |codes| - 1;
      var init := codes[..n];
      GradeLinesIndex(s, init);
      var lines := GradeLines(s, codes);
      assert lines == GradeLines(s, init) + [GradeLine(s, codes[n])];
      forall j | 0 <= j < |codes|
        ensures lines[j] == GradeLine(s, codes[j])
      {
        if j < n {
          assert lines[j] == GradeLines(s, init)[j] && init[j] == codes[j];
        } else {
          assert j == n;
        }
      }
    }
  }

  /** `codes` visits each key of `keys` exactly once, in some order: what iterating a
      copy of a student's grade map yields. The order of a HashMap is not specified,
      so the export takes it as a parameter. */
  ghost predicate Lists(codes: seq<CourseCode>, keys: set<CourseCode>)
  {
    |codes| == |keys| && forall k :: k in codes <==> k in keys
  }

  /** One listing of the grades per student. */
  ghost predicate Listings(xs: seq<Student>, ls: seq<seq<CourseCode>>)
    reads xs
  {
    |ls| == |xs| && forall i :: 0 <= i < |xs| ==> Lists(ls[i], xs[i].grades.Keys)
  }

  lemma ListingsPrefix(xs: seq<Student>, ls: seq<seq<CourseCode>>, n: nat)
    requires Listings(xs, ls) && n <= |xs|
    ensures Listings(xs[..n], ls[..n])
  {
    forall i | 0 <= i < n
      ensures Lists(ls[..n][i], xs[..n][i].grades.Keys)
    {
      assert ls[..n][i] == ls[i] && xs[..n][i] == xs[i];
    }
  }

  /** One line per graded course of each student, student by student, each student's
      lines in the order of its listing. */
  function EnrollmentLines(xs: seq<Student>, ls: seq<seq<CourseCode>>): seq<string>
    requires Listings(xs, ls)
    reads xs, set s | s in xs :: s.person, set s, k | s in xs && k in s.grades :: s.grades[k].course
    decreases |xs|
  {
    if xs == [] then []
    else
      var n := |xs| - 1;
      ListingsPrefix(xs, ls, n);
      EnrollmentLines(xs[..n], ls[..n]) + GradeLines(xs[n], ls[n])
  }

  lemma EnrollmentLinesSnoc(xs: seq<Student>, ls: seq<seq<CourseCode>>, i: nat)
    requires Listings(xs, ls) && i < |xs|
    ensures Listings(xs[..i], ls[..i]) && Listings(xs[..i + 1], ls[..i + 1])
    ensures EnrollmentLines(xs[..i + 1], ls[..i + 1]) == EnrollmentLines(xs[..i], ls[..i]) + GradeLines(xs[i], ls[i])
  {
    ListingsPrefix(xs, ls, i);
    ListingsPrefix(xs, ls, i + 1);
    assert xs[..i + 1][..i] == xs[..i] && ls[..i + 1][..i] == ls[..i];
  }

  lemma EnrollmentLinesLast(xs: seq<Student>, ls: seq<seq<CourseCode>>)
    requires Listings(xs, ls) && xs != []
    ensures Listings(xs[..|xs| - 1], ls[..|xs| - 1])
    ensures EnrollmentLines(xs, ls) ==
      EnrollmentLines(xs[..|xs| - 1], ls[..|xs| - 1]) + GradeLines(xs[|xs| - 1], ls[|xs| - 1])
  {
    ListingsPrefix(xs, ls, |xs| - 1);
  }

  /** What exportEnrollments writes, given the order in which each student's grade
      map is visited. */
  function EnrollmentsCsv(xs: seq<Student>, ls: seq<seq<CourseCode>>): string
    requires Listings(xs, ls)
    reads xs, set s | s in xs :: s.person, set s, k | s in xs && k in s.grades :: s.grades[k].course
  {
    Text([EnrollmentHeader] + EnrollmentLines(xs, ls))
  }

  /** exportEnrollments: for each student, for each of its grades in the order its
      grade map is visited (`ls[i]` for the i-th student), one line. */
  method ExportEnrollments(xs: seq<Student>, ls: seq<seq<CourseCode>>) returns (csv: string)
    requires Listings(xs, ls)
    ensures csv == EnrollmentsCsv(xs, ls)
  {
    csv := EnrollmentHeader + "\n";
    var i := 0;
    ListingsPrefix(xs, ls, 0);
    while i < |xs|
      invariant 0 <= i <= |xs| && Listings(xs[..i], ls[..i])
      invariant csv == Text([EnrollmentHeader] + EnrollmentLines(xs[..i], ls[..i]))
    {
      var s := xs[i];
      var codes := ls[i];
      ghost var start := csv;
      var j := 0;
      assert codes[..0] == [];
      while j < |codes|
        invariant 0 <= j <= |codes|
        invariant start == Text([EnrollmentHeader] + EnrollmentLines(xs[..i], ls[..i]))
        invariant csv == start + Text(GradeLines(s, codes[..j]))
      {
        var line := GradeLine(s, codes[j]);
        assert csv + (line + "\n") == start + Text(GradeLines(s, codes[..j + 1])) by {
          GradeLinesSnoc(s, codes, j);
          AppendLine(start, GradeLines(s, codes[..j]), line);
        }
        csv := csv + (line + "\n");
        j := j + 1;
      }
      assert Listings(xs[..i + 1], ls[..i + 1]) &&
        csv == Text([EnrollmentHeader] + EnrollmentLines(xs[..i + 1], ls[..i + 1])) by {
        assert codes[..j] == codes;
        EnrollmentLinesSnoc(xs, ls, i);
        TextAfterHeader(EnrollmentHeader, EnrollmentLines(xs[..i], ls[..i]), GradeLines(s, codes));
      }
      i := i + 1;
    }
    assert xs[..i] == xs && ls[..i] == ls;
  }

  /** The number of grades the students hold together. */
  function GradeCount(xs: seq<Student>): nat
    reads xs
  {
    if xs == [] then 0 else GradeCount(xs[..|xs| - 1]) + |xs[|xs| - 1].grades|
  }

  /** Where an element of a sequence stands. */
  lemma Position<T>(xs: seq<T>, x: T) returns (j: nat)
    requires x in xs
    ensures j < |xs| && xs[j] == x
  {
    j :| j < |xs| && xs[j] == x;
  }

  /** A student's lines: exactly one per grade, each that of a graded course,
      whatever the order in which the grades are visited. */
  lemma StudentGradeLinesExactly(s: Student, codes: seq<CourseCode>, line: string)
    requires Lists(codes, s.grades.Keys)
    ensures line in GradeLines(s, codes) <==> exists k :: k in s.grades && line == GradeLine(s, k)
  {
    var lines := GradeLines(s, codes);
    GradeLinesIndex(s, codes);
    if line in lines {
      var j := Position(lines, line);
      var k := codes[j];
      assert k in s.grades && line == GradeLine(s, k);
    }
    if exists k :: k in s.grades && line == GradeLine(s, k) {
      var k :| k in s.grades && line == GradeLine(s, k);
      var j := Position(codes, k);
      assert lines[j] == line;
    }
  }

  /** One line per grade of the student. */
  lemma StudentGradeLineCount(s: Student, codes: seq<CourseCode>)
    requires Lists(codes, s.grades.Keys)
    ensures |GradeLines(s, codes)| == |s.grades|
  {
    GradeLinesIndex(s, codes);
  }

  /** exportEnrollments writes exactly one line per grade, in any visiting order:
      enrolled courses without a grade produce none. */
  lemma {:induction false} EnrollmentLineCount(xs: seq<Student>, ls: seq<seq<CourseCode>>)
    requires Listings(xs, ls)
    ensures |EnrollmentLines(xs, ls)| == GradeCount(xs)
  {
    if xs != [] {
      var n := |xs| - 1;
      EnrollmentLinesLast(xs, ls);
      EnrollmentLineCount(xs[..n], ls[..n]);
      StudentGradeLineCount(xs[n], ls[n]);
    }
  }

  /** Each line written is that of one graded course of one student. */
  lemma {:induction false} EnrollmentLineOf(xs: seq<Student>, ls: seq<seq<CourseCode>>, line: string)
      returns (i: nat, k: CourseCode)
    requires Listings(xs, ls) && line in EnrollmentLines(xs, ls)
    ensures i < |xs| && k in xs[i].grades && line == GradeLine(xs[i], k)
  {
    var n := |xs| - 1;
    var init := xs[..n];
    var last := xs[n];
    EnrollmentLinesLast(xs, ls);
    if line in EnrollmentLines(init, ls[..n]) {
      i, k := EnrollmentLineOf(init, ls[..n], line);
      assert init[i] == xs[i];
    } else {
      StudentGradeLinesExactly(last, ls[n], line);
      k :| k in last.grades && line == GradeLine(last, k);
      i := n;
    }
  }

  /** The line of every graded course of every student is written. */
  lemma {:induction false} GradeLineWritten(xs: seq<Student>, ls: seq<seq<CourseCode>>, i: nat, k: CourseCode)
    requires Listings(xs, ls) && i < |xs| && k in xs[i].grades
    ensures GradeLine(xs[i], k) in EnrollmentLines(xs, ls)
  {
    var n := |xs| - 1;
    var init := xs[..n];
    var last := xs[n];
    EnrollmentLinesLast(xs, ls);
    if i < n {
      assert init[i] == xs[i];
      GradeLineWritten(init, ls[..n], i, k);
    } else {
      assert i == n;
      StudentGradeLinesExactly(last, ls[n], GradeLine(last, k));
    }
  }

  /** The lines written are exactly those of the graded courses of the students,
      one per grade, whatever order the grade maps are visited in. */
  lemma EnrollmentLinesExactly(xs: seq<Student>, ls: seq<seq<CourseCode>>, line: string)
    requires Listings(xs, ls)
    ensures |EnrollmentLines(xs, ls)| == GradeCount(xs)
    ensures line in EnrollmentLines(xs, ls) <==>
      exists i, k :: 0 <= i < |xs| && k in xs[i].grades && line == GradeLine(xs[i], k)
  {
    EnrollmentLineCount(xs, ls);
    if line in EnrollmentLines(xs, ls) {
      var i, k := EnrollmentLineOf(xs, ls, line);
    }
    if exists i, k :: 0 <= i < |xs| && k in xs[i].grades && line == GradeLine(xs[i], k) {
      var i, k :| 0 <= i < |xs| && k in xs[i].grades && line == GradeLine(xs[i], k);
      GradeLineWritten(xs, ls, i, k);
    }
  }
}
