/** The pure part of the `transcript-parser` edge function: the text of each
    transcript page is split into lines, the `COMP` lines that match the
    course-line pattern become (course code, mark) entries, the entries of
    all pages are gathered in order into one record where a later entry for
    the same code wins, and that record is projected onto the course keys
    the student's stored transcript already has. */
module TranscriptParser {
  import opened Skills
  import Text

  // ---------------------------------------------------------------------
  // Character classes of the pattern
  // ---------------------------------------------------------------------

  /** `[A-Z]`. */
  predicate IsUpper(c: char) {
    'A' <= c <= 'Z'
  }

  /** `\d`: an ASCII digit. */
  predicate IsDigit(c: char) {
    '0' <= c <= '9'
  }

  /** A line terminator, the characters `.` does not match. */
  predicate IsLineTerminator(c: char) {
    c == '\n' || c == '\r' || c == '\U{2028}' || c == '\U{2029}'
  }

  /** `\s`: the white space and line terminator characters of JavaScript. */
  predicate IsSpace(c: char) {
    || c == '\t' || c == '\U{000B}' || c == '\U{000C}' || c == ' ' || c == '\U{00A0}'
    || c == '\U{1680}' || ('\U{2000}' <= c <= '\U{200A}') || c == '\U{202F}' || c == '\U{205F}'
    || c == '\U{3000}' || c == '\U{FEFF}' || IsLineTerminator(c)
  }

  predicate AllUpper(s: string) {
    forall i :: 0 <= i < |s| ==> IsUpper(s[i])
  }

  predicate AllDigits(s: string) {
    forall i :: 0 <= i < |s| ==> IsDigit(s[i])
  }

  /** The text `.*` may span. */
  predicate NoTerminator(s: string) {
    forall i :: 0 <= i < |s| ==> !IsLineTerminator(s[i])
  }

  function DigitValue(c: char): int
    requires IsDigit(c)
  {
    c as int - '0' as int
  }

  /** A number below 100 written as two digits, leading zero included. */
  function TwoDigits(m: int): (s: string)
    requires 0 <= m < 100
    ensures |s| == 2 && AllDigits(s)
  {
    [(('0' as int) + m / 10) as char, (('0' as int) + m % 10) as char]
  }

  // ---------------------------------------------------------------------
  // One line
  // ---------------------------------------------------------------------

  /** An element of `courseArray`. */
  datatype Course = Course(courseCode: string, mark: int)

  /** `line.startsWith('COMP')`. */
  predicate StartsWithComp(line: string) {
    |line| >= 4 && line[..4] == "COMP"
  }

  /** The pattern `^([A-Z]{4}\s\d{4}).*(\d{2})\s[A-Z]{2}$` on one line: four
      capitals, a space, four digits, any text without a line terminator,
      two digits, a space and two capitals, anchored at both ends. The
      course code is the first group without its space, the mark the
      second group read as a decimal number. */
  function ParseLine(line: string): (r: Option<Course>)
    ensures r.Some? ==> |line| >= 14 && r.value.courseCode == line[..4] + line[5..9]
    ensures r.Some? ==> |r.value.courseCode| == 8 && 0 <= r.value.mark <= 99
    ensures r.Some? ==> IsDigit(line[|line| - 5]) && IsDigit(line[|line| - 4]) &&
                        r.value.mark == DigitValue(line[|line| - 5]) * 10 + DigitValue(line[|line| - 4])
  {
    var n := |line|;
    if n >= 14 && AllUpper(line[..4]) && IsSpace(line[4]) && AllDigits(line[5..9])
       && NoTerminator(line[9..n - 5])
       && IsDigit(line[n - 5]) && IsDigit(line[n - 4]) && IsSpace(line[n - 3])
       && IsUpper(line[n - 2]) && IsUpper(line[n - 1])
    then Some(Course(line[..4] + line[5..9], DigitValue(line[n - 5]) * 10 + DigitValue(line[n - 4])))
    else None
  }

  /** A course line as a transcript prints it parses back to its code and mark. */
  lemma ParseFormattedLine(subject: string, space: char, number: string, middle: string, mark: int, space2: char, grade: string)
    requires |subject| == 4 && AllUpper(subject) && IsSpace(space)
    requires |number| == 4 && AllDigits(number) && NoTerminator(middle)
    requires 0 <= mark < 100 && IsSpace(space2) && |grade| == 2 && AllUpper(grade)
    ensures ParseLine(subject + [space] + number + middle + TwoDigits(mark) + [space2] + grade)
            == Some(Course(subject + number, mark))
  {
    var line := subject + [space] + number + middle + TwoDigits(mark) + [space2] + grade;
    var n := |line|;
    assert line[..4] == subject;
    assert line[5..9] == number;
    assert line[9..n - 5] == middle;
    assert line[n - 5..n - 3] == TwoDigits(mark);
    assert line[n - 2..] == grade;
  }

  /** The two digits of a number below 100 read back as that number. */
  lemma TwoDigitsOfValue(d1: char, d2: char)
    requires IsDigit(d1) && IsDigit(d2)
    ensures TwoDigits(DigitValue(d1) * 10 + DigitValue(d2)) == [d1, d2]
  {
    var a, b := DigitValue(d1), DigitValue(d2);
    assert (a * 10 + b) / 10 == a && (a * 10 + b) % 10 == b;
  }

  /** The converse of `ParseFormattedLine`: a line matches only when it is a
      printed course line, and the entry it gives is that line's code and
      mark. Every other line gives nothing and is dropped. */
  lemma ParsedLineIsFormatted(line: string, c: Course)
    returns (subject: string, space: char, number: string, middle: string, mark: int, space2: char, grade: string)
    requires ParseLine(line) == Some(c)
    ensures |subject| == 4 && AllUpper(subject) && IsSpace(space)
    ensures |number| == 4 && AllDigits(number) && NoTerminator(middle)
    ensures 0 <= mark < 100 && IsSpace(space2) && |grade| == 2 && AllUpper(grade)
    ensures line == subject + [space] + number + middle + TwoDigits(mark) + [space2] + grade
    ensures c == Course(subject + number, mark)
  {
    var n := |line|;
    subject, space, number, middle := line[..4], line[4], line[5..9], line[9..n - 5];
    mark, space2, grade := c.mark, line[n - 3], line[n - 2..];
    TwoDigitsOfValue(line[n - 5], line[n - 4]);
    assert TwoDigits(mark) == line[n - 5..n - 3];
    assert line == subject + [space] + number + middle + TwoDigits(mark) + [space2] + grade;
  }

  /** A line shorter than the pattern's fourteen fixed characters never matches. */
  lemma ShortLineRejected(line: string)
    requires |line| < 14
    ensures ParseLine(line) == None
  {
  }

  /** A line terminator between the first and second group defeats the match. */
  lemma TerminatorRejected(line: string, i: int)
    requires 9 <= i < |line| - 5 && IsLineTerminator(line[i])
    ensures ParseLine(line) == None
  {
    assert line[9..|line| - 5][i - 9] == line[i];
  }

  lemma ExampleMiddle()
    ensures NoTerminator(" SE Fund 6 ")
  {
  }

  lemma ExampleLine()
    ensures "COMP" + [' '] + "1531" + " SE Fund 6 " + TwoDigits(85) + [' '] + "DN" == "COMP 1531 SE Fund 6 85 DN"
  {
    assert TwoDigits(85) == "85";
  }

  /** A result line of a transcript: code `COMP1531`, mark 85, grade `DN`. */
  lemma ParseExample()
    ensures ParseLine("COMP 1531 SE Fund 6 85 DN") == Some(Course("COMP1531", 85))
  {
    ExampleMiddle();
    ParseFormattedLine("COMP", ' ', "1531", " SE Fund 6 ", 85, ' ', "DN");
    ExampleLine();
    assert "COMP" + "1531" == "COMP1531";
  }

  // ---------------------------------------------------------------------
  // Pages
  // ---------------------------------------------------------------------

  /** `line.startsWith('COMP')` followed by the pattern: the entry a line
      gives, if any. */
  function LineEntry(line: string): (r: Option<Course>)
    ensures r.Some? ==> |r.value.courseCode| == 8 && r.value.courseCode[..4] == "COMP" && 0 <= r.value.mark <= 99
  {
    if StartsWithComp(line) then ParseLine(line) else None
  }

  /** `xs.map(f).filter(Boolean)`: the present results, in order. */
  function FilterMap<T, U>(xs: seq<T>, f: T -> Option<U>): (ys: seq<U>)
    ensures |ys| <= |xs|
  {
    if xs == [] then []
    else
      var r := f(xs[|xs| - 1]);
      FilterMap(xs[..|xs| - 1], f) + (if r.Some? then [r.value] else [])
  }

  /** A result is kept exactly when some element gives it. */
  lemma {:induction false} FilterMapMembers<T, U>(xs: seq<T>, f: T -> Option<U>, y: U)
    ensures y in FilterMap(xs, f) <==> exists i :: 0 <= i < |xs| && f(xs[i]) == Some(y)
  {
    if xs != [] {
      var n := |xs| - 1;
      FilterMapMembers(xs[..n], f, y);
      if exists i :: 0 <= i < n && f(xs[..n][i]) == Some(y) {
        var i :| 0 <= i < n && f(xs[..n][i]) == Some(y);
        assert xs[..n][i] == xs[i];
      }
      if exists i :: 0 <= i < |xs| && f(xs[i]) == Some(y) {
        var i :| 0 <= i < |xs| && f(xs[i]) == Some(y);
        if i < n {
          assert xs[..n][i] == xs[i];
        }
      }
    }
  }

  /** The `filter` / `map` / `filter(Boolean)` chain over the lines of a page. */
  function PageCourses(page: string): seq<Course> {
    FilterMap(Text.Split(page, '\n'), LineEntry)
  }

  /** Each entry of a page comes from one of its `COMP` lines that matches,
      and every such line gives its entry; other lines are dropped. */
  lemma PageCoursesMembers(page: string, c: Course)
    ensures c in PageCourses(page) <==>
            exists line :: line in Text.Split(page, '\n') && StartsWithComp(line) && ParseLine(line) == Some(c)
  {
    var lines := Text.Split(page, '\n');
    FilterMapMembers(lines, LineEntry, c);
    if c in PageCourses(page) {
      var i :| 0 <= i < |lines| && LineEntry(lines[i]) == Some(c);
      assert lines[i] in lines;
    }
    if exists line :: line in lines && StartsWithComp(line) && ParseLine(line) == Some(c) {
      var line :| line in lines && StartsWithComp(line) && ParseLine(line) == Some(c);
      var i :| 0 <= i < |lines| && lines[i] == line;
      assert LineEntry(lines[i]) == Some(c);
    }
  }

  /** The entries of all pages, pages in order. */
  function AllCourses(pages: seq<string>): seq<Course> {
    if pages == [] then [] else AllCourses(pages[..|pages| - 1]) + PageCourses(pages[|pages| - 1])
  }

  /** The `transcript` record filled from `courseArray` front to back. */
  function TranscriptOf(courses: seq<Course>): map<string, int> {
    if courses == [] then map[]
    else
      var last := courses[|courses| - 1];
      TranscriptOf(courses[..|courses| - 1])[last.courseCode := last.mark]
  }

  /** The record has one key per code that occurs. */
  lemma {:induction false} TranscriptKeys(courses: seq<Course>)
    ensures TranscriptOf(courses).Keys == set i | 0 <= i < |courses| :: courses[i].courseCode
  {
    if courses != [] {
      var n := |courses| - 1;
      var init := courses[..n];
      TranscriptKeys(init);
      assert (set i | 0 <= i < |courses| :: courses[i].courseCode)
             == (set i | 0 <= i < n :: init[i].courseCode) + {courses[n].courseCode} by {
        forall i | 0 <= i < n ensures courses[i].courseCode == init[i].courseCode { }
      }
    }
  }

  /** The entry of a code that no later entry repeats is the one the record
      holds: a later line for the same course overwrites an earlier one. */
  lemma {:induction false} LastEntryWins(courses: seq<Course>, i: int)
    requires 0 <= i < |courses|
    requires forall j :: i < j < |courses| ==> courses[j].courseCode != courses[i].courseCode
    ensures courses[i].courseCode in TranscriptOf(courses)
    ensures TranscriptOf(courses)[courses[i].courseCode] == courses[i].mark
  {
    var n := |courses| - 1;
    if i < n {
      LastEntryWins(courses[..n], i);
    }
  }

  /** Every key of the parsed record is an eight-character `COMP` code with a
      mark in `0 .. 99`. */
  lemma {:induction false} TranscriptShape(courses: seq<Course>)
    requires forall i :: 0 <= i < |courses| ==> |courses[i].courseCode| == 8 && courses[i].courseCode[..4] == "COMP" && 0 <= courses[i].mark <= 99
    ensures forall code :: code in TranscriptOf(courses) ==> |code| == 8 && code[..4] == "COMP" && 0 <= TranscriptOf(courses)[code] <= 99
  {
    if courses != [] {
      TranscriptShape(courses[..|courses| - 1]);
    }
  }

  lemma {:induction false} AllCoursesShape(pages: seq<string>)
    ensures forall i :: 0 <= i < |AllCourses(pages)| ==>
              var c := AllCourses(pages)[i]; |c.courseCode| == 8 && c.courseCode[..4] == "COMP" && 0 <= c.mark <= 99
  {
    if pages != [] {
      var n := |pages| - 1;
      AllCoursesShape(pages[..n]);
      var page := PageCourses(pages[n]);
      forall c | c in page ensures |c.courseCode| == 8 && c.courseCode[..4] == "COMP" && 0 <= c.mark <= 99 {
        FilterMapMembers(Text.Split(pages[n], '\n'), LineEntry, c);
      }
    }
  }

  lemma AllCoursesSnoc(pages: seq<string>, p: int)
    requires 0 <= p < |pages|
    ensures AllCourses(pages[..p + 1]) == AllCourses(pages[..p]) + PageCourses(pages[p])
  {
    assert pages[..p + 1][..p] == pages[..p];
  }

  lemma TranscriptOfSnoc(courses: seq<Course>, i: int)
    requires 0 <= i < |courses|
    ensures TranscriptOf(courses[..i + 1]) == TranscriptOf(courses[..i])[courses[i].courseCode := courses[i].mark]
  {
    assert courses[..i + 1][..i] == courses[..i];
  }

  /** `parseTranscript` from the extracted page texts to the `transcript`
      record: `courseArray` gathers the entries of each page in turn, then
      each entry is written into the record, later entries overwriting. */
  method ParseTranscript(pages: seq<string>) returns (transcript: map<string, int>)
    ensures transcript == TranscriptOf(AllCourses(pages))
  {
    var courseArray: seq<Course> := [];
    for p := 0 to |pages|
      invariant courseArray == AllCourses(pages[..p])
    {
      AllCoursesSnoc(pages, p);
      courseArray := courseArray + PageCourses(pages[p]);
    }
    assert pages[..|pages|] == pages;
    transcript := map[];
    for i := 0 to |courseArray|
      invariant transcript == TranscriptOf(courseArray[..i])
    {
      TranscriptOfSnoc(courseArray, i);
      transcript := transcript[courseArray[i].courseCode := courseArray[i].mark];
    }
    assert courseArray[..|courseArray|] == courseArray;
  }

  /** Every mark the parser records is in `0 .. 99` under an eight-character
      `COMP` code. */
  lemma ParsedMarksInRange(pages: seq<string>)
    ensures forall code :: code in TranscriptOf(AllCourses(pages)) ==>
              |code| == 8 && code[..4] == "COMP" && 0 <= TranscriptOf(AllCourses(pages))[code] <= 99
  {
    AllCoursesShape(pages);
    TranscriptShape(AllCourses(pages));
  }

  // ---------------------------------------------------------------------
  // setStudentMarks
  // ---------------------------------------------------------------------

  /** `setStudentMarks` without its reads and writes: the stored record
      keeps exactly its keys (`keys` is `Object.keys` of the stored
      transcript); each takes the parsed mark, or 0 when the parse has none. */
  method SetStudentMarks(keys: seq<string>, transcript: map<string, int>) returns (result: map<string, int>)
    ensures result.Keys == set k | k in keys
    ensures forall k :: k in result ==> result[k] == if k in transcript then transcript[k] else 0
  {
    result := map[];
    for i := 0 to |keys|
      invariant result.Keys == set k | k in keys[..i]
      invariant forall k :: k in result ==> result[k] == if k in transcript then transcript[k] else 0
    {
      var key := keys[i];
      result := result[key := if key in transcript then transcript[key] else 0];
      assert keys[..i + 1] == keys[..i] + [key];
    }
    assert keys[..|keys|] == keys;
  }
}
