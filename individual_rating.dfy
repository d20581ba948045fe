/** The `individual-rating-system` edge function: when a student's
    transcript changes, each skill category gets a score out of 10, the
    student's total mark over the category's listed courses as a fraction
    of the category's maximum, rounded to the nearest integer. */
module IndividualRating {
  import opened Skills
  import TranscriptParser

  // ---------------------------------------------------------------------
  // courseCategories
  // ---------------------------------------------------------------------

  /** The courses listed under a category, in their listed order. */
  function Courses(c: Category): (courses: seq<string>)
    ensures |courses| > 0
  {
    match c
    case Backend => ["COMP1531", "COMP3151", "COMP3131", "COMP3141", "COMP6771", "COMP9021"]
    case FrontendUI => ["COMP6080", "COMP4511"]
    case Database => ["COMP3311", "COMP9315"]
    case CyberSecurity => ["COMP6443", "COMP6447", "COMP6448", "COMP6843", "COMP4337"]
    case AI => ["COMP3411", "COMP6713", "COMP9417", "COMP9418", "COMP9444", "COMP9491", "COMP9517", "COMP9727"]
    case DSA => ["COMP3121", "COMP1927", "COMP2521", "COMP4128", "COMP9020", "COMP9312", "COMP9313"]
  }

  /** The order in which `for (const category in courseCategories)` visits the categories. */
  const TableOrder: seq<Category> := [Backend, FrontendUI, Database, CyberSecurity, AI, DSA]

  /** A course the table lists under some category. */
  predicate Listed(course: string) {
    exists c: Category :: course in Courses(c)
  }

  /** The table visits every category exactly once. */
  lemma TableOrderComplete(c: Category)
    ensures c in TableOrder && |TableOrder| == 6
    ensures forall i, j :: 0 <= i < j < |TableOrder| ==> TableOrder[i] != TableOrder[j]
  {
  }

  // A course of each category is listed under no other category; one lemma
  // per category keeps each comparison of the listed codes small.

  lemma DisjointBackend(course: string)
    requires course in Courses(Backend)
    ensures forall d: Category :: course in Courses(d) ==> d == Backend
  {
  }

  lemma DisjointFrontendUI(course: string)
    requires course in Courses(FrontendUI)
    ensures forall d: Category :: course in Courses(d) ==> d == FrontendUI
  {
  }

  lemma DisjointDatabase(course: string)
    requires course in Courses(Database)
    ensures forall d: Category :: course in Courses(d) ==> d == Database
  {
  }

  lemma DisjointCyberSecurity(course: string)
    requires course in Courses(CyberSecurity)
    ensures forall d: Category :: course in Courses(d) ==> d == CyberSecurity
  {
  }

  lemma DisjointAI(course: string)
    requires course in Courses(AI)
    ensures forall d: Category :: course in Courses(d) ==> d == AI
  {
  }

  lemma DisjointDSA(course: string)
    requires course in Courses(DSA)
    ensures forall d: Category :: course in Courses(d) ==> d == DSA
  {
  }

  /** No course is listed under two categories. */
  lemma TableDisjoint(c: Category, d: Category, course: string)
    requires course in Courses(c) && course in Courses(d)
    ensures c == d
  {
    match c {
      case Backend => DisjointBackend(course);
      case FrontendUI => DisjointFrontendUI(course);
      case Database => DisjointDatabase(course);
      case CyberSecurity => DisjointCyberSecurity(course);
      case AI => DisjointAI(course);
      case DSA => DisjointDSA(course);
    }
  }

  // ---------------------------------------------------------------------
  // calculateCategoryScores
  // ---------------------------------------------------------------------

  /** `transcript[course] || 0`: a course without a mark counts 0. */
  function Mark(transcript: map<string, int>, course: string): int {
    if course in transcript then transcript[course] else 0
  }

  /** The marks of `courses` added up front to back. */
  function CourseSum(transcript: map<string, int>, courses: seq<string>): int {
    if courses == [] then 0
    else CourseSum(transcript, courses[..|courses| - 1]) + Mark(transcript, courses[|courses| - 1])
  }

  /** `Math.round`: the nearest integer, halves rounded up. */
  function Round(x: real): (r: int)
    ensures x - 0.5 < r as real <= x + 0.5
  {
    (x + 0.5).Floor
  }

  /** The score of a category listing `courses`: the course total over
      `100` per listed course, scaled to 10 and rounded. */
  function Score(transcript: map<string, int>, courses: seq<string>): int
    requires |courses| > 0
  {
    Round(CourseSum(transcript, courses) as real / (100 * |courses|) as real * 10.0)
  }

  /** The `scores` record: each category's key to its score. */
  function CategoryScores(transcript: map<string, int>): map<string, int> {
    PerCategory(c => Score(transcript, Courses(c)))
  }

  lemma CourseSumSnoc(transcript: map<string, int>, courses: seq<string>, k: int)
    requires 0 <= k < |courses|
    ensures CourseSum(transcript, courses[..k + 1]) == CourseSum(transcript, courses[..k]) + Mark(transcript, courses[k])
  {
    assert courses[..k + 1][..k] == courses[..k];
  }

  /** Distinct categories of the table have distinct keys. */
  lemma TableNames()
    ensures forall i, j :: 0 <= i < |TableOrder| && 0 <= j < |TableOrder| && i != j ==>
              Name(TableOrder[i]) != Name(TableOrder[j])
  {
    forall i, j | 0 <= i < |TableOrder| && 0 <= j < |TableOrder| && i != j
      ensures Name(TableOrder[i]) != Name(TableOrder[j])
    {
      TableOrderComplete(TableOrder[i]);
      NameInjective(TableOrder[i], TableOrder[j]);
    }
  }

  /** The loop state after the first `i` categories of the table: every key
      present, the visited categories scored, the others still 0. */
  ghost predicate ScoredUpTo(transcript: map<string, int>, scores: map<string, int>, i: int) {
    && scores.Keys == CategoryNames()
    && forall j :: 0 <= j < |TableOrder| ==>
         scores[Name(TableOrder[j])] == if j < i then Score(transcript, Courses(TableOrder[j])) else 0
  }

  /** The `reduce` that starts every category at 0. */
  method ZeroScores() returns (scores: map<string, int>)
    ensures scores.Keys == CategoryNames()
    ensures forall k :: k in scores ==> scores[k] == 0
  {
    scores := map[];
    for i := 0 to |TableOrder|
      invariant scores.Keys == set j | 0 <= j < i :: Name(TableOrder[j])
      invariant forall k :: k in scores ==> scores[k] == 0
    {
      scores := scores[Name(TableOrder[i]) := 0];
    }
    forall k | k in CategoryNames() ensures k in scores {
      var c := FromName(k).value;
      TableOrderComplete(c);
      var j :| 0 <= j < |TableOrder| && TableOrder[j] == c;
    }
  }

  /** Scoring the next category of the table keeps the loop state. */
  lemma ScoredStep(transcript: map<string, int>, scores0: map<string, int>, scores: map<string, int>, i: int)
    requires 0 <= i < |TableOrder|
    requires ScoredUpTo(transcript, scores0, i)
    requires scores == scores0[Name(TableOrder[i]) := Score(transcript, Courses(TableOrder[i]))]
    ensures ScoredUpTo(transcript, scores, i + 1)
  {
    TableNames();
  }

  /** Once every category of the table is scored, the record is `CategoryScores`. */
  lemma ScoredAll(transcript: map<string, int>, scores: map<string, int>)
    requires ScoredUpTo(transcript, scores, |TableOrder|)
    ensures scores == CategoryScores(transcript)
  {
    forall c: Category ensures scores[Name(c)] == Score(transcript, Courses(c)) {
      TableOrderComplete(c);
      var j :| 0 <= j < |TableOrder| && TableOrder[j] == c;
    }
    PerCategoryUnique(scores, c => Score(transcript, Courses(c)));
  }

  /** One pass of the outer loop: the marks of the category's courses are
      added to its entry of `scores`, which starts at 0, then the entry is
      replaced by its rounded score. */
  method ScoreCategory(transcript: map<string, int>, scores0: map<string, int>, key: string, courses: seq<string>)
    returns (scores: map<string, int>)
    requires |courses| > 0
    requires key in scores0 && scores0[key] == 0
    ensures scores == scores0[key := Score(transcript, courses)]
  {
    var maxScoreForCategory := 100 * |courses|;
    scores := scores0;
    assert courses[..0] == [] && scores0[key := 0] == scores0;
    for k := 0 to |courses|
      invariant scores == scores0[key := CourseSum(transcript, courses[..k])]
    {
      CourseSumSnoc(transcript, courses, k);
      scores := scores[key := scores[key] + Mark(transcript, courses[k])];
    }
    assert courses[..|courses|] == courses;
    scores := scores[key := Round(scores[key] as real / maxScoreForCategory as real * 10.0)];
  }

  /** `calculateCategoryScores`. */
  method CalculateCategoryScores(transcript: map<string, int>) returns (scores: map<string, int>)
    ensures scores == CategoryScores(transcript)
  {
    scores := ZeroScores();
    for i := 0 to |TableOrder|
      invariant ScoredUpTo(transcript, scores, i)
    {
      ghost var before := scores;
      scores := ScoreCategory(transcript, scores, Name(TableOrder[i]), Courses(TableOrder[i]));
      ScoredStep(transcript, before, scores, i);
    }
    ScoredAll(transcript, scores);
  }

  // ---------------------------------------------------------------------
  // Properties of a score, for any list of courses
  // ---------------------------------------------------------------------

  /** A sum of marks each in `[0, 100]` lies in `[0, 100 n]`. */
  lemma {:induction false} CourseSumBounds(transcript: map<string, int>, courses: seq<string>)
    requires forall k :: 0 <= k < |courses| ==> 0 <= Mark(transcript, courses[k]) <= 100
    ensures 0 <= CourseSum(transcript, courses) <= 100 * |courses|
  {
    if courses != [] {
      CourseSumBounds(transcript, courses[..|courses| - 1]);
    }
  }

  lemma ScaleBounds(sum: int, n: int)
    requires n > 0 && 0 <= sum <= 100 * n
    ensures 0.0 <= sum as real / (100 * n) as real * 10.0 <= 10.0
  {
    var d := (100 * n) as real;
    assert sum as real <= d;
    assert sum as real / d <= 1.0;
  }

  /** With every mark in `[0, 100]`, the score is an integer in `[0, 10]`. */
  lemma ScoreBounds(transcript: map<string, int>, courses: seq<string>)
    requires |courses| > 0
    requires forall k :: 0 <= k < |courses| ==> 0 <= Mark(transcript, courses[k]) <= 100
    ensures 0 <= Score(transcript, courses) <= 10
  {
    CourseSumBounds(transcript, courses);
    ScaleBounds(CourseSum(transcript, courses), |courses|);
  }

  /** The sum depends only on the marks of the listed courses, and grows
      with each of them. */
  lemma {:induction false} CourseSumMonotone(t1: map<string, int>, t2: map<string, int>, courses: seq<string>)
    requires forall k :: 0 <= k < |courses| ==> Mark(t1, courses[k]) <= Mark(t2, courses[k])
    ensures CourseSum(t1, courses) <= CourseSum(t2, courses)
  {
    if courses != [] {
      CourseSumMonotone(t1, t2, courses[..|courses| - 1]);
    }
  }

  lemma ScaleMonotone(s1: int, s2: int, n: int)
    requires n > 0 && s1 <= s2
    ensures s1 as real / (100 * n) as real * 10.0 <= s2 as real / (100 * n) as real * 10.0
  {
    var d := (100 * n) as real;
    assert s1 as real / d <= s2 as real / d;
  }

  /** Raising the mark of any listed course never lowers the score. */
  lemma ScoreMonotone(t1: map<string, int>, t2: map<string, int>, courses: seq<string>)
    requires |courses| > 0
    requires forall k :: 0 <= k < |courses| ==> Mark(t1, courses[k]) <= Mark(t2, courses[k])
    ensures Score(t1, courses) <= Score(t2, courses)
  {
    var n := |courses|;
    var s1, s2 := CourseSum(t1, courses), CourseSum(t2, courses);
    CourseSumMonotone(t1, t2, courses);
    ScaleMonotone(s1, s2, n);
    var x1, x2 := s1 as real / (100 * n) as real * 10.0, s2 as real / (100 * n) as real * 10.0;
    assert (x1 + 0.5).Floor <= (x2 + 0.5).Floor;
  }

  /** Transcripts that agree on the listed courses give the same score. */
  lemma ScoreDependsOnListedOnly(t1: map<string, int>, t2: map<string, int>, courses: seq<string>)
    requires |courses| > 0
    requires forall k :: 0 <= k < |courses| ==> Mark(t1, courses[k]) == Mark(t2, courses[k])
    ensures Score(t1, courses) == Score(t2, courses)
  {
    ScoreMonotone(t1, t2, courses);
    ScoreMonotone(t2, t1, courses);
  }

  lemma {:induction false} ZeroSum(courses: seq<string>)
    ensures CourseSum(map[], courses) == 0
  {
    if courses != [] {
      ZeroSum(courses[..|courses| - 1]);
    }
  }

  /** An empty transcript scores 0. */
  lemma EmptyTranscriptScoresZero(courses: seq<string>)
    requires |courses| > 0
    ensures Score(map[], courses) == 0
  {
    ZeroSum(courses);
  }

  // ---------------------------------------------------------------------
  // Properties of the scores record
  // ---------------------------------------------------------------------

  /** Exactly the six category keys, each in `[0, 10]` when every listed
      mark is in `[0, 100]`. */
  lemma ScoresRange(transcript: map<string, int>)
    requires forall course :: Listed(course) ==> 0 <= Mark(transcript, course) <= 100
    ensures CategoryScores(transcript).Keys == CategoryNames()
    ensures forall c: Category :: 0 <= CategoryScores(transcript)[Name(c)] <= 10
  {
    forall c: Category ensures 0 <= Score(transcript, Courses(c)) <= 10 {
      var courses := Courses(c);
      assert forall j :: 0 <= j < |courses| ==> Listed(courses[j]);
      ScoreBounds(transcript, courses);
    }
  }

  /** The record `setStudentMarks` stores holds, for each of its keys, a
      mark read from the transcript pages (0..99) or 0, so the scores
      computed from it all lie in 0..10. */
  lemma StoredTranscriptScoresInRange(pages: seq<string>, stored: map<string, int>)
    requires forall k :: k in stored ==>
               stored[k] == var parsed := TranscriptParser.TranscriptOf(TranscriptParser.AllCourses(pages));
                            if k in parsed then parsed[k] else 0
    ensures forall c: Category :: 0 <= CategoryScores(stored)[Name(c)] <= 10
  {
    TranscriptParser.ParsedMarksInRange(pages);
    ScoresRange(stored);
  }

  /** Raising any marks never lowers any score. */
  lemma ScoresMonotone(t1: map<string, int>, t2: map<string, int>)
    requires forall course :: Mark(t1, course) <= Mark(t2, course)
    ensures forall c: Category :: CategoryScores(t1)[Name(c)] <= CategoryScores(t2)[Name(c)]
  {
    forall c: Category ensures Score(t1, Courses(c)) <= Score(t2, Courses(c)) {
      ScoreMonotone(t1, t2, Courses(c));
    }
  }

  lemma UnlistedMarkIgnored(transcript: map<string, int>, course: string, mark: int, courses: seq<string>)
    requires |courses| > 0 && course !in courses
    ensures Score(transcript[course := mark], courses) == Score(transcript, courses)
  {
    assert forall k :: 0 <= k < |courses| ==> Mark(transcript[course := mark], courses[k]) == Mark(transcript, courses[k]);
    ScoreDependsOnListedOnly(transcript[course := mark], transcript, courses);
  }

  /** A course outside the table changes no score, whatever its mark. */
  lemma UnlistedCourseIgnored(transcript: map<string, int>, course: string, mark: int)
    requires !Listed(course)
    ensures forall c: Category ::
              CategoryScores(transcript[course := mark])[Name(c)] == CategoryScores(transcript)[Name(c)]
  {
    forall c: Category
      ensures CategoryScores(transcript[course := mark])[Name(c)] == CategoryScores(transcript)[Name(c)]
    {
      UnlistedInCategory(transcript, course, mark, c);
    }
  }

  lemma UnlistedInCategory(transcript: map<string, int>, course: string, mark: int, c: Category)
    requires !Listed(course)
    ensures Score(transcript[course := mark], Courses(c)) == Score(transcript, Courses(c))
  {
    assert course !in Courses(c);
    UnlistedMarkIgnored(transcript, course, mark, Courses(c));
  }

  /** The mark of a course listed under `c` counts toward `c` only. */
  lemma MarkCountsOnce(transcript: map<string, int>, course: string, mark: int, c: Category, d: Category)
    requires course in Courses(c) && d != c
    ensures CategoryScores(transcript[course := mark])[Name(d)] == CategoryScores(transcript)[Name(d)]
  {
    var courses := Courses(d);
    assert course !in courses by {
      if course in courses {
        TableDisjoint(c, d, course);
        assert false;
      }
    }
    UnlistedMarkIgnored(transcript, course, mark, courses);
  }

  /** An empty transcript scores 0 in every category. */
  lemma EmptyTranscript()
    ensures forall c: Category :: CategoryScores(map[])[Name(c)] == 0
  {
    forall c: Category ensures Score(map[], Courses(c)) == 0 {
      EmptyTranscriptScoresZero(Courses(c));
    }
  }

  /** Two Frontend/UI marks totalling 30 give 30 / 200 * 10 = 1.5, which
      rounds up to 2. */
  lemma FrontendExample()
    ensures CategoryScores(map["COMP6080" := 20, "COMP4511" := 10])["Frontend/UI"] == 2
  {
    var t := map["COMP6080" := 20, "COMP4511" := 10];
    var fs := Courses(FrontendUI);
    assert CourseSum(t, fs) == 30 by {
      assert fs[..0] == [];
      CourseSumSnoc(t, fs, 0);
      CourseSumSnoc(t, fs, 1);
      assert fs[..2] == fs;
    }
    assert 30 as real / (100 * |fs|) as real * 10.0 == 1.5;
    assert Name(FrontendUI) == "Frontend/UI";
  }

  lemma BackendSum()
    ensures CourseSum(map["COMP1531" := 85, "COMP3151" := 70], Courses(Backend)) == 155
  {
    var b := map["COMP1531" := 85, "COMP3151" := 70];
    var cs := Courses(Backend);
    assert cs[..0] == [];
    CourseSumSnoc(b, cs, 0);
    CourseSumSnoc(b, cs, 1);
    CourseSumSnoc(b, cs, 2);
    CourseSumSnoc(b, cs, 3);
    CourseSumSnoc(b, cs, 4);
    CourseSumSnoc(b, cs, 5);
    assert cs[..6] == cs;
  }

  /** Backend marks 85 and 70 give 155 / 600 * 10, about 2.58, which rounds to 3. */
  lemma BackendExample()
    ensures CategoryScores(map["COMP1531" := 85, "COMP3151" := 70])["Backend"] == 3
  {
    BackendSum();
    assert 155 as real / (100 * |Courses(Backend)|) as real * 10.0 == 155.0 / 60.0;
    assert Name(Backend) == "Backend";
  }

  // ---------------------------------------------------------------------
  // The request gate
  // ---------------------------------------------------------------------

  /** What the handler does: writes the scores (200) or rejects the event (400). */
  datatype Outcome = MarksUpdated(individualMarks: map<string, int>) | IncompleteUpdate

  /** The handler's gate: scores are computed and written only for an
      `UPDATE` event that carries transcript data. */
  method HandleTranscriptUpdate(eventType: string, transcriptData: Option<map<string, int>>) returns (r: Outcome)
    ensures r.MarksUpdated? <==> eventType == "UPDATE" && transcriptData.Some?
    ensures r.MarksUpdated? ==> r.individualMarks == CategoryScores(transcriptData.value)
  {
    if eventType == "UPDATE" && transcriptData.Some? {
      var categoryScores := CalculateCategoryScores(transcriptData.value);
      r := MarksUpdated(categoryScores);
    } else {
      r := IncompleteUpdate;
    }
  }
}
