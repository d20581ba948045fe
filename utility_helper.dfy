/** The role, table and tag conversions of
    src/utils/helper/utilityHelper.ts. */
module UtilityHelper {
  import Text
  import opened Skills
  import Auth

  /** `convertRoleToUserType`: the first character upper-cased, the rest
      kept. */
  function ConvertRoleToUserType(role: string): (u: string)
    ensures |u| == |role|
    ensures |role| > 0 ==> u[0] == Text.UpperChar(role[0]) && u[1..] == role[1..]
    ensures |role| == 0 ==> u == ""
  {
    Text.Capitalize(role)
  }

  /** Converting twice is converting once. */
  lemma ConvertRoleIdempotent(role: string)
    ensures ConvertRoleToUserType(ConvertRoleToUserType(role)) == ConvertRoleToUserType(role)
  {
    Text.CapitalizeIdempotent(role);
  }

  /** The lower-case roles the `users` table stores convert to the enum
      values. */
  lemma ConvertStoredRole(u: Auth.UserType)
    ensures ConvertRoleToUserType(Text.ToLower(Auth.RoleName(u))) == Auth.RoleName(u)
  {
    Auth.LowerRoleCapitalised(u);
  }

  /** `Ratings`, `Record<string, number>`: its entries in `Object.keys`
      order. */
  type Ratings = seq<(string, real)>

  /** `convertRatingsToTags`: with no keys, the six `TAGS` in order, each
      of weight 0; otherwise one tag per key, in key order, carrying the
      key's value. */
  function ConvertRatingsToTags(ratings: Ratings): (tags: seq<Tag>)
    ensures |ratings| == 0 ==>
              (|tags| == |Categories| && forall i :: 0 <= i < |tags| ==> tags[i] == Tag(Name(Categories[i]), 0.0))
    ensures |ratings| > 0 ==>
              (|tags| == |ratings| && forall i :: 0 <= i < |ratings| ==> tags[i] == Tag(ratings[i].0, ratings[i].1))
  {
    if |ratings| == 0 then seq(|Categories|, i requires 0 <= i < |Categories| => Tag(Name(Categories[i]), 0.0))
    else seq(|ratings|, i requires 0 <= i < |ratings| => Tag(ratings[i].0, ratings[i].1))
  }

  /** An empty record gives every category exactly once, each of weight
      0, in the order of `TAGS`. */
  lemma EmptyRatingsGiveAllTags()
    ensures forall i :: 0 <= i < |ConvertRatingsToTags([])| ==>
              ConvertRatingsToTags([])[i] == Tag(Name(Categories[i]), 0.0)
    ensures forall c: Category :: Tag(Name(c), 0.0) in ConvertRatingsToTags([])
    ensures forall i, j :: 0 <= i < j < |ConvertRatingsToTags([])| ==>
              ConvertRatingsToTags([])[i].tag != ConvertRatingsToTags([])[j].tag
  {
    var tags := ConvertRatingsToTags([]);
    forall c: Category ensures Tag(Name(c), 0.0) in tags {
      CategoriesComplete(c);
      var i :| 0 <= i < |Categories| && Categories[i] == c;
      assert tags[i] == Tag(Name(c), 0.0);
    }
    forall i, j | 0 <= i < j < |tags| ensures tags[i].tag != tags[j].tag {
      CategoriesComplete(Categories[i]);
      NameInjective(Categories[i], Categories[j]);
    }
  }

  /** A non-empty record converts entry by entry: each key and value
      becomes a tag of that name and weight, and converting back gives the
      record. */
  lemma RatingsRoundTrip(ratings: Ratings)
    requires |ratings| > 0
    ensures var tags := ConvertRatingsToTags(ratings);
            seq(|tags|, i requires 0 <= i < |tags| => (tags[i].tag, tags[i].weight)) == ratings
  {
  }

  /** The `RoleTableName` union. */
  const RoleTables: seq<string> := ["students", "tutors", "coordinators", "clients"]

  const InvalidRole := "Invalid user role"
  const InvalidTable := "Invalid table name"

  /** `getRoleTableName`: the table of each role; Admin has none. */
  function GetRoleTableName(role: Auth.UserType): (r: Result<string>)
    ensures role == Auth.Student ==> r == Ok("students")
    ensures role == Auth.Tutor ==> r == Ok("tutors")
    ensures role == Auth.Coordinator ==> r == Ok("coordinators")
    ensures role == Auth.Client ==> r == Ok("clients")
    ensures role == Auth.Admin ==> r == Err(InvalidRole)
    ensures r.Ok? ==> r.value in RoleTables
  {
    match role
    case Student => Ok("students")
    case Tutor => Ok("tutors")
    case Coordinator => Ok("coordinators")
    case Client => Ok("clients")
    case Admin => Err(InvalidRole)
  }

  /** Distinct roles have distinct tables. */
  lemma RoleTableInjective(r1: Auth.UserType, r2: Auth.UserType)
    requires GetRoleTableName(r1).Ok? && GetRoleTableName(r2).Ok?
    requires GetRoleTableName(r1).value == GetRoleTableName(r2).value
    ensures r1 == r2
  {
  }

  /** `castToRoleTableName`: the name itself when it is one of the four
      tables, otherwise an error. */
  function CastToRoleTableName(tableName: string): (r: Result<string>)
    ensures r.Ok? <==> tableName in RoleTables
    ensures r.Ok? ==> r.value == tableName
    ensures r.Err? ==> r.message == InvalidTable
  {
    if tableName in RoleTables then Ok(tableName) else Err(InvalidTable)
  }

  /** `castToRoleTableName(getRoleTableName(role))`, as `updateRole` calls
      it: the cast gives back the table `getRoleTableName` produced, so the
      pair fails only for Admin. */
  function RoleTable(role: Auth.UserType): (r: Result<string>)
    ensures r == GetRoleTableName(role)
  {
    var t := GetRoleTableName(role);
    if t.Err? then Err(t.message) else CastToRoleTableName(t.value)
  }

  /** Every table name the cast accepts is the table of some role. */
  lemma EveryTableHasRole(tableName: string)
    requires CastToRoleTableName(tableName).Ok?
    ensures exists role :: GetRoleTableName(role) == Ok(tableName)
  {
    if tableName == "students" { assert GetRoleTableName(Auth.Student) == Ok(tableName); }
    else if tableName == "tutors" { assert GetRoleTableName(Auth.Tutor) == Ok(tableName); }
    else if tableName == "coordinators" { assert GetRoleTableName(Auth.Coordinator) == Ok(tableName); }
    else { assert GetRoleTableName(Auth.Client) == Ok(tableName); }
  }

  /** A row of the `class_data` table. */
  datatype ClassRow = ClassRow(courseCode: string, tutorialCode: string)

  /** `TutorialCodes`. */
  datatype TutorialCodes = TutorialCodes(comp3900: seq<string>, comp9900: seq<string>)

  /** `data.filter((c) => c.course_code === course).map((t) => t.tutorial_code)`. */
  function CodesFor(rows: seq<ClassRow>, course: string): (codes: seq<string>)
    ensures |codes| <= |rows|
  {
    if rows == [] then []
    else
      var rest := CodesFor(rows[..|rows| - 1], course);
      var last := rows[|rows| - 1];
      if last.courseCode == course then rest + [last.tutorialCode] else rest
  }

  /** A code is listed exactly when some row of the course carries it. */
  lemma {:induction false} CodesForMembers(rows: seq<ClassRow>, course: string, code: string)
    ensures code in CodesFor(rows, course) <==> ClassRow(course, code) in rows
  {
    if rows != [] {
      var n := |rows| - 1;
      CodesForMembers(rows[..n], course, code);
      assert rows == rows[..n] + [rows[n]];
    }
  }

  /** Row order is kept: the codes of two batches of rows are the codes of
      the first followed by those of the second. */
  lemma {:induction false} CodesForAppend(rows: seq<ClassRow>, more: seq<ClassRow>, course: string)
    ensures CodesFor(rows + more, course) == CodesFor(rows, course) + CodesFor(more, course)
    decreases |more|
  {
    if more == [] {
      assert rows + more == rows;
    } else {
      var n := |more| - 1;
      assert (rows + more)[..|rows + more| - 1] == rows + more[..n];
      CodesForAppend(rows, more[..n], course);
    }
  }

  const FetchCodesFailed := "Failed to fetch tutorial codes"

  /** `getTutorialCodes` after the query: the query's error message, an
      error when it returned no data, or the codes of COMP3900 and
      COMP9900. */
  function GetTutorialCodes(error: Option<string>, data: Option<seq<ClassRow>>): (r: Result<TutorialCodes>)
    ensures error.Some? ==> r == Err(error.value)
    ensures error.None? && data.None? ==> r == Err(FetchCodesFailed)
    ensures error.None? && data.Some? ==>
              r == Ok(TutorialCodes(CodesFor(data.value, "COMP3900"), CodesFor(data.value, "COMP9900")))
    ensures r.Ok? ==> forall code ::
              (code in r.value.comp3900 <==> ClassRow("COMP3900", code) in data.value) &&
              (code in r.value.comp9900 <==> ClassRow("COMP9900", code) in data.value)
  {
    if error.Some? then Err(error.value)
    else if data.None? then Err(FetchCodesFailed)
    else
      var rows := data.value;
      assert forall code :: (code in CodesFor(rows, "COMP3900") <==> ClassRow("COMP3900", code) in rows) &&
                            (code in CodesFor(rows, "COMP9900") <==> ClassRow("COMP9900", code) in rows) by {
        forall code ensures (code in CodesFor(rows, "COMP3900") <==> ClassRow("COMP3900", code) in rows) &&
                            (code in CodesFor(rows, "COMP9900") <==> ClassRow("COMP9900", code) in rows) {
          CodesForMembers(rows, "COMP3900", code);
          CodesForMembers(rows, "COMP9900", code);
        }
      }
      Ok(TutorialCodes(CodesFor(rows, "COMP3900"), CodesFor(rows, "COMP9900")))
  }
}
