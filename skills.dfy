/** Vocabulary shared by the scoring components: the six skill categories
    (the `Tags` union and the `TAGS` array of src/utils/projectTag.ts), the
    project tag record, and the option and result wrappers used for the
    source's `undefined` values and thrown errors. */
module Skills {

  datatype Option<T> = None | Some(value: T)

  /** A value, or the message of the `Error` the source throws. */
  datatype Result<T> = Ok(value: T) | Err(message: string)

  datatype Category = Backend | FrontendUI | Database | AI | CyberSecurity | DSA

  /** The key under which a category is stored in ratings records. */
  function Name(c: Category): string {
    match c
    case Backend => "Backend"
    case FrontendUI => "Frontend/UI"
    case Database => "Database"
    case AI => "AI"
    case CyberSecurity => "Cyber Security"
    case DSA => "DSA"
  }

  /** `TAGS`, in its declared order. */
  const Categories: seq<Category> := [Backend, FrontendUI, Database, AI, CyberSecurity, DSA]

  /** The set of the six category keys. */
  function CategoryNames(): (names: set<string>)
    ensures |names| == 6
    ensures forall c: Category :: Name(c) in names
    ensures forall s :: s in names ==> exists c: Category :: Name(c) == s
  {
    var names := {"Backend", "Frontend/UI", "Database", "AI", "Cyber Security", "DSA"};
    assert Name(Backend) in names && Name(FrontendUI) in names && Name(Database) in names;
    assert Name(AI) in names && Name(CyberSecurity) in names && Name(DSA) in names;
    names
  }

  /** The `switch (skill)` of the group rating aggregator: the category a
      key names, or None for a key it ignores. */
  function FromName(s: string): (r: Option<Category>)
    ensures r.Some? ==> Name(r.value) == s
    ensures r.None? ==> s !in CategoryNames()
  {
    if s == "AI" then Some(AI)
    else if s == "DSA" then Some(DSA)
    else if s == "Backend" then Some(Backend)
    else if s == "Database" then Some(Database)
    else if s == "Frontend/UI" then Some(FrontendUI)
    else if s == "Cyber Security" then Some(CyberSecurity)
    else None
  }

  /** Distinct categories have distinct keys, and `FromName` inverts `Name`. */
  lemma NameInjective(c: Category, d: Category)
    ensures Name(c) == Name(d) ==> c == d
    ensures FromName(Name(c)) == Some(c)
  {
  }

  /** A record with the six category keys, each category's key holding `f`
      of that category. */
  function PerCategory<V>(f: Category -> V): (m: map<string, V>)
    ensures m.Keys == CategoryNames()
    ensures forall c: Category :: m[Name(c)] == f(c)
  {
    var m := map k | k in CategoryNames() :: f(FromName(k).value);
    assert forall c: Category :: m[Name(c)] == f(c) by {
      forall c: Category ensures m[Name(c)] == f(c) {
        NameInjective(c, c);
      }
    }
    m
  }

  /** A record is `PerCategory(f)` exactly when it has the six category
      keys and each category's key holds `f` of that category. */
  lemma PerCategoryUnique<V>(m: map<string, V>, f: Category -> V)
    requires m.Keys == CategoryNames()
    requires forall c: Category :: m[Name(c)] == f(c)
    ensures m == PerCategory(f)
  {
    var p := PerCategory(f);
    forall k | k in CategoryNames() ensures m[k] == p[k] {
      var c := FromName(k).value;
      assert Name(c) == k;
    }
  }

  /** Two records with the six category keys are equal when they agree on
      every category. */
  lemma SameRecord<V>(m1: map<string, V>, m2: map<string, V>)
    requires m1.Keys == CategoryNames() && m2.Keys == CategoryNames()
    requires forall c: Category :: m1[Name(c)] == m2[Name(c)]
    ensures m1 == m2
  {
    forall k | k in CategoryNames() ensures m1[k] == m2[k] {
      var c := FromName(k).value;
      assert Name(c) == k;
    }
  }

  /** `TAGS` lists every category exactly once. */
  lemma CategoriesComplete(c: Category)
    ensures c in Categories
    ensures forall i, j :: 0 <= i < j < |Categories| ==> Categories[i] != Categories[j]
  {
  }

  /** A project tag: `{ tag, weight }`. */
  datatype Tag = Tag(tag: string, weight: real)
}
