/** The `group-rating-system` edge function: when a group's membership
    record changes, the group's skill rating per category is the mean of
    the two highest ratings its members hold in that category, provided
    the group is complete enough; otherwise the rating is empty. */
module GroupRating {
  import opened Skills

  /** One element of `user_ratings`: the keys of the record itself and its
      `student_ratings` object as (skill, rating) entries in key order. */
  datatype MemberRating = MemberRating(fields: set<string>, studentRatings: seq<(string, real)>)

  /** One of the six two-element arrays: `[highest, second highest]`. */
  datatype Pair = Pair(first: real, second: real)

  /** The `if / else if` of each `case`: a value above the top shifts the
      top down, a value only above the second replaces the second. */
  function Offer(p: Pair, v: real): Pair {
    if v > p.first then Pair(v, p.first)
    else if v > p.second then Pair(p.first, v)
    else p
  }

  /** The values offered one after another, front to back. */
  function OfferAll(p: Pair, vs: seq<real>): Pair {
    if vs == [] then p else Offer(OfferAll(p, vs[..|vs| - 1]), vs[|vs| - 1])
  }

  /** The pair after offering `vs` to the initial `[0, 0]`. */
  function TopTwo(vs: seq<real>): Pair {
    OfferAll(Pair(0.0, 0.0), vs)
  }

  /** `(x[0] + x[1]) / 2`. */
  function Mean(p: Pair): real {
    (p.first + p.second) / 2.0
  }

  /** The ratings one member's entries give category `c`, in key order;
      entries whose key names no category are skipped (the `default` case). */
  function MemberColumn(entries: seq<(string, real)>, c: Category): (vs: seq<real>)
    ensures |vs| <= |entries|
    ensures forall v :: v in vs ==> exists j :: 0 <= j < |entries| && FromName(entries[j].0) == Some(c) && entries[j].1 == v
  {
    if entries == [] then []
    else
      var n := |entries| - 1;
      var rest := MemberColumn(entries[..n], c);
      assert forall v :: v in rest ==> exists j :: 0 <= j < |entries| && FromName(entries[j].0) == Some(c) && entries[j].1 == v by {
        forall v | v in rest
          ensures exists j :: 0 <= j < |entries| && FromName(entries[j].0) == Some(c) && entries[j].1 == v
        {
          var j :| 0 <= j < n && FromName(entries[..n][j].0) == Some(c) && entries[..n][j].1 == v;
          assert entries[..n][j] == entries[j];
        }
      }
      rest + (if FromName(entries[n].0) == Some(c) then [entries[n].1] else [])
  }

  /** Every rating offered to category `c`, members in order. */
  function Column(ratings: seq<MemberRating>, c: Category): seq<real> {
    if ratings == [] then []
    else Column(ratings[..|ratings| - 1], c) + MemberColumn(ratings[|ratings| - 1].studentRatings, c)
  }

  /** The `res` object of `calculateRatings`: each category's key to the
      mean of its pair. */
  function Ratings(ratings: seq<MemberRating>): map<string, real> {
    map k | k in CategoryNames() :: Mean(TopTwo(Column(ratings, FromName(k).value)))
  }

  /** Every category maps to the mean of its top two, and nothing else is a key. */
  lemma RatingsShape(ratings: seq<MemberRating>)
    ensures Ratings(ratings).Keys == CategoryNames()
    ensures forall c: Category :: Ratings(ratings)[Name(c)] == Mean(TopTwo(Column(ratings, c)))
  {
    forall c: Category ensures Ratings(ratings)[Name(c)] == Mean(TopTwo(Column(ratings, c))) {
      NameInjective(c, c);
    }
  }

  // ---------------------------------------------------------------------
  // calculateRatings
  // ---------------------------------------------------------------------

  /** A table with an entry for every category. */
  ghost predicate AllCategories<V>(table: map<Category, V>) {
    forall c: Category :: c in table
  }

  lemma OfferAllSnoc(vs: seq<real>, v: real)
    ensures TopTwo(vs + [v]) == Offer(TopTwo(vs), v)
  {
    assert (vs + [v])[..|vs|] == vs;
  }

  lemma MemberColumnSnoc(entries: seq<(string, real)>, j: int, c: Category)
    requires 0 <= j < |entries|
    ensures MemberColumn(entries[..j + 1], c)
            == MemberColumn(entries[..j], c) + (if FromName(entries[j].0) == Some(c) then [entries[j].1] else [])
  {
    assert entries[..j + 1][..j] == entries[..j];
  }

  lemma ColumnSnoc(ratings: seq<MemberRating>, i: int, c: Category)
    requires 0 <= i < |ratings|
    ensures Column(ratings[..i + 1], c) == Column(ratings[..i], c) + MemberColumn(ratings[i].studentRatings, c)
  {
    assert ratings[..i + 1][..i] == ratings[..i];
  }

  /** One entry offered: only the pair of the category it names moves. */
  lemma OfferEntryStep(before: map<Category, Pair>, after: map<Category, Pair>, prefix: map<Category, seq<real>>,
                       entries: seq<(string, real)>, j: int)
    requires 0 <= j < |entries| && AllCategories(before) && AllCategories(prefix)
    requires forall c: Category :: before[c] == TopTwo(prefix[c] + MemberColumn(entries[..j], c))
    requires after == match FromName(entries[j].0)
                      case Some(cat) => before[cat := Offer(before[cat], entries[j].1)]
                      case None => before
    ensures AllCategories(after)
    ensures forall c: Category :: after[c] == TopTwo(prefix[c] + MemberColumn(entries[..j + 1], c))
  {
    forall c: Category ensures after[c] == TopTwo(prefix[c] + MemberColumn(entries[..j + 1], c)) {
      MemberColumnSnoc(entries, j, c);
      var acc := prefix[c] + MemberColumn(entries[..j], c);
      if FromName(entries[j].0) == Some(c) {
        OfferAllSnoc(acc, entries[j].1);
        assert prefix[c] + MemberColumn(entries[..j + 1], c) == acc + [entries[j].1];
      } else {
        assert MemberColumn(entries[..j + 1], c) == MemberColumn(entries[..j], c);
      }
    }
  }

  /** Lines 11-75: one member's entries offered to the category pairs. */
  method OfferMember(tops0: map<Category, Pair>, entries: seq<(string, real)>, ghost prefix: map<Category, seq<real>>)
    returns (tops: map<Category, Pair>)
    requires AllCategories(tops0) && AllCategories(prefix)
    requires forall c: Category :: tops0[c] == TopTwo(prefix[c])
    ensures AllCategories(tops)
    ensures forall c: Category :: tops[c] == TopTwo(prefix[c] + MemberColumn(entries, c))
  {
    tops := tops0;
    assert entries[..0] == [];
    assert forall c: Category :: prefix[c] + MemberColumn(entries[..0], c) == prefix[c];
    for j := 0 to |entries|
      invariant AllCategories(tops)
      invariant forall c: Category :: tops[c] == TopTwo(prefix[c] + MemberColumn(entries[..j], c))
    {
      var (skill, value) := entries[j];
      ghost var before := tops;
      match FromName(skill) {
        case Some(cat) =>
          tops := tops[cat := Offer(tops[cat], value)];
        case None =>
          // the `default` case only logs
      }
      OfferEntryStep(before, tops, prefix, entries, j);
    }
    assert entries[..|entries|] == entries;
  }

  lemma SameMap(m1: map<string, real>, m2: map<string, real>)
    requires m1.Keys == m2.Keys
    requires forall k :: k in m1 ==> m1[k] == m2[k]
    ensures m1 == m2
  {
  }

  /** `calculateRatings`: the six pairs start at `[0, 0]`, every member's
      every recognised skill rating is offered to its category's pair, and
      each category's result is the mean of its pair. */
  method CalculateRatings(ratings: seq<MemberRating>) returns (res: map<string, real>)
    ensures res == Ratings(ratings)
    ensures res.Keys == CategoryNames()
    ensures forall c: Category :: res[Name(c)] == Mean(TopTwo(Column(ratings, c)))
  {
    var tops: map<Category, Pair> := map c: Category | c in Categories :: Pair(0.0, 0.0);
    assert forall c: Category :: c in Categories by {
      forall c: Category ensures c in Categories { CategoriesComplete(c); }
    }
    for i := 0 to |ratings|
      invariant AllCategories(tops)
      invariant forall c: Category :: tops[c] == TopTwo(Column(ratings[..i], c))
    {
      ghost var prefix := map c: Category | c in Categories :: Column(ratings[..i], c);
      tops := OfferMember(tops, ratings[i].studentRatings, prefix);
      forall c: Category ensures tops[c] == TopTwo(Column(ratings[..i + 1], c)) {
        ColumnSnoc(ratings, i, c);
      }
    }
    assert ratings[..|ratings|] == ratings;
    res := map k | k in CategoryNames() :: Mean(tops[FromName(k).value]);
    RatingsShape(ratings);
    forall k | k in CategoryNames() ensures res[k] == Ratings(ratings)[k] {
      var c := FromName(k).value;
      assert tops[c] == TopTwo(Column(ratings, c));
    }
    SameMap(res, Ratings(ratings));
    forall c: Category ensures res[Name(c)] == Mean(TopTwo(Column(ratings, c))) {
      assert Name(c) in CategoryNames();
    }
  }

  // ---------------------------------------------------------------------
  // What the pair holds
  // ---------------------------------------------------------------------

  /** `p` holds the two largest values of `m` counted with multiplicity,
      floored at 0: the top is at least every value and is one of them
      when positive; the second is at least every other value and, when
      positive, is a second occurrence. */
  ghost predicate IsTopTwo(p: Pair, m: multiset<real>) {
    && p.first >= p.second >= 0.0
    && (forall v :: v in m ==> v <= p.first)
    && (p.first > 0.0 ==> p.first in m)
    && (p.second > 0.0 ==> multiset{p.first, p.second} <= m)
    && (forall v :: v in m - multiset{p.first} ==> v <= p.second)
  }

  /** One offer keeps the characterisation. */
  lemma OfferKeepsTopTwo(p: Pair, m: multiset<real>, v: real)
    requires IsTopTwo(p, m)
    ensures IsTopTwo(Offer(p, v), m + multiset{v})
  {
    var m' := m + multiset{v};
    if v > p.first {
      assert m' - multiset{v} == m;
    } else if v > p.second {
      assert p.first in m;
      forall x | x in m' - multiset{p.first} ensures x <= v {
        if x != v {
          assert x in m - multiset{p.first};
        }
      }
    } else {
      forall x | x in m' - multiset{p.first} ensures x <= p.second {
        if x != v {
          assert x in m - multiset{p.first};
        }
      }
    }
  }

  /** After any sequence of offers the pair holds the two largest values. */
  lemma {:induction false} TopTwoCharacterised(vs: seq<real>)
    ensures IsTopTwo(TopTwo(vs), multiset(vs))
  {
    if vs != [] {
      var n := |vs| - 1;
      TopTwoCharacterised(vs[..n]);
      assert vs == vs[..n] + [vs[n]];
      OfferKeepsTopTwo(TopTwo(vs[..n]), multiset(vs[..n]), vs[n]);
    }
  }

  /** The two largest values of a multiset are unique. */
  lemma TopTwoUnique(p: Pair, q: Pair, m: multiset<real>)
    requires IsTopTwo(p, m) && IsTopTwo(q, m)
    ensures p == q
  {
    if p.first > 0.0 {
      assert p.first <= q.first;
    }
    if q.first > 0.0 {
      assert q.first <= p.first;
    }
    assert p.first == q.first;
    if p.second > 0.0 {
      assert p.second in m - multiset{p.first};
    }
    if q.second > 0.0 {
      assert q.second in m - multiset{q.first};
    }
  }

  /** The pair depends only on which values were offered, not their order. */
  lemma TopTwoOrderIndependent(vs: seq<real>, ws: seq<real>)
    requires multiset(vs) == multiset(ws)
    ensures TopTwo(vs) == TopTwo(ws)
  {
    TopTwoCharacterised(vs);
    TopTwoCharacterised(ws);
    TopTwoUnique(TopTwo(vs), TopTwo(ws), multiset(vs));
  }

  lemma {:induction false} ColumnConcat(a: seq<MemberRating>, b: seq<MemberRating>, c: Category)
    ensures Column(a + b, c) == Column(a, c) + Column(b, c)
  {
    if b != [] {
      var n := |b| - 1;
      ColumnConcat(a, b[..n], c);
      assert (a + b)[..|a + b| - 1] == a + b[..n];
    } else {
      assert a + b == a;
    }
  }

  lemma RemoveOne(b: seq<MemberRating>, i: int)
    requires 0 <= i < |b|
    ensures b == b[..i] + [b[i]] + b[i + 1..]
    ensures multiset(b[..i] + b[i + 1..]) == multiset(b) - multiset{b[i]}
  {
    assert b == b[..i] + [b[i]] + b[i + 1..];
    assert multiset(b) == multiset(b[..i]) + multiset{b[i]} + multiset(b[i + 1..]);
  }

  /** Taking one member out of the list takes its ratings out of the column. */
  lemma ColumnRemove(b: seq<MemberRating>, i: int, c: Category)
    requires 0 <= i < |b|
    ensures multiset(Column(b, c))
            == multiset(Column(b[..i] + b[i + 1..], c)) + multiset(MemberColumn(b[i].studentRatings, c))
  {
    RemoveOne(b, i);
    var x := b[i];
    ColumnConcat(b[..i] + [x], b[i + 1..], c);
    ColumnConcat(b[..i], [x], c);
    ColumnConcat(b[..i], b[i + 1..], c);
    assert [x][..0] == [];
    assert Column([x], c) == MemberColumn(x.studentRatings, c);
  }

  /** The multiset of a column does not depend on the order of the members. */
  lemma {:induction false} ColumnPermutation(a: seq<MemberRating>, b: seq<MemberRating>, c: Category)
    requires multiset(a) == multiset(b)
    ensures multiset(Column(a, c)) == multiset(Column(b, c))
    decreases |a|
  {
    if a != [] {
      var n := |a| - 1;
      var x := a[n];
      assert a == a[..n] + [x];
      assert x in multiset(b);
      var i :| 0 <= i < |b| && b[i] == x;
      RemoveOne(b, i);
      assert multiset(a[..n]) == multiset(a) - multiset{x};
      ColumnPermutation(a[..n], b[..i] + b[i + 1..], c);
      ColumnRemove(b, i, c);
    }
  }

  /** The group rating does not depend on the order in which members are
      processed. */
  lemma RatingsOrderIndependent(a: seq<MemberRating>, b: seq<MemberRating>)
    requires multiset(a) == multiset(b)
    ensures Ratings(a) == Ratings(b)
  {
    forall k | k in Ratings(a) ensures Ratings(a)[k] == Ratings(b)[k] {
      var c := FromName(k).value;
      ColumnPermutation(a, b, c);
      TopTwoOrderIndependent(Column(a, c), Column(b, c));
    }
    SameMap(Ratings(a), Ratings(b));
  }

  /** With every offered rating in [0, 10] the category rating is in
      [0, 10] and at least half of every offered rating. */
  lemma RatingBounds(vs: seq<real>)
    requires forall i :: 0 <= i < |vs| ==> 0.0 <= vs[i] <= 10.0
    ensures 0.0 <= Mean(TopTwo(vs)) <= 10.0
    ensures forall i :: 0 <= i < |vs| ==> Mean(TopTwo(vs)) >= vs[i] / 2.0
  {
    TopTwoCharacterised(vs);
    var p := TopTwo(vs);
    if p.first > 0.0 {
      var i :| 0 <= i < |vs| && vs[i] == p.first;
    }
    forall i | 0 <= i < |vs| ensures Mean(p) >= vs[i] / 2.0 {
      assert vs[i] in multiset(vs);
    }
  }

  /** Backend ratings 9, 7, 5, 3, 1 give (9 + 7) / 2 = 8. */
  lemma BackendExample()
    ensures Mean(TopTwo([9.0, 7.0, 5.0, 3.0, 1.0])) == 8.0
  {
    OfferAllSnoc([], 9.0);
    assert [] + [9.0] == [9.0];
    OfferAllSnoc([9.0], 7.0);
    assert [9.0] + [7.0] == [9.0, 7.0];
    OfferAllSnoc([9.0, 7.0], 5.0);
    assert [9.0, 7.0] + [5.0] == [9.0, 7.0, 5.0];
    OfferAllSnoc([9.0, 7.0, 5.0], 3.0);
    assert [9.0, 7.0, 5.0] + [3.0] == [9.0, 7.0, 5.0, 3.0];
    OfferAllSnoc([9.0, 7.0, 5.0, 3.0], 1.0);
    assert [9.0, 7.0, 5.0, 3.0] + [1.0] == [9.0, 7.0, 5.0, 3.0, 1.0];
  }

  // ---------------------------------------------------------------------
  // allHaveStudentRatings and the handler's gate
  // ---------------------------------------------------------------------

  /** `allHaveStudentRatings`: false at the first record with no keys. It
      inspects the record itself, not its `student_ratings`. */
  method AllHaveStudentRatings(ratings: seq<MemberRating>) returns (ok: bool)
    ensures ok <==> forall i :: 0 <= i < |ratings| ==> |ratings[i].fields| != 0
  {
    for i := 0 to |ratings|
      invariant forall k :: 0 <= k < i ==> |ratings[k].fields| != 0
    {
      if |ratings[i].fields| == 0 {
        return false;
      }
    }
    return true;
  }

  /** The eligibility condition of line 109. */
  predicate Eligible(ratings: seq<MemberRating>, membersCount: int) {
    && membersCount >= 5
    && |ratings| == membersCount
    && forall i :: 0 <= i < |ratings| ==> |ratings[i].fields| != 0
  }

  /** The handler's outcome: the ratings written to the group (status 200)
      or the 400 'Incomplete update data' response. */
  datatype Outcome = Updated(groupRatings: map<string, real>) | IncompleteUpdate

  /** Lines 107-124: without `user_ratings` nothing is written; otherwise
      the group rating is computed for an eligible group and is `{}` for
      any other. */
  method HandleGroupUpdate(userRatings: Option<seq<MemberRating>>, membersCount: int) returns (r: Outcome)
    ensures userRatings.None? <==> r == IncompleteUpdate
    ensures userRatings.Some? && Eligible(userRatings.value, membersCount) ==> r == Updated(Ratings(userRatings.value))
    ensures userRatings.Some? && !Eligible(userRatings.value, membersCount) ==> r == Updated(map[])
  {
    if userRatings.Some? {
      var groupScores: map<string, real> := map[];
      var rs := userRatings.value;
      if membersCount >= 5 && |rs| == membersCount {
        var all := AllHaveStudentRatings(rs);
        if all {
          groupScores := CalculateRatings(rs);
        }
      }
      r := Updated(groupScores);
    } else {
      r := IncompleteUpdate;
    }
  }
}
