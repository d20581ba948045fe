/** The group-to-project allocator of the `group_project_allocation` edge
    function: every (rated group, preferred project) pair is scored, the
    scored candidates are sorted by descending score, and one greedy pass
    hands each group the first project in that order that still has a slot.

    Scores are modelled as exact reals (the source computes them in IEEE
    doubles). */
module Allocation {
  import opened Skills

  /** `{ project_id, slots, tags }` after the tags JSON has been parsed. */
  datatype Project = Project(id: string, slots: int, tags: seq<Tag>)

  /** One entry of a group's `preferred_projects`. */
  datatype Preference = Preference(projectId: string, rank: int)

  /** `{ group_id, group_ratings, preferred_projects }`. */
  datatype Group = Group(id: int, ratings: map<string, real>, preferred: seq<Preference>)

  /** One entry of `scoreStack`. */
  datatype Candidate = Candidate(score: real, groupId: int, projectId: string)

  // ---------------------------------------------------------------------
  // calculateScore
  // ---------------------------------------------------------------------

  /** Sum of the tag weights, accumulated front to back. */
  function WeightSum(tags: seq<Tag>): real {
    if tags == [] then 0.0 else WeightSum(tags[..|tags| - 1]) + tags[|tags| - 1].weight
  }

  /** `groupRatings[tag] || 0`: a tag the group has no rating for counts 0. */
  function RatingFor(ratings: map<string, real>, tag: string): real {
    if tag in ratings then ratings[tag] else 0.0
  }

  /** Sum of rating times weight over the tags, accumulated front to back. */
  function WeightedRatingSum(ratings: map<string, real>, tags: seq<Tag>): real {
    if tags == [] then 0.0
    else WeightedRatingSum(ratings, tags[..|tags| - 1])
         + RatingFor(ratings, tags[|tags| - 1].tag) * tags[|tags| - 1].weight
  }

  /** The division by the weight sum is defined: no tags (no division
      happens) or a non-zero weight sum (otherwise JS yields NaN). */
  predicate Divisible(tags: seq<Tag>) {
    tags == [] || WeightSum(tags) != 0.0
  }

  /** The preference multiplier `1.2 - rank * 0.1`. */
  function Multiplier(rank: int): real {
    1.2 - (rank as real) * 0.1
  }

  /** The weighted mean of the group's ratings under the project's weights;
      0 for a project without tags. */
  function Subscore(ratings: map<string, real>, tags: seq<Tag>): real
    requires Divisible(tags)
  {
    if tags == [] then 0.0 else WeightedRatingSum(ratings, tags) / WeightSum(tags)
  }

  /** The compatibility score of one (group, project, rank) triple. */
  function Score(ratings: map<string, real>, tags: seq<Tag>, rank: int): real
    requires Divisible(tags)
  {
    Subscore(ratings, tags) * Multiplier(rank)
  }

  /** The first loop of `calculateScore`: the weights summed front to back. */
  method TotalWeight(tags: seq<Tag>) returns (weightDivider: real)
    ensures weightDivider == WeightSum(tags)
  {
    weightDivider := 0.0;
    for i := 0 to |tags|
      invariant weightDivider == WeightSum(tags[..i])
    {
      assert tags[..i + 1][..i] == tags[..i];
      weightDivider := weightDivider + tags[i].weight;
    }
    assert tags[..|tags|] == tags;
  }

  /** `calculateScore`: two passes over the project's tags, the first
      summing the weights, the second adding each weighted rating divided
      by that sum; the total is then scaled by the rank multiplier. */
  method CalculateScore(ratings: map<string, real>, tags: seq<Tag>, rank: int) returns (score: real)
    requires Divisible(tags)
    ensures score == Score(ratings, tags, rank)
  {
    score := 0.0;
    var weightDivider := TotalWeight(tags);
    for i := 0 to |tags|
      invariant weightDivider == WeightSum(tags)
      invariant score == RunningShare(ratings, tags, i, weightDivider)
    {
      var rating := RatingFor(ratings, tags[i].tag);
      score := score + (rating * tags[i].weight) / weightDivider;
    }
    RunningShareIsSubscore(ratings, tags, weightDivider);
    score := score * Multiplier(rank);
  }

  /** What the second loop has accumulated after `i` tags: the sum of each
      weighted rating divided by the total weight `w`. */
  function RunningShare(ratings: map<string, real>, tags: seq<Tag>, i: int, w: real): real
    requires 0 <= i <= |tags| && (i > 0 ==> w != 0.0)
  {
    if i == 0 then 0.0
    else RunningShare(ratings, tags, i - 1, w) + (RatingFor(ratings, tags[i - 1].tag) * tags[i - 1].weight) / w
  }

  /** Summing the shares is dividing the weighted sum once. */
  lemma {:induction false} RunningShareIsMean(ratings: map<string, real>, tags: seq<Tag>, i: int, w: real)
    requires 0 <= i <= |tags| && w != 0.0
    ensures RunningShare(ratings, tags, i, w) == WeightedRatingSum(ratings, tags[..i]) / w
  {
    if i > 0 {
      RunningShareIsMean(ratings, tags, i - 1, w);
      assert tags[..i][..i - 1] == tags[..i - 1];
      SumOfQuotients(WeightedRatingSum(ratings, tags[..i - 1]), RatingFor(ratings, tags[i - 1].tag) * tags[i - 1].weight, w);
    }
  }

  /** After the second loop the running share is the weighted mean. */
  lemma RunningShareIsSubscore(ratings: map<string, real>, tags: seq<Tag>, w: real)
    requires Divisible(tags) && w == WeightSum(tags)
    ensures RunningShare(ratings, tags, |tags|, w) == Subscore(ratings, tags)
  {
    if tags != [] {
      RunningShareIsMean(ratings, tags, |tags|, w);
      assert tags[..|tags|] == tags;
    }
  }

  lemma SumOfQuotients(a: real, b: real, w: real)
    requires w != 0.0
    ensures a / w + b / w == (a + b) / w
  {
  }

  /** With non-negative weights and ratings, the weight sum and the
      weighted sum are non-negative. */
  lemma {:induction false} WeightedSumNonNegative(ratings: map<string, real>, tags: seq<Tag>)
    requires forall i :: 0 <= i < |tags| ==> tags[i].weight >= 0.0
    requires forall i :: 0 <= i < |tags| ==> RatingFor(ratings, tags[i].tag) >= 0.0
    ensures WeightSum(tags) >= 0.0
    ensures WeightedRatingSum(ratings, tags) >= 0.0
  {
    if tags != [] {
      var n := |tags| - 1;
      WeightedSumNonNegative(ratings, tags[..n]);
      var r, w := RatingFor(ratings, tags[n].tag), tags[n].weight;
      assert r * w >= 0.0;
    }
  }

  /** With non-negative weights and ratings at most `hi`, the weighted sum
      is at most `hi` times the weight sum. */
  lemma {:induction false} WeightedSumAtMost(ratings: map<string, real>, tags: seq<Tag>, hi: real)
    requires forall i :: 0 <= i < |tags| ==> tags[i].weight >= 0.0
    requires forall i :: 0 <= i < |tags| ==> RatingFor(ratings, tags[i].tag) <= hi
    ensures WeightedRatingSum(ratings, tags) <= hi * WeightSum(tags)
  {
    if tags != [] {
      var n := |tags| - 1;
      WeightedSumAtMost(ratings, tags[..n], hi);
      var r, w := RatingFor(ratings, tags[n].tag), tags[n].weight;
      assert r <= hi;
      ProductNonNegative(hi - r, w);
      assert r * w <= hi * w;
      assert hi * WeightSum(tags) == hi * WeightSum(tags[..n]) + hi * w;
    }
  }

  lemma ProductNonNegative(a: real, b: real)
    requires a >= 0.0 && b >= 0.0
    ensures a * b >= 0.0
  {
  }

  lemma ProductPositive(a: real, b: real)
    requires a > 0.0 && b > 0.0
    ensures a * b > 0.0
  {
  }

  lemma QuotientAtMost(s: real, w: real, k: real)
    requires w > 0.0 && 0.0 <= s <= k * w
    ensures 0.0 <= s / w <= k
  {
    var q := s / w;
    assert q * w == s;
    assert (q - k) * w == s - k * w;
    if q > k {
      ProductPositive(q - k, w);
    }
    if q < 0.0 {
      ProductPositive(-q, w);
    }
  }

  /** With non-negative weights and ratings in [0, 10], the weighted mean
      (the score before the rank multiplier) is in [0, 10]. */
  lemma SubscoreInRange(ratings: map<string, real>, tags: seq<Tag>)
    requires Divisible(tags)
    requires forall i :: 0 <= i < |tags| ==> tags[i].weight >= 0.0
    requires forall i :: 0 <= i < |tags| ==> 0.0 <= RatingFor(ratings, tags[i].tag) <= 10.0
    ensures 0.0 <= Subscore(ratings, tags) <= 10.0
  {
    if tags != [] {
      WeightedSumNonNegative(ratings, tags);
      WeightedSumAtMost(ratings, tags, 10.0);
      var s, w := WeightedRatingSum(ratings, tags), WeightSum(tags);
      assert w > 0.0;
      QuotientAtMost(s, w, 10.0);
    }
  }

  /** For non-negative ratings and weights the score never increases as the
      rank gets worse (numerically larger). */
  lemma ScoreNonIncreasingInRank(ratings: map<string, real>, tags: seq<Tag>, rank1: int, rank2: int)
    requires Divisible(tags)
    requires forall i :: 0 <= i < |tags| ==> tags[i].weight >= 0.0
    requires forall i :: 0 <= i < |tags| ==> RatingFor(ratings, tags[i].tag) >= 0.0
    requires rank1 <= rank2
    ensures Score(ratings, tags, rank1) >= Score(ratings, tags, rank2)
  {
    WeightedSumNonNegative(ratings, tags);
    var sub := Subscore(ratings, tags);
    assert sub >= 0.0;
    assert Multiplier(rank1) >= Multiplier(rank2);
    assert sub * Multiplier(rank1) >= sub * Multiplier(rank2) by {
      assert sub * (Multiplier(rank1) - Multiplier(rank2)) >= 0.0;
    }
  }

  /** A missing rating and an explicit rating of 0 give the same score. */
  lemma {:induction false} MissingRatingCountsZero(ratings: map<string, real>, tags: seq<Tag>, tag: string)
    requires tag !in ratings
    ensures WeightedRatingSum(ratings[tag := 0.0], tags) == WeightedRatingSum(ratings, tags)
  {
    if tags != [] {
      MissingRatingCountsZero(ratings, tags[..|tags| - 1], tag);
    }
  }

  /** Ratings {AI: 8, DSA: 2}, weights {AI: 1, DSA: 1}, rank 1: the mean
      is 5 and the score 5 * 1.1 = 5.5. */
  lemma ScoreExample()
    ensures Score(map["AI" := 8.0, "DSA" := 2.0], [Tag("AI", 1.0), Tag("DSA", 1.0)], 1) == 5.5
  {
    var ratings := map["AI" := 8.0, "DSA" := 2.0];
    var tags := [Tag("AI", 1.0), Tag("DSA", 1.0)];
    assert tags[..1] == [Tag("AI", 1.0)] && tags[..1][..0] == [];
    assert RatingFor(ratings, "AI") == 8.0 && RatingFor(ratings, "DSA") == 2.0;
    assert WeightSum(tags) == 2.0;
    assert WeightedRatingSum(ratings, tags) == 10.0;
    assert Subscore(ratings, tags) == 5.0;
  }

  // ---------------------------------------------------------------------
  // scoreStack.sort((a, b) => b.score - a.score)
  // ---------------------------------------------------------------------

  /** Each candidate scores at least as much as the next one. */
  predicate SortedByScore(s: seq<Candidate>) {
    |s| <= 1 || (s[0].score >= s[1].score && SortedByScore(s[1..]))
  }

  /** A sorted list is sorted pairwise: no candidate outscores an earlier one. */
  lemma {:induction false} SortedPairwise(s: seq<Candidate>, i: int, j: int)
    requires SortedByScore(s)
    requires 0 <= i < j < |s|
    ensures s[i].score >= s[j].score
  {
    if i > 0 {
      SortedPairwise(s[1..], i - 1, j - 1);
    } else if j > 1 {
      SortedPairwise(s[1..], 0, j - 1);
    }
  }

  /** Inserts `c` in front of the first candidate that does not outscore
      it, so that `c` precedes every candidate of equal score. */
  function Insert(c: Candidate, s: seq<Candidate>): (r: seq<Candidate>)
    requires SortedByScore(s)
    ensures SortedByScore(r)
    ensures multiset(r) == multiset(s) + multiset{c}
    ensures |r| == |s| + 1
    ensures r[0] == c || (|s| > 0 && r[0] == s[0])
  {
    if s == [] then [c]
    else if c.score >= s[0].score then [c] + s
    else
      var rest := Insert(c, s[1..]);
      assert s == [s[0]] + s[1..];
      assert ([s[0]] + rest)[1..] == rest;
      [s[0]] + rest
  }

  /** The stable descending sort of `Array.prototype.sort` with the
      comparator `b.score - a.score`: sorted, and a permutation. */
  function SortByScore(s: seq<Candidate>): (r: seq<Candidate>)
    ensures SortedByScore(r)
    ensures multiset(r) == multiset(s)
    ensures |r| == |s|
  {
    if s == [] then []
    else
      assert s == [s[0]] + s[1..];
      Insert(s[0], SortByScore(s[1..]))
  }

  /** The candidates of score `v`, in order. */
  function WithScore(s: seq<Candidate>, v: real): seq<Candidate> {
    if s == [] then []
    else (if s[0].score == v then [s[0]] else []) + WithScore(s[1..], v)
  }

  lemma WithScoreCons(x: Candidate, s: seq<Candidate>, v: real)
    ensures WithScore([x] + s, v) == (if x.score == v then [x] else []) + WithScore(s, v)
  {
    assert ([x] + s)[1..] == s;
  }

  /** Two candidates of different scores can trade places without
      changing the candidates of any one score. */
  lemma SwapDistinctScores(x: Candidate, y: Candidate, s: seq<Candidate>, v: real)
    requires x.score != y.score
    ensures WithScore([x] + ([y] + s), v) == WithScore([y] + ([x] + s), v)
  {
    WithScoreCons(x, [y] + s, v);
    WithScoreCons(y, s, v);
    WithScoreCons(y, [x] + s, v);
    WithScoreCons(x, s, v);
  }

  lemma {:induction false} InsertKeepsTies(c: Candidate, s: seq<Candidate>, v: real)
    requires SortedByScore(s)
    ensures WithScore(Insert(c, s), v) == WithScore([c] + s, v)
  {
    if s != [] && c.score < s[0].score {
      var s0, s1 := s[0], s[1..];
      var inserted := Insert(c, s1);
      assert Insert(c, s) == [s0] + inserted;
      InsertKeepsTies(c, s1, v);
      WithScoreCons(s0, inserted, v);
      WithScoreCons(s0, [c] + s1, v);
      assert WithScore(Insert(c, s), v) == WithScore([s0] + ([c] + s1), v);
      SwapDistinctScores(s0, c, s1, v);
      assert [s0] + s1 == s;
    }
  }

  /** Stability: for every score, the candidates with that score keep
      their generation order. */
  lemma {:induction false} SortIsStable(s: seq<Candidate>, v: real)
    ensures WithScore(SortByScore(s), v) == WithScore(s, v)
  {
    if s != [] {
      SortIsStable(s[1..], v);
      InsertKeepsTies(s[0], SortByScore(s[1..]), v);
      WithScoreCons(s[0], SortByScore(s[1..]), v);
      WithScoreCons(s[0], s[1..], v);
      assert s == [s[0]] + s[1..];
    }
  }

  // ---------------------------------------------------------------------
  // The project tables and the candidate list
  // ---------------------------------------------------------------------

  /** `projectWeights`: each project id to its tags, a later project
      overwriting an earlier one with the same id. */
  function WeightsOf(projects: seq<Project>): map<string, seq<Tag>> {
    if projects == [] then map[]
    else
      var p := projects[|projects| - 1];
      WeightsOf(projects[..|projects| - 1])[p.id := p.tags]
  }

  /** `projectSlots`: the ids of projects with positive slots, to their slots. */
  function SlotsOf(projects: seq<Project>): (m: map<string, int>)
    ensures forall id :: id in m ==> m[id] > 0
  {
    if projects == [] then map[]
    else
      var p := projects[|projects| - 1];
      var m := SlotsOf(projects[..|projects| - 1]);
      if p.slots > 0 then m[p.id := p.slots] else m
  }

  /** With distinct project ids, each project's initial slot count in the
      dictionary is its `slots` if positive, and it is absent otherwise. */
  lemma {:induction false} SlotsOfProject(projects: seq<Project>, i: int)
    requires 0 <= i < |projects|
    requires forall j, k :: 0 <= j < k < |projects| ==> projects[j].id != projects[k].id
    ensures Remaining(SlotsOf(projects), projects[i].id) == if projects[i].slots > 0 then projects[i].slots else 0
  {
    var n := |projects| - 1;
    if i < n {
      SlotsOfProject(projects[..n], i);
    } else {
      SlotsOfAbsent(projects[..n], projects[n].id);
    }
  }

  lemma {:induction false} SlotsOfAbsent(projects: seq<Project>, id: string)
    requires forall j :: 0 <= j < |projects| ==> projects[j].id != id
    ensures id !in SlotsOf(projects)
  {
    if projects != [] {
      SlotsOfAbsent(projects[..|projects| - 1], id);
    }
  }

  /** `Object.keys(group.group_ratings).length !== 0`. */
  predicate Rated(g: Group) {
    |g.ratings| != 0
  }

  /** Every preference names a known project whose weights can be divided by. */
  predicate Scorable(weights: map<string, seq<Tag>>, prefs: seq<Preference>) {
    forall p :: p in prefs ==> p.projectId in weights && Divisible(weights[p.projectId])
  }

  /** What `calculateScore` needs of every rated group's preferences: the
      source throws on an unknown project and yields NaN on a zero weight sum. */
  predicate AllScorable(weights: map<string, seq<Tag>>, groups: seq<Group>) {
    forall g :: g in groups && Rated(g) ==> Scorable(weights, g.preferred)
  }

  predicate DistinctIds(groups: seq<Group>) {
    forall i, j :: 0 <= i < j < |groups| ==> groups[i].id != groups[j].id
  }

  /** The candidates of one group, one per preference, in list order. */
  function GroupCandidates(g: Group, prefs: seq<Preference>, weights: map<string, seq<Tag>>): seq<Candidate>
    requires Scorable(weights, prefs)
  {
    if prefs == [] then []
    else
      var p := prefs[|prefs| - 1];
      GroupCandidates(g, prefs[..|prefs| - 1], weights)
      + [Candidate(Score(g.ratings, weights[p.projectId], p.rank), g.id, p.projectId)]
  }

  /** `scoreStack` before sorting: groups in input order, each rated
      group's preferences in list order; unrated groups contribute none. */
  function Candidates(groups: seq<Group>, weights: map<string, seq<Tag>>): seq<Candidate>
    requires AllScorable(weights, groups)
  {
    if groups == [] then []
    else
      var g := groups[|groups| - 1];
      Candidates(groups[..|groups| - 1], weights)
      + (if Rated(g) then GroupCandidates(g, g.preferred, weights) else [])
  }

  /** Every candidate comes from a rated group and one of its preferences. */
  lemma {:induction false} CandidateOrigin(groups: seq<Group>, weights: map<string, seq<Tag>>, c: Candidate)
    requires AllScorable(weights, groups)
    requires c in Candidates(groups, weights)
    ensures Prefers(groups, c.groupId, c.projectId)
  {
    var n := |groups| - 1;
    var g := groups[n];
    if c in Candidates(groups[..n], weights) {
      CandidateOrigin(groups[..n], weights, c);
      var h, p :| h in groups[..n] && Rated(h) && p in h.preferred && h.id == c.groupId && p.projectId == c.projectId;
      assert h in groups;
    } else {
      GroupCandidateOrigin(g, g.preferred, weights, c);
    }
  }

  lemma {:induction false} GroupCandidateOrigin(g: Group, prefs: seq<Preference>, weights: map<string, seq<Tag>>, c: Candidate)
    requires Scorable(weights, prefs)
    requires c in GroupCandidates(g, prefs, weights)
    ensures c.groupId == g.id
    ensures exists p :: p in prefs && p.projectId == c.projectId
  {
    var n := |prefs| - 1;
    if c in GroupCandidates(g, prefs[..n], weights) {
      GroupCandidateOrigin(g, prefs[..n], weights, c);
      var p :| p in prefs[..n] && p.projectId == c.projectId;
      assert p in prefs;
    } else {
      assert prefs[n] in prefs;
    }
  }

  /** Every preference of every rated group yields a candidate. */
  lemma {:induction false} CandidateCoverage(groups: seq<Group>, weights: map<string, seq<Tag>>, i: int, p: Preference)
    requires AllScorable(weights, groups)
    requires 0 <= i < |groups| && Rated(groups[i]) && p in groups[i].preferred
    ensures groups[i] in groups
    ensures Candidate(Score(groups[i].ratings, weights[p.projectId], p.rank), groups[i].id, p.projectId)
            in Candidates(groups, weights)
  {
    var n := |groups| - 1;
    if i < n {
      CandidateCoverage(groups[..n], weights, i, p);
    } else {
      assert groups[n] in groups;
      GroupCandidateCoverage(groups[n], groups[n].preferred, weights, p);
    }
  }

  lemma {:induction false} GroupCandidateCoverage(g: Group, prefs: seq<Preference>, weights: map<string, seq<Tag>>, p: Preference)
    requires Scorable(weights, prefs)
    requires p in prefs
    ensures Candidate(Score(g.ratings, weights[p.projectId], p.rank), g.id, p.projectId) in GroupCandidates(g, prefs, weights)
  {
    var n := |prefs| - 1;
    if prefs[n] != p {
      assert p in prefs[..n] by {
        assert prefs == prefs[..n] + [prefs[n]];
      }
      GroupCandidateCoverage(g, prefs[..n], weights, p);
    }
  }

  // ---------------------------------------------------------------------
  // The allocation result
  // ---------------------------------------------------------------------

  /** Some rated group with this id lists this project among its preferences. */
  ghost predicate Prefers(groups: seq<Group>, groupId: int, projectId: string) {
    exists g, p :: g in groups && Rated(g) && p in g.preferred && g.id == groupId && p.projectId == projectId
  }

  /** The slots a dictionary still grants a project (absent means none). */
  function Remaining(slots: map<string, int>, projectId: string): int {
    if projectId in slots then slots[projectId] else 0
  }

  /** The groups allocated to a project. */
  function AllocatedTo(allocatedGroups: map<int, string>, projectId: string): set<int> {
    set g | g in allocatedGroups && allocatedGroups[g] == projectId
  }

  function GroupIds(groups: seq<Group>): set<int> {
    set g | g in groups :: g.id
  }

  function UnratedIds(groups: seq<Group>): set<int> {
    set g | g in groups && !Rated(g) :: g.id
  }

  function CandidateIds(s: seq<Candidate>): set<int> {
    set c | c in s :: c.groupId
  }

  /** How many of the candidates name the project. */
  function ProjectCount(s: seq<Candidate>, projectId: string): nat {
    if s == [] then 0
    else ProjectCount(s[..|s| - 1], projectId) + (if s[|s| - 1].projectId == projectId then 1 else 0)
  }

  /** Candidate `k` is the first one of its group, and fewer earlier
      candidates name its project than the project has slots: the greedy
      pass cannot fail to honour it. */
  ghost predicate Uncontested(sorted: seq<Candidate>, k: int, initial: map<string, int>) {
    && 0 <= k < |sorted|
    && (forall j :: 0 <= j < k ==> sorted[j].groupId != sorted[k].groupId)
    && ProjectCount(sorted[..k], sorted[k].projectId) < Remaining(initial, sorted[k].projectId)
  }

  lemma AllocateOne(allocatedGroups: map<int, string>, g: int, p: string, q: string)
    requires g !in allocatedGroups
    ensures AllocatedTo(allocatedGroups[g := p], q) == if q == p then AllocatedTo(allocatedGroups, q) + {g} else AllocatedTo(allocatedGroups, q)
    ensures |AllocatedTo(allocatedGroups[g := p], q)| == |AllocatedTo(allocatedGroups, q)| + if q == p then 1 else 0
  {
    assert g !in AllocatedTo(allocatedGroups, q);
    var a := allocatedGroups[g := p];
    if q == p {
      assert AllocatedTo(a, q) == AllocatedTo(allocatedGroups, q) + {g};
    } else {
      assert AllocatedTo(a, q) == AllocatedTo(allocatedGroups, q);
    }
  }

  /** Lines 74-79: `projectWeights` and `projectSlots`. */
  method BuildProjectTables(projects: seq<Project>) returns (weights: map<string, seq<Tag>>, slots: map<string, int>)
    ensures weights == WeightsOf(projects)
    ensures slots == SlotsOf(projects)
    ensures forall id :: id in slots ==> slots[id] > 0
  {
    weights, slots := map[], map[];
    for i := 0 to |projects|
      invariant weights == WeightsOf(projects[..i])
      invariant slots == SlotsOf(projects[..i])
    {
      assert projects[..i + 1][..i] == projects[..i];
      weights := weights[projects[i].id := projects[i].tags];
      if projects[i].slots > 0 {
        slots := slots[projects[i].id := projects[i].slots];
      }
    }
    assert projects[..|projects|] == projects;
  }

  lemma UnratedIdsSnoc(groups: seq<Group>, g: Group)
    ensures UnratedIds(groups + [g]) == UnratedIds(groups) + (if Rated(g) then {} else {g.id})
  {
    assert forall h :: h in groups + [g] <==> h in groups || h == g;
  }

  /** Lines 87-92: the candidates of one rated group, pushed in the order
      of its preferences. */
  method PushGroupCandidates(g: Group, weights: map<string, seq<Tag>>, stack: seq<Candidate>)
    returns (scoreStack: seq<Candidate>)
    requires Scorable(weights, g.preferred)
    ensures scoreStack == stack + GroupCandidates(g, g.preferred, weights)
  {
    scoreStack := stack;
    for j := 0 to |g.preferred|
      invariant scoreStack == stack + GroupCandidates(g, g.preferred[..j], weights)
    {
      assert g.preferred[..j + 1][..j] == g.preferred[..j];
      var pref := g.preferred[j];
      assert pref in g.preferred;
      var score := CalculateScore(g.ratings, weights[pref.projectId], pref.rank);
      scoreStack := scoreStack + [Candidate(score, g.id, pref.projectId)];
    }
    assert g.preferred[..|g.preferred|] == g.preferred;
  }

  lemma AllScorablePrefix(weights: map<string, seq<Tag>>, groups: seq<Group>, i: int)
    requires AllScorable(weights, groups) && 0 <= i <= |groups|
    ensures AllScorable(weights, groups[..i])
  {
    assert forall g :: g in groups[..i] ==> g in groups;
  }

  lemma CandidatesSnoc(weights: map<string, seq<Tag>>, groups: seq<Group>, i: int)
    requires AllScorable(weights, groups) && 0 <= i < |groups|
    ensures AllScorable(weights, groups[..i]) && AllScorable(weights, groups[..i + 1])
    ensures groups[i] in groups
    ensures Candidates(groups[..i + 1], weights) == Candidates(groups[..i], weights)
            + (if Rated(groups[i]) then GroupCandidates(groups[i], groups[i].preferred, weights) else [])
    ensures UnratedIds(groups[..i + 1]) == UnratedIds(groups[..i]) + (if Rated(groups[i]) then {} else {groups[i].id})
  {
    AllScorablePrefix(weights, groups, i);
    AllScorablePrefix(weights, groups, i + 1);
    assert groups[..i + 1][..i] == groups[..i];
    assert groups[..i + 1] == groups[..i] + [groups[i]];
    UnratedIdsSnoc(groups[..i], groups[i]);
  }

  /** Lines 81-94: unrated groups go straight to the unallocated set, every
      preference of a rated group is scored and pushed. */
  method ScoreCandidates(groups: seq<Group>, weights: map<string, seq<Tag>>)
    returns (scoreStack: seq<Candidate>, unallocatedGroups: set<int>)
    requires AllScorable(weights, groups)
    ensures scoreStack == Candidates(groups, weights)
    ensures unallocatedGroups == UnratedIds(groups)
  {
    scoreStack, unallocatedGroups := [], {};
    for i := 0 to |groups|
      invariant AllScorable(weights, groups[..i])
      invariant scoreStack == Candidates(groups[..i], weights)
      invariant unallocatedGroups == UnratedIds(groups[..i])
    {
      CandidatesSnoc(weights, groups, i);
      var g := groups[i];
      if |g.ratings| == 0 {
        unallocatedGroups := unallocatedGroups + {g.id};
      } else {
        scoreStack := PushGroupCandidates(g, weights, scoreStack);
      }
    }
    assert groups[..|groups|] == groups;
  }

  /** What holds after the greedy pass has looked at the first `i` sorted
      candidates, with allocations `a`, slot dictionary `slots` and
      unallocated set `u`. */
  ghost predicate PassInvariant(sorted: seq<Candidate>, initial: map<string, int>, unallocated0: set<int>,
                                i: int, a: map<int, string>, slots: map<string, int>, u: set<int>)
  {
    && 0 <= i <= |sorted|
    // the dictionary only holds positive counts
    && (forall id :: id in slots ==> slots[id] > 0)
    // every slot is either still free or taken by an allocated group
    && (forall id :: |AllocatedTo(a, id)| + Remaining(slots, id) == Remaining(initial, id))
    && (forall id :: |AllocatedTo(a, id)| <= ProjectCount(sorted[..i], id))
    // every allocation was made from an earlier candidate
    && (forall g :: g in a ==> exists k :: 0 <= k < i && sorted[k].groupId == g && sorted[k].projectId == a[g])
    && unallocated0 !! CandidateIds(sorted)
    && unallocated0 <= u <= unallocated0 + CandidateIds(sorted)
    // a group marked by the pass was marked once no slot was left anywhere
    && (forall g :: g in u ==> g in unallocated0 || slots == map[])
    && a.Keys !! u
    // every earlier candidate got its group allocated or found its project full
    && (forall k :: 0 <= k < i ==> sorted[k].groupId in a || sorted[k].projectId !in slots)
    && (forall k :: 0 <= k < i && Uncontested(sorted, k, initial) ==>
          sorted[k].groupId in a && a[sorted[k].groupId] == sorted[k].projectId)
  }

  lemma ProjectCountSnoc(s: seq<Candidate>, i: int, id: string)
    requires 0 <= i < |s|
    ensures ProjectCount(s[..i + 1], id) == ProjectCount(s[..i], id) + if s[i].projectId == id then 1 else 0
  {
    assert s[..i + 1][..i] == s[..i];
  }

  /** An uncontested candidate finds its group unallocated and a slot left. */
  lemma UncontestedIsFree(sorted: seq<Candidate>, initial: map<string, int>, unallocated0: set<int>,
                          i: int, a: map<int, string>, slots: map<string, int>, u: set<int>)
    requires PassInvariant(sorted, initial, unallocated0, i, a, slots, u)
    requires Uncontested(sorted, i, initial)
    ensures sorted[i].groupId !in a && sorted[i].projectId in slots
  {
    var c := sorted[i];
    assert |AllocatedTo(a, c.projectId)| < Remaining(initial, c.projectId);
  }

  /** Lines 100-104: the candidate's group takes a slot of its project. */
  lemma PassAllocate(sorted: seq<Candidate>, initial: map<string, int>, unallocated0: set<int>,
                     i: int, a: map<int, string>, slots: map<string, int>, u: set<int>, slots': map<string, int>)
    requires PassInvariant(sorted, initial, unallocated0, i, a, slots, u)
    requires i < |sorted| && sorted[i].groupId !in a && sorted[i].projectId in slots
    requires slots' == if slots[sorted[i].projectId] == 1 then slots - {sorted[i].projectId}
                       else slots[sorted[i].projectId := slots[sorted[i].projectId] - 1]
    ensures PassInvariant(sorted, initial, unallocated0, i + 1, a[sorted[i].groupId := sorted[i].projectId], slots', u)
  {
    var c := sorted[i];
    var a' := a[c.groupId := c.projectId];
    forall id ensures |AllocatedTo(a', id)| == |AllocatedTo(a, id)| + if id == c.projectId then 1 else 0 {
      AllocateOne(a, c.groupId, c.projectId, id);
    }
    forall id ensures |AllocatedTo(a', id)| <= ProjectCount(sorted[..i + 1], id) {
      ProjectCountSnoc(sorted, i, id);
    }
    forall id ensures |AllocatedTo(a', id)| + Remaining(slots', id) == Remaining(initial, id) {
    }
    forall g | g in a' ensures exists k :: 0 <= k < i + 1 && sorted[k].groupId == g && sorted[k].projectId == a'[g] {
      if g != c.groupId {
        var k :| 0 <= k < i && sorted[k].groupId == g && sorted[k].projectId == a[g];
        assert 0 <= k < i + 1 && sorted[k].groupId == g && sorted[k].projectId == a'[g];
      }
    }
    assert slots != map[];
    assert c in sorted;
  }

  /** Lines 105-107: no project has a slot left, so the group is marked. */
  lemma PassMark(sorted: seq<Candidate>, initial: map<string, int>, unallocated0: set<int>,
                 i: int, a: map<int, string>, slots: map<string, int>, u: set<int>)
    requires PassInvariant(sorted, initial, unallocated0, i, a, slots, u)
    requires i < |sorted| && sorted[i].groupId !in a && |slots| == 0
    ensures PassInvariant(sorted, initial, unallocated0, i + 1, a, slots, u + {sorted[i].groupId})
  {
    var c := sorted[i];
    assert c in sorted;
    forall id ensures |AllocatedTo(a, id)| <= ProjectCount(sorted[..i + 1], id) {
      ProjectCountSnoc(sorted, i, id);
    }
    if Uncontested(sorted, i, initial) {
      UncontestedIsFree(sorted, initial, unallocated0, i, a, slots, u);
    }
  }

  /** A candidate whose group already has a project, or whose project is
      full while others are not, changes nothing. */
  lemma PassSkip(sorted: seq<Candidate>, initial: map<string, int>, unallocated0: set<int>,
                 i: int, a: map<int, string>, slots: map<string, int>, u: set<int>)
    requires PassInvariant(sorted, initial, unallocated0, i, a, slots, u)
    requires i < |sorted| && (sorted[i].groupId in a || sorted[i].projectId !in slots)
    ensures PassInvariant(sorted, initial, unallocated0, i + 1, a, slots, u)
  {
    forall id ensures |AllocatedTo(a, id)| <= ProjectCount(sorted[..i + 1], id) {
      ProjectCountSnoc(sorted, i, id);
    }
    if Uncontested(sorted, i, initial) {
      UncontestedIsFree(sorted, initial, unallocated0, i, a, slots, u);
    }
  }

  /** Lines 99-109: one pass over the sorted candidates. A candidate whose
      group is not yet allocated takes a slot of its project if one is
      left; if no project has a slot left at all, its group is marked
      unallocated. */
  method AssignInOrder(sorted: seq<Candidate>, initial: map<string, int>, unallocated0: set<int>)
    returns (allocatedGroups: map<int, string>, unallocatedGroups: set<int>)
    requires forall id :: id in initial ==> initial[id] > 0
    requires unallocated0 !! CandidateIds(sorted)
    ensures allocatedGroups.Keys !! unallocatedGroups
    ensures unallocated0 <= unallocatedGroups <= unallocated0 + CandidateIds(sorted)
    ensures forall g :: g in allocatedGroups ==> exists k :: 0 <= k < |sorted| && sorted[k].groupId == g && sorted[k].projectId == allocatedGroups[g]
    ensures forall id :: |AllocatedTo(allocatedGroups, id)| <= Remaining(initial, id)
    ensures forall k :: 0 <= k < |sorted| ==>
              sorted[k].groupId in allocatedGroups || |AllocatedTo(allocatedGroups, sorted[k].projectId)| == Remaining(initial, sorted[k].projectId)
    ensures forall k :: Uncontested(sorted, k, initial) ==>
              sorted[k].groupId in allocatedGroups && allocatedGroups[sorted[k].groupId] == sorted[k].projectId
  {
    var projectSlots := initial;
    allocatedGroups, unallocatedGroups := map[], unallocated0;
    assert forall id :: AllocatedTo(allocatedGroups, id) == {};
    for i := 0 to |sorted|
      invariant PassInvariant(sorted, initial, unallocated0, i, allocatedGroups, projectSlots, unallocatedGroups)
    {
      var c := sorted[i];
      if c.groupId !in allocatedGroups && c.projectId in projectSlots && projectSlots[c.projectId] > 0 {
        ghost var slots' := if projectSlots[c.projectId] == 1 then projectSlots - {c.projectId}
                            else projectSlots[c.projectId := projectSlots[c.projectId] - 1];
        PassAllocate(sorted, initial, unallocated0, i, allocatedGroups, projectSlots, unallocatedGroups, slots');
        allocatedGroups := allocatedGroups[c.groupId := c.projectId];
        projectSlots := projectSlots[c.projectId := projectSlots[c.projectId] - 1];
        if projectSlots[c.projectId] == 0 {
          projectSlots := projectSlots - {c.projectId};
        }
        assert projectSlots == slots';
      } else if c.groupId !in allocatedGroups && |projectSlots| == 0 {
        PassMark(sorted, initial, unallocated0, i, allocatedGroups, projectSlots, unallocatedGroups);
        unallocatedGroups := unallocatedGroups + {c.groupId};
      } else {
        PassSkip(sorted, initial, unallocated0, i, allocatedGroups, projectSlots, unallocatedGroups);
      }
    }
    forall k | 0 <= k < |sorted| && sorted[k].groupId !in allocatedGroups
      ensures |AllocatedTo(allocatedGroups, sorted[k].projectId)| == Remaining(initial, sorted[k].projectId)
    {
      assert Remaining(projectSlots, sorted[k].projectId) == 0;
    }
  }

  lemma GroupIdsSnoc(groups: seq<Group>, i: int)
    requires 0 <= i < |groups|
    ensures GroupIds(groups[..i + 1]) == GroupIds(groups[..i]) + {groups[i].id}
  {
    assert groups[..i + 1] == groups[..i] + [groups[i]];
    assert forall h :: h in groups[..i + 1] <==> h in groups[..i] || h == groups[i];
  }

  /** Lines 111-115: every group the pass left without a project joins the
      unallocated set. */
  method MarkUnallocated(groups: seq<Group>, allocatedGroups: map<int, string>, unallocated0: set<int>)
    returns (unallocatedGroups: set<int>)
    ensures unallocatedGroups == unallocated0 + (GroupIds(groups) - allocatedGroups.Keys)
  {
    unallocatedGroups := unallocated0;
    for i := 0 to |groups|
      invariant unallocatedGroups == unallocated0 + (GroupIds(groups[..i]) - allocatedGroups.Keys)
    {
      GroupIdsSnoc(groups, i);
      if groups[i].id !in allocatedGroups {
        unallocatedGroups := unallocatedGroups + {groups[i].id};
      }
    }
    assert groups[..|groups|] == groups;
  }

  /** Every sorted candidate comes from a rated group and one of its preferences. */
  lemma SortedOrigin(groups: seq<Group>, weights: map<string, seq<Tag>>, sorted: seq<Candidate>, k: int)
    requires AllScorable(weights, groups)
    requires multiset(sorted) == multiset(Candidates(groups, weights))
    requires 0 <= k < |sorted|
    ensures Prefers(groups, sorted[k].groupId, sorted[k].projectId)
  {
    assert sorted[k] in multiset(Candidates(groups, weights));
    CandidateOrigin(groups, weights, sorted[k]);
  }

  /** The sorted candidates belong to rated input groups only. */
  lemma SortedCandidateIds(groups: seq<Group>, weights: map<string, seq<Tag>>, sorted: seq<Candidate>)
    requires DistinctIds(groups) && AllScorable(weights, groups)
    requires multiset(sorted) == multiset(Candidates(groups, weights))
    ensures CandidateIds(sorted) <= GroupIds(groups) - UnratedIds(groups)
  {
    forall gid | gid in CandidateIds(sorted) ensures gid in GroupIds(groups) - UnratedIds(groups) {
      var k :| 0 <= k < |sorted| && sorted[k].groupId == gid;
      SortedOrigin(groups, weights, sorted, k);
      var g, p :| g in groups && Rated(g) && p in g.preferred && g.id == gid && p.projectId == sorted[k].projectId;
      assert g in groups && Rated(g);
    }
  }

  /** Every preference of a rated group appears among the sorted candidates. */
  lemma SortedCoverage(groups: seq<Group>, weights: map<string, seq<Tag>>, sorted: seq<Candidate>, i: int, p: Preference)
    requires AllScorable(weights, groups)
    requires multiset(sorted) == multiset(Candidates(groups, weights))
    requires 0 <= i < |groups| && Rated(groups[i]) && p in groups[i].preferred
    ensures exists k :: 0 <= k < |sorted| && sorted[k].groupId == groups[i].id && sorted[k].projectId == p.projectId
  {
    CandidateCoverage(groups, weights, i, p);
    var c := Candidate(Score(groups[i].ratings, weights[p.projectId], p.rank), groups[i].id, p.projectId);
    assert c in multiset(sorted);
    var k :| 0 <= k < |sorted| && sorted[k] == c;
  }

  /** A group allocated by the pass asked for its project. */
  lemma ResultPrefers(groups: seq<Group>, weights: map<string, seq<Tag>>, sorted: seq<Candidate>, a: map<int, string>)
    requires AllScorable(weights, groups)
    requires multiset(sorted) == multiset(Candidates(groups, weights))
    requires forall g :: g in a ==> exists k :: 0 <= k < |sorted| && sorted[k].groupId == g && sorted[k].projectId == a[g]
    ensures forall g :: g in a ==> Prefers(groups, g, a[g])
  {
    forall g | g in a ensures Prefers(groups, g, a[g]) {
      var k :| 0 <= k < |sorted| && sorted[k].groupId == g && sorted[k].projectId == a[g];
      SortedOrigin(groups, weights, sorted, k);
    }
  }

  /** Every input group ends on exactly one side, unrated ones unallocated. */
  lemma ResultPartition(groups: seq<Group>, sorted: seq<Candidate>, a: map<int, string>, unrated: set<int>,
                        uPass: set<int>, u: set<int>)
    requires CandidateIds(sorted) <= GroupIds(groups) - unrated
    requires unrated == UnratedIds(groups)
    requires forall g :: g in a ==> exists k :: 0 <= k < |sorted| && sorted[k].groupId == g && sorted[k].projectId == a[g]
    requires a.Keys !! uPass && unrated <= uPass <= unrated + CandidateIds(sorted)
    requires u == uPass + (GroupIds(groups) - a.Keys)
    ensures a.Keys !! u
    ensures a.Keys + u == GroupIds(groups)
    ensures forall g :: g in groups && !Rated(g) ==> g.id in u
  {
    var ids := GroupIds(groups);
    forall gid | gid in a ensures gid in ids {
      var k :| 0 <= k < |sorted| && sorted[k].groupId == gid && sorted[k].projectId == a[gid];
      assert gid in CandidateIds(sorted);
    }
    assert unrated <= ids;
    assert uPass <= ids;
    forall g | g in groups && !Rated(g) ensures g.id in u {
      assert g.id in unrated;
    }
  }

  /** A rated group left unallocated found every project it asked for full. */
  lemma ResultMaximal(groups: seq<Group>, weights: map<string, seq<Tag>>, slots: map<string, int>,
                      sorted: seq<Candidate>, a: map<int, string>, u: set<int>)
    requires AllScorable(weights, groups)
    requires multiset(sorted) == multiset(Candidates(groups, weights))
    requires a.Keys !! u
    requires forall k :: 0 <= k < |sorted| ==>
               sorted[k].groupId in a || |AllocatedTo(a, sorted[k].projectId)| == Remaining(slots, sorted[k].projectId)
    ensures forall g, p :: g in groups && Rated(g) && g.id in u && p in g.preferred ==>
              |AllocatedTo(a, p.projectId)| == Remaining(slots, p.projectId)
  {
    forall g, p | g in groups && Rated(g) && g.id in u && p in g.preferred
      ensures |AllocatedTo(a, p.projectId)| == Remaining(slots, p.projectId)
    {
      var i :| 0 <= i < |groups| && groups[i] == g;
      SortedCoverage(groups, weights, sorted, i, p);
    }
  }

  /** `allocateGroupsToProjects`. */
  method AllocateGroupsToProjects(projects: seq<Project>, groups: seq<Group>)
    returns (allocatedGroups: map<int, string>, unallocatedGroups: set<int>)
    requires DistinctIds(groups)
    requires AllScorable(WeightsOf(projects), groups)
    // every input group ends on exactly one side
    ensures allocatedGroups.Keys !! unallocatedGroups
    ensures allocatedGroups.Keys + unallocatedGroups == GroupIds(groups)
    // a group without ratings is never allocated
    ensures forall g :: g in groups && !Rated(g) ==> g.id in unallocatedGroups
    // a group only gets a project it asked for
    ensures forall g :: g in allocatedGroups ==> Prefers(groups, g, allocatedGroups[g])
    // no project receives more groups than it had slots
    ensures forall id :: |AllocatedTo(allocatedGroups, id)| <= Remaining(SlotsOf(projects), id)
    // a rated group is left unallocatedGroups only when every project it asked for is full
    ensures forall g, p :: g in groups && Rated(g) && g.id in unallocatedGroups && p in g.preferred ==>
              |AllocatedTo(allocatedGroups, p.projectId)| == Remaining(SlotsOf(projects), p.projectId)
    // a candidate that is its group's first in sorted order, and whose
    // project is named by fewer earlier candidates than it has slots, is honoured
    ensures var sorted := SortByScore(Candidates(groups, WeightsOf(projects)));
            forall k :: Uncontested(sorted, k, SlotsOf(projects)) ==>
              sorted[k].groupId in allocatedGroups && allocatedGroups[sorted[k].groupId] == sorted[k].projectId
  {
    var projectWeights, projectSlots := BuildProjectTables(projects);
    var scoreStack, unrated := ScoreCandidates(groups, projectWeights);
    var sorted := SortByScore(scoreStack);
    SortedCandidateIds(groups, projectWeights, sorted);

    allocatedGroups, unallocatedGroups := AssignInOrder(sorted, projectSlots, unrated);
    ghost var afterPass := unallocatedGroups;
    unallocatedGroups := MarkUnallocated(groups, allocatedGroups, unallocatedGroups);

    ResultPrefers(groups, projectWeights, sorted, allocatedGroups);
    ResultPartition(groups, sorted, allocatedGroups, unrated, afterPass, unallocatedGroups);
    ResultMaximal(groups, projectWeights, projectSlots, sorted, allocatedGroups, unallocatedGroups);
  }

  /** The scenario of two groups with equal ratings competing for the
      single slot of the one project both ask for at rank 1. */
  const TieProjects: seq<Project> := [Project("P", 1, [Tag("Backend", 1.0)])]
  const TieGroups: seq<Group> := [Group(1, map["Backend" := 10.0], [Preference("P", 1)]),
                                  Group(2, map["Backend" := 10.0], [Preference("P", 1)])]

  lemma TieTables()
    ensures WeightsOf(TieProjects) == map["P" := [Tag("Backend", 1.0)]]
    ensures SlotsOf(TieProjects) == map["P" := 1]
  {
    assert TieProjects[..0] == [];
  }

  /** Both groups score 10 on the project's only tag, at the same rank. */
  lemma TieScorable()
    ensures DistinctIds(TieGroups) && AllScorable(WeightsOf(TieProjects), TieGroups)
    ensures GroupIds(TieGroups) == {1, 2}
  {
    TieTables();
    var tags := [Tag("Backend", 1.0)];
    assert tags[..0] == [];
    assert Divisible(tags) && WeightSum(tags) == 1.0;
    var g1, g2 := TieGroups[0], TieGroups[1];
    assert Rated(g1) by { assert "Backend" in g1.ratings; }
    assert Rated(g2) by { assert "Backend" in g2.ratings; }
    assert g1 in TieGroups && g2 in TieGroups;
  }

  lemma TieCandidateList()
    ensures AllScorable(WeightsOf(TieProjects), TieGroups)
    ensures var s := Score(map["Backend" := 10.0], [Tag("Backend", 1.0)], 1);
            Candidates(TieGroups, WeightsOf(TieProjects)) == [Candidate(s, 1, "P"), Candidate(s, 2, "P")]
  {
    TieScorable();
    TieTables();
    var w := WeightsOf(TieProjects);
    var tags := [Tag("Backend", 1.0)];
    var g1, g2 := TieGroups[0], TieGroups[1];
    var s := Score(g1.ratings, tags, 1);
    assert g1.preferred[..0] == [] && g2.preferred[..0] == [];
    assert GroupCandidates(g1, g1.preferred, w) == [Candidate(s, 1, "P")];
    assert GroupCandidates(g2, g2.preferred, w) == [Candidate(s, 2, "P")];
    assert TieGroups[..1] == [g1] && TieGroups[..1][..0] == [];
    assert Candidates(TieGroups[..1], w) == [Candidate(s, 1, "P")];
  }

  /** Two candidates of equal score keep their order. */
  lemma TiedPairStays(c1: Candidate, c2: Candidate)
    requires c1.score == c2.score
    ensures SortByScore([c1, c2]) == [c1, c2]
  {
    assert [c1, c2][1..] == [c2] && [c2][1..] == [];
    assert SortByScore([c2]) == [c2];
  }

  /** In that scenario both candidates score the same, so the stable sort
      keeps group 1 first and its candidate is uncontested. */
  lemma TieBreakCandidates()
    ensures DistinctIds(TieGroups) && AllScorable(WeightsOf(TieProjects), TieGroups)
    ensures GroupIds(TieGroups) == {1, 2}
    ensures var sorted := SortByScore(Candidates(TieGroups, WeightsOf(TieProjects)));
            |sorted| == 2 && sorted[0].groupId == 1 && Uncontested(sorted, 0, SlotsOf(TieProjects))
  {
    TieScorable();
    TieCandidateList();
    TieTables();
    var s := Score(map["Backend" := 10.0], [Tag("Backend", 1.0)], 1);
    var c1, c2 := Candidate(s, 1, "P"), Candidate(s, 2, "P");
    TiedPairStays(c1, c2);
    var sorted := SortByScore(Candidates(TieGroups, WeightsOf(TieProjects)));
    assert sorted == [c1, c2];
    assert sorted[..0] == [];
    assert ProjectCount(sorted[..0], "P") == 0;
    assert Remaining(SlotsOf(TieProjects), "P") == 1;
  }

  /** Every preference in the scenario names project P. */
  lemma TiePrefersOnlyP(gid: int, pid: string)
    requires Prefers(TieGroups, gid, pid)
    ensures pid == "P"
  {
    var g, p :| g in TieGroups && Rated(g) && p in g.preferred && g.id == gid && p.projectId == pid;
  }

  lemma SingletonByCard(s: set<int>, x: int)
    requires x in s && |s| <= 1
    ensures s == {x}
  {
    assert |s - {x}| == |s| - 1;
  }

  /** The outcome is forced once group 1 holds P's single slot and every
      allocation is to P. */
  lemma TieOutcome(a: map<int, string>, u: set<int>)
    requires a.Keys !! u && a.Keys + u == {1, 2}
    requires 1 in a && a[1] == "P"
    requires forall g :: g in a ==> a[g] == "P"
    requires |AllocatedTo(a, "P")| <= 1
    ensures a == map[1 := "P"] && u == {2}
  {
    SingletonByCard(AllocatedTo(a, "P"), 1);
    assert forall g :: g in a ==> g in AllocatedTo(a, "P");
    assert a.Keys == {1};
  }

  /** In that scenario the earlier group takes the slot and the other one
      is left unallocated. */
  method TieBreakExample() returns (allocatedGroups: map<int, string>, unallocatedGroups: set<int>)
    ensures allocatedGroups == map[1 := "P"]
    ensures unallocatedGroups == {2}
  {
    TieBreakCandidates();
    TieTables();
    allocatedGroups, unallocatedGroups := AllocateGroupsToProjects(TieProjects, TieGroups);
    forall g | g in allocatedGroups ensures allocatedGroups[g] == "P" {
      TiePrefersOnlyP(g, allocatedGroups[g]);
    }
    TieOutcome(allocatedGroups, unallocatedGroups);
  }
}
