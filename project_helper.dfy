/** The validation that `upsertProject` (src/utils/helper/projectHelper.ts)
    runs before writing a project: the guard that gives the allocator
    projects with tags, slots and rated tags. */
module ProjectHelper {
  import opened Skills
  import Allocation
  import UtilityHelper

  const NoTitle := "Project must have a title"
  const NoTags := "Project must have at least one tag"
  const NoSlots := "Project must have at least one group"
  const UnratedTags := "Tag(s) must have ratings"

  /** `tags.some((tag) => tag.weight === 0)`. */
  predicate SomeUnrated(tags: seq<Tag>) {
    exists i :: 0 <= i < |tags| && tags[i].weight == 0.0
  }

  /** The four checks of `upsertProject`, in order: the message of the
      first that fails, or None when the project may be written. */
  function ValidateProject(title: string, slots: int, tags: seq<Tag>): (error: Option<string>)
    ensures error == Some(NoTitle) <==> |title| == 0
    ensures error == Some(NoTags) <==> |title| > 0 && |tags| == 0
    ensures error == Some(NoSlots) <==> |title| > 0 && |tags| > 0 && slots <= 0
    ensures error == Some(UnratedTags) <==> |title| > 0 && |tags| > 0 && slots > 0 && SomeUnrated(tags)
    ensures error.None? <==> |title| > 0 && |tags| > 0 && slots >= 1 && forall i :: 0 <= i < |tags| ==> tags[i].weight != 0.0
  {
    if |title| == 0 then Some(NoTitle)
    else if |tags| == 0 then Some(NoTags)
    else if slots <= 0 then Some(NoSlots)
    else if SomeUnrated(tags) then Some(UnratedTags)
    else None
  }

  /** Positive weights have a positive sum. */
  lemma {:induction false} PositiveWeightSum(tags: seq<Tag>)
    requires |tags| > 0
    requires forall i :: 0 <= i < |tags| ==> tags[i].weight > 0.0
    ensures Allocation.WeightSum(tags) > 0.0
  {
    var n := |tags| - 1;
    if n > 0 {
      PositiveWeightSum(tags[..n]);
    }
  }

  /** A project that passes validation, with no negative weight, is one the
      allocator can score and fill: its weights sum to more than 0, so the
      division of `calculateScore` is defined, and it has at least one
      slot. */
  lemma ValidProjectAllocatable(title: string, slots: int, tags: seq<Tag>)
    requires ValidateProject(title, slots, tags).None?
    requires forall i :: 0 <= i < |tags| ==> tags[i].weight >= 0.0
    ensures Allocation.WeightSum(tags) > 0.0
    ensures Allocation.Divisible(tags)
    ensures slots >= 1
  {
    PositiveWeightSum(tags);
  }

  /** The tags of an empty ratings record all have weight 0, so a project
      given them is refused for its unrated tags. */
  lemma DefaultTagsRefused(title: string, slots: int)
    requires |title| > 0 && slots > 0
    ensures ValidateProject(title, slots, UtilityHelper.ConvertRatingsToTags([])) == Some(UnratedTags)
  {
    UtilityHelper.EmptyRatingsGiveAllTags();
    var tags := UtilityHelper.ConvertRatingsToTags([]);
    assert tags[0].weight == 0.0;
  }
}
