# Synergy: the allocation and rating pipeline, verified

Synergy is a capstone-course platform. Students form groups, rate their
skills and rank projects; coordinators then run an allocator that matches
groups to projects. This project models the deterministic core of that
pipeline and of the validators around it, and proves properties of it in
Dafny:

- the greedy group-to-project allocator
  (`supabase/functions/group_project_allocation`): the weighted score of a
  group for a project, the stable descending sort of the candidates, and the
  greedy pass over the per-project slot dictionary (module `Allocation`);
- the group rating aggregator (`supabase/functions/group-rating-system`): a
  running top two per skill category, the mean of the two values, and the
  eligibility gate of the update trigger (module `GroupRating`);
- the individual skill scorer (`supabase/functions/individual-rating-system`):
  the course-to-category table and the rounded category scores (module
  `IndividualRating`);
- the transcript parser (`supabase/functions/transcript-parser`): the line
  filter, the course-line regular expression, the course-to-mark record in
  which later lines win, and the projection onto the stored keys (module
  `TranscriptParser`);
- the report serialiser (`supabase/functions/generate-report`): `generateCSV`,
  the exactly-one-report check and the request dispatch (module
  `GenerateReport`);
- the validators of `src/utils/auth.ts`: the UNSW e-mail check, the ordered
  registration checks, the invitation role table, the invitation guard chain
  and the token check (module `Auth`);
- the converters of `src/utils/helper/utilityHelper.ts`: roles, tags, role
  tables and tutorial codes (module `UtilityHelper`);
- the validation prefix of `upsertProject` in
  `src/utils/helper/projectHelper.ts`, which is what gives the allocator
  projects with positive weight sums and at least one slot (module
  `ProjectHelper`).

Two support modules hold what several of these share:

- `Text` models the JavaScript string operations used: ASCII `toLowerCase`,
  first-letter capitalisation, `split` and `join` on one character.
- `Skills` holds the six skill categories of `TAGS`, the project `Tag`, and
  `Option`/`Result`.

The edge functions are written imperatively (loops over mutable
dictionaries, arrays and sets). They are modelled as methods with loop
invariants, proved against specification functions, and the properties of
the source are proved about those functions. The pure helpers are modelled
as functions and lemmas. Database reads and writes are replaced by
parameters: the rows a query would return, or whether the query failed.

## Model

| member | source | states |
|---|---|---|
| Allocation.TotalWeight | supabase/functions/group_project_allocation/index.ts:39-41 | the first loop leaves `weightDivider` equal to the sum of all tag weights |
| Allocation.CalculateScore | supabase/functions/group_project_allocation/index.ts:35-50 | the score is the weighted mean of the group's ratings, with the project's weights, times the rank multiplier 1.2 - 0.1 * rank; the weight sum must be nonzero whenever there are tags |
| Allocation.RunningShareIsMean | supabase/functions/group_project_allocation/index.ts:43-46 | after i steps, the second loop's running sum of per-tag quotients equals the weighted rating sum of the first i tags divided by the weight sum |
| Allocation.SubscoreInRange | supabase/functions/group_project_allocation/index.ts:39-46 | with non-negative weights and ratings in 0..10, the weighted mean lies in 0..10 |
| Allocation.ScoreNonIncreasingInRank | supabase/functions/group_project_allocation/index.ts:47-48 | for a non-negative weighted mean, a later rank never scores higher than an earlier one |
| Allocation.MissingRatingCountsZero | supabase/functions/group_project_allocation/index.ts:44 | a tag the group has no rating for contributes exactly what a rating of 0 contributes |
| Allocation.ScoreExample | supabase/functions/group_project_allocation/index.ts:35-50 | ratings AI 8 and DSA 2 with unit weights at rank 1 score 5 * 1.1 = 5.5 |
| Allocation.SortByScore | supabase/functions/group_project_allocation/index.ts:96-97 | the candidates come out in non-increasing score order and as a permutation of the input |
| Allocation.SortIsStable | supabase/functions/group_project_allocation/index.ts:96-97 | candidates of equal score keep their generation order |
| Allocation.SlotsOfProject | supabase/functions/group_project_allocation/index.ts:74-79 | with distinct project ids, the slot dictionary holds a project's slots if positive, and a project with slots of at most 0 has none remaining |
| Allocation.SlotsOfAbsent | supabase/functions/group_project_allocation/index.ts:74-79 | a project id not in the list has no entry in the slot dictionary |
| Allocation.CandidateOrigin | supabase/functions/group_project_allocation/index.ts:81-94 | every candidate pairs a rated group with a project on that group's preference list |
| Allocation.CandidateCoverage | supabase/functions/group_project_allocation/index.ts:85-92 | every preference of every rated group yields a candidate carrying that preference's score |
| Allocation.BuildProjectTables | supabase/functions/group_project_allocation/index.ts:56-60 | the loop builds the weight and slot dictionaries, later projects overwriting earlier ones; only positive slot counts are entered |
| Allocation.PushGroupCandidates | supabase/functions/group_project_allocation/index.ts:85-92 | one candidate per preference of the group is pushed, scored, in preference order |
| Allocation.ScoreCandidates | supabase/functions/group_project_allocation/index.ts:81-94 | the stack holds the candidates of all rated groups in input order, and exactly the unrated groups are set aside as unallocated |
| Allocation.PassAllocate | supabase/functions/group_project_allocation/index.ts:100-105 | allocating a group to a project with slots left, and decrementing or deleting its slot entry, keeps the pass invariant (capacity, origin, disjointness, maximality so far) |
| Allocation.PassMark | supabase/functions/group_project_allocation/index.ts:106-108 | marking a group unallocated once the slot dictionary is empty keeps the pass invariant |
| Allocation.PassSkip | supabase/functions/group_project_allocation/index.ts:99-109 | skipping an already allocated group or a full project keeps the pass invariant |
| Allocation.AssignInOrder | supabase/functions/group_project_allocation/index.ts:99-109 | the greedy pass allocates each group at most once, only to a candidate project, never beyond a project's slots; every candidate it passes over was already allocated or had a full project; an uncontested candidate is always honoured |
| Allocation.MarkUnallocated | supabase/functions/group_project_allocation/index.ts:111-115 | every input group without an allocation is added to the unallocated set |
| Allocation.ResultPrefers | supabase/functions/group_project_allocation/index.ts:99-105 | every allocation is to a project the group named in its preferences |
| Allocation.ResultPartition | supabase/functions/group_project_allocation/index.ts:82-83 | every input group ends on exactly one side, and unrated groups end unallocated |
| Allocation.ResultMaximal | supabase/functions/group_project_allocation/index.ts:99-117 | a rated group left unallocated found every project it asked for full |
| Allocation.AllocateGroupsToProjects | supabase/functions/group_project_allocation/index.ts:52-117 | the allocated and unallocated groups partition the input; unrated groups are never allocated; allocations respect preferences and capacities; an unallocated rated group found all its projects full; an uncontested candidate is honoured |
| Allocation.TieBreakExample | supabase/functions/group_project_allocation/index.ts:96-109 | two groups with equal scores for the single slot of one project: the earlier group takes it and the other is left unallocated |
| GroupRating.MemberColumn | supabase/functions/group-rating-system/index.ts:13-72 | each value read for a category comes from an entry whose key names that category; other keys are skipped |
| GroupRating.RatingsShape | supabase/functions/group-rating-system/index.ts:77-84 | the result has exactly the six category keys, each holding the mean of that category's top two |
| GroupRating.OfferMember | supabase/functions/group-rating-system/index.ts:13-74 | after one member's entries, each category's pair is the top two of all values offered so far |
| GroupRating.CalculateRatings | supabase/functions/group-rating-system/index.ts:4-86 | `calculateRatings` returns the six category keys, each the mean of the two largest values of that category across all members |
| GroupRating.OfferKeepsTopTwo | supabase/functions/group-rating-system/index.ts:15-23 | one update of a pair keeps it the ordered top two (floored at 0) of the values seen |
| GroupRating.TopTwoCharacterised | supabase/functions/group-rating-system/index.ts:5-75 | after the loop, the pair is in descending order and holds the two largest values seen, floored at the initial 0 |
| GroupRating.TopTwoUnique | supabase/functions/group-rating-system/index.ts:5-75 | the top two of a multiset of values is unique |
| GroupRating.TopTwoOrderIndependent | supabase/functions/group-rating-system/index.ts:11-75 | the pair does not depend on the order in which values are offered |
| GroupRating.ColumnPermutation | supabase/functions/group-rating-system/index.ts:11-75 | permuting the members permutes the values each category receives |
| GroupRating.RatingsOrderIndependent | supabase/functions/group-rating-system/index.ts:11-84 | the group rating does not depend on the order of the members |
| GroupRating.RatingBounds | supabase/functions/group-rating-system/index.ts:77-84 | with values in 0..10, each category result is in 0..10 and at least half of every value |
| GroupRating.BackendExample | supabase/functions/group-rating-system/index.ts:77-84 | Backend values 9, 7, 5, 3, 1 give (9 + 7) / 2 = 8 |
| GroupRating.AllHaveStudentRatings | supabase/functions/group-rating-system/index.ts:88-95 | true exactly when no member record has zero keys (the record itself, not its `student_ratings`) |
| GroupRating.HandleGroupUpdate | supabase/functions/group-rating-system/index.ts:107-124 | no `user_ratings` gives the 400 response; an eligible group gets its computed rating; any other group gets `{}` |
| IndividualRating.Courses | supabase/functions/individual-rating-system/index.ts:10-17 | every category of the table lists at least one course |
| IndividualRating.TableOrderComplete | supabase/functions/individual-rating-system/index.ts:10-17 | the table has six categories, each visited exactly once |
| IndividualRating.TableDisjoint | supabase/functions/individual-rating-system/index.ts:10-17 | no course code appears under two categories |
| IndividualRating.Round | supabase/functions/individual-rating-system/index.ts:38 | `Math.round` gives the integer nearest its argument, halves going up |
| IndividualRating.ZeroScores | supabase/functions/individual-rating-system/index.ts:25-28 | the initial record has the six category keys, each 0 |
| IndividualRating.ScoreCategory | supabase/functions/individual-rating-system/index.ts:31-38 | the inner loop and rounding set one category's key to its score and leave the other keys alone |
| IndividualRating.CalculateCategoryScores | supabase/functions/individual-rating-system/index.ts:24-42 | the result has the six category keys, each `round(sum / (100 * n) * 10)` over its courses, a missing course counting 0 |
| IndividualRating.ScoreBounds | supabase/functions/individual-rating-system/index.ts:32-38 | with marks in 0..100, a category score is an integer in 0..10 |
| IndividualRating.ScoreMonotone | supabase/functions/individual-rating-system/index.ts:34-38 | raising listed marks never lowers a category score |
| IndividualRating.ScoreDependsOnListedOnly | supabase/functions/individual-rating-system/index.ts:34-36 | a category score depends only on the marks of its own courses |
| IndividualRating.EmptyTranscriptScoresZero | supabase/functions/individual-rating-system/index.ts:35 | courses missing from the transcript count 0, so an empty transcript scores 0 |
| IndividualRating.ScoresRange | supabase/functions/individual-rating-system/index.ts:24-42 | with listed marks in 0..100, the result has the six keys, each between 0 and 10 |
| IndividualRating.StoredTranscriptScoresInRange | supabase/functions/transcript-parser/index.ts:98-101 | a transcript the parser stored always scores between 0 and 10 in every category |
| IndividualRating.ScoresMonotone | supabase/functions/individual-rating-system/index.ts:30-39 | every category score is monotone in the marks |
| IndividualRating.UnlistedCourseIgnored | supabase/functions/individual-rating-system/index.ts:30-36 | a course outside the table affects no score |
| IndividualRating.MarkCountsOnce | supabase/functions/individual-rating-system/index.ts:10-17 | a course's mark affects only the category that lists it |
| IndividualRating.EmptyTranscript | supabase/functions/individual-rating-system/index.ts:24-42 | an empty transcript scores 0 in every category |
| IndividualRating.FrontendExample | supabase/functions/individual-rating-system/index.ts:32-38 | Frontend/UI marks 20 and 10 give round(30 / 200 * 10) = round(1.5) = 2 |
| IndividualRating.BackendExample | supabase/functions/individual-rating-system/index.ts:32-38 | Backend marks 85 and 70 give round(155 / 600 * 10) = 3 |
| IndividualRating.HandleTranscriptUpdate | supabase/functions/individual-rating-system/index.ts:52-69 | marks are written exactly for an UPDATE event carrying `transcript_data`, and they are that transcript's category scores; anything else is the 400 response |
| TranscriptParser.TwoDigits | supabase/functions/transcript-parser/index.ts:90 | a mark below 100 prints as two digits |
| TranscriptParser.ParseLine | supabase/functions/transcript-parser/index.ts:85-91 | a match needs at least 14 characters; the code is the first four characters and the four digits without the space, eight characters long; the mark is the decimal value of the two digits before the space and grade, so it is in 0..99 |
| TranscriptParser.ParsedLineIsFormatted | supabase/functions/transcript-parser/index.ts:85-94 | the converse of the previous row: a line matches only when it is four capitals, a space, four digits, text without a line terminator, two digits, a space and two capitals, and its entry is that code and that mark; every other line gives nothing and is dropped |
| TranscriptParser.ParseFormattedLine | supabase/functions/transcript-parser/index.ts:85-91 | any line of the form `ABCD 1234 ... NN GR` parses to code `ABCD1234` and mark NN |
| TranscriptParser.ShortLineRejected | supabase/functions/transcript-parser/index.ts:85-86 | a line shorter than 14 characters never matches |
| TranscriptParser.TerminatorRejected | supabase/functions/transcript-parser/index.ts:85-86 | a line terminator inside the `.*` part defeats the match |
| TranscriptParser.ParseExample | supabase/functions/transcript-parser/index.ts:85-91 | `COMP 1531 SE Fund 6 85 DN` parses to `COMP1531` with mark 85 |
| TranscriptParser.LineEntry | supabase/functions/transcript-parser/index.ts:83-93 | an entry only comes from a `COMP` line and has an eight-character `COMP` code and a mark in 0..99 |
| TranscriptParser.FilterMapMembers | supabase/functions/transcript-parser/index.ts:84-94 | after `map` and `filter(Boolean)`, exactly the present results remain |
| TranscriptParser.PageCoursesMembers | supabase/functions/transcript-parser/index.ts:81-94 | a page's entries are exactly those of its `COMP` lines that match; other lines are dropped |
| TranscriptParser.TranscriptKeys | supabase/functions/transcript-parser/index.ts:98-101 | the record has one key for each course code that occurs |
| TranscriptParser.LastEntryWins | supabase/functions/transcript-parser/index.ts:98-101 | a later line for the same course overwrites an earlier mark |
| TranscriptParser.ParseTranscript | supabase/functions/transcript-parser/index.ts:80-101 | the page loop and the record loop compute the record of all matched entries, pages in order, later entries winning |
| TranscriptParser.ParsedMarksInRange | supabase/functions/transcript-parser/index.ts:85-101 | every key of the parsed record is an eight-character `COMP` code with a mark in 0..99 |
| TranscriptParser.SetStudentMarks | supabase/functions/transcript-parser/index.ts:50-56 | the stored record has exactly the existing keys, each holding the parsed mark or 0 |
| GenerateReport.Headers | supabase/functions/generate-report/index.ts:24 | the headers are the first record's keys, in order |
| GenerateReport.Lines | supabase/functions/generate-report/index.ts:24-27 | n records give n + 1 lines: the header line, then one per record |
| GenerateReport.RowCells | supabase/functions/generate-report/index.ts:25 | a row holds each header's value, or an empty field when the record lacks the key |
| GenerateReport.FirstRowIsValues | supabase/functions/generate-report/index.ts:24-25 | the first record's row is its values in key order |
| GenerateReport.ExtraKeyDropped | supabase/functions/generate-report/index.ts:25 | a key that is not a header does not appear in the row |
| GenerateReport.CsvLines | supabase/functions/generate-report/index.ts:27 | with no newline in any field, the output splits on newlines into exactly the n + 1 lines, so there is no trailing newline |
| GenerateReport.CsvRoundTrip | supabase/functions/generate-report/index.ts:21-30 | with no newline or comma in any field, splitting the output gives back the headers and every row |
| GenerateReport.EmptyReport | supabase/functions/generate-report/index.ts:22 | an empty report serialises to the empty string |
| GenerateReport.ReportExample | supabase/functions/tests/generate-report-test.ts:5-22 | two records `{header1, header2}` serialise to `header1,header2\nvalue1,value2\nvalue3,value4` |
| GenerateReport.CountSetZero | supabase/functions/generate-report/index.ts:39-40 | no report counts as set exactly when all four are undefined |
| GenerateReport.CountSetOne | supabase/functions/generate-report/index.ts:39-40 | the count is 1 exactly when a single report is defined and the others are undefined |
| GenerateReport.ExactlyOneCharacterised | supabase/functions/generate-report/index.ts:37-41 | `isExactlyOneReportSet` holds exactly when one of the four report fields is defined |
| GenerateReport.ChosenIsOnlySet | supabase/functions/generate-report/index.ts:59-79 | with a single field set, the if-chain serialises that field (`null` gives "") |
| GenerateReport.HandleReport | supabase/functions/generate-report/index.ts:52-85 | not exactly one report gives the 400 "Exactly one report must be set"; otherwise a format other than `csv` gives the 400 format error; otherwise the content is the CSV of the one report set |
| Auth.IndexOf | src/utils/auth.ts:39 | the index found is the first occurrence of the character, or -1 when it does not occur |
| Auth.UnswEmailMatches | src/utils/auth.ts:38-40 | the check holds exactly when the lower-cased address is a non-empty local part without '@', the only '@', and a domain holding the word `unsw` between non-word characters or the ends |
| Auth.AddressGivesMatch | src/utils/auth.ts:39 | an accepted address decomposes as local, '@', text before, `unsw`, text after |
| Auth.MatchGivesAddress | src/utils/auth.ts:39 | every such decomposition is accepted |
| Auth.UnswEmailIgnoresCase | src/utils/auth.ts:39 | lower-casing the address first does not change the verdict |
| Auth.UnswAddressExample | src/utils/auth.ts:39 | `z1234567@unsw.edu.au` is accepted |
| Auth.UnswPrefixRejected | src/utils/auth.ts:39 | `unswx.com` does not hold the word `unsw` |
| Auth.EmptyLocalRejected | src/utils/auth.ts:39 | an address with an empty local part is refused |
| Auth.AnyClashExists | src/utils/auth.ts:62-70 | `data.some(...)` holds exactly when some existing user clashes |
| Auth.RegisterCheck | src/utils/auth.ts:47-73 | the first failing check decides the message: password mismatch, then a non-UNSW e-mail for a non-client, then a non-empty zID not of the form `z` and seven digits, then an e-mail or non-empty zID already taken, ignoring case; '' when all pass |
| Auth.ClientEmailUnchecked | src/utils/auth.ts:52-54 | a client is never refused for a non-UNSW e-mail |
| Auth.TakenEmailRefused | src/utils/auth.ts:60-71 | an e-mail already registered, in any case, is never accepted |
| Auth.EmptyZidNeverClashes | src/utils/auth.ts:62-70 | an existing user without a zID clashes only by e-mail |
| Auth.ZidExamples | src/utils/auth.ts:56-58 | `z1234567` is a valid zID; `z123456` and `Z1234567` are not |
| Auth.ValidateRoles | src/utils/auth.ts:81-104 | a client invites nobody; a student only students; a tutor clients, students and tutors; a coordinator anyone but an admin; any other role anyone |
| Auth.RolesNested | src/utils/auth.ts:83-97 | the invitees allowed to a student, a tutor, a coordinator and an admin are nested |
| Auth.AdminInvitedOnlyByUnlisted | src/utils/auth.ts:81-104 | of the five roles, only an admin may invite an admin |
| Auth.InviterAllowed | src/utils/auth.ts:135-136 | a stored lower-case role is capitalised before the role table is consulted, so it is judged as its enum value |
| Auth.CapitalizeLowered | src/utils/auth.ts:135 | capitalising the lower-cased form of a capitalised lower-case word gives the word back |
| Auth.InviteUser | src/utils/auth.ts:114-162 | an invitation is created exactly when the invitee is not yet invited, has no account, the inviter's role allows the invitee's role, and the insert succeeds; the first failing step decides the error, in the source's order: already invited, e-mail already registered, inviter not found, not permitted, insert failed |
| Auth.StudentInvitesStudents | src/utils/auth.ts:135-140 | a student inviting anything but a student is refused |
| Auth.Matching | src/utils/auth.ts:183-189 | the rows found are exactly the invites with the token's issuer, e-mail and role |
| Auth.ValidateToken | src/utils/auth.ts:178-191 | an empty e-mail or issuer is refused without a lookup; a valid token names an existing invite |
| Auth.SingleInviteValidates | src/utils/auth.ts:183-190 | a token with exactly one matching invite is valid |
| Auth.DuplicateInviteRefused | src/utils/auth.ts:183-190 | `.single()` refuses a token with two identical matching invites |
| UtilityHelper.ConvertRoleToUserType | src/utils/helper/utilityHelper.ts:13-15 | only the first character is upper-cased; the rest and the length are kept |
| UtilityHelper.ConvertRoleIdempotent | src/utils/helper/utilityHelper.ts:13-15 | converting twice is converting once |
| UtilityHelper.ConvertStoredRole | src/utils/helper/utilityHelper.ts:13-15 | the lower-case role stored for each user type converts back to that type |
| UtilityHelper.ConvertRatingsToTags | src/utils/helper/utilityHelper.ts:23-37 | an empty record gives the six `TAGS` in order, each of weight 0; a non-empty one gives, in key order, one tag per key carrying that key's value |
| UtilityHelper.EmptyRatingsGiveAllTags | src/utils/helper/utilityHelper.ts:25-29 | an empty record gives the six `TAGS` in order, each of weight 0 and each once |
| UtilityHelper.RatingsRoundTrip | src/utils/helper/utilityHelper.ts:30-36 | a non-empty record becomes one tag per key, in key order, carrying its value, and converts back to the record |
| UtilityHelper.GetRoleTableName | src/utils/helper/utilityHelper.ts:46-59 | Student maps to `students`, Tutor to `tutors`, Coordinator to `coordinators` and Client to `clients`; Admin is the error "Invalid user role" |
| UtilityHelper.RoleTableInjective | src/utils/helper/utilityHelper.ts:46-59 | distinct roles have distinct tables |
| UtilityHelper.CastToRoleTableName | src/utils/helper/utilityHelper.ts:68-73 | the identity on the four table names, an error on anything else |
| UtilityHelper.RoleTable | src/utils/helper/utilityHelper.ts:95-96 | casting the table of a role gives back that table, so the pair fails only where `getRoleTableName` does |
| UtilityHelper.EveryTableHasRole | src/utils/helper/utilityHelper.ts:46-73 | every table name the cast accepts is the table of some role |
| UtilityHelper.CodesForMembers | src/utils/helper/utilityHelper.ts:143-145 | a code is listed for a course exactly when some row pairs that course with it |
| UtilityHelper.CodesForAppend | src/utils/helper/utilityHelper.ts:143-145 | codes keep the order of the rows |
| UtilityHelper.GetTutorialCodes | src/utils/helper/utilityHelper.ts:135-146 | a query error or missing data is an error; otherwise the call succeeds, and each course's list is the tutorial codes of that course's rows, in row order, repeats kept |
| ProjectHelper.ValidateProject | src/utils/helper/projectHelper.ts:108-111 | the first failing check decides the error: empty title, then no tags, then slots of at most 0, then any tag of weight 0; a project passes exactly when none fails |
| ProjectHelper.PositiveWeightSum | src/utils/helper/projectHelper.ts:109-111 | positive weights have a positive sum |
| ProjectHelper.ValidProjectAllocatable | src/utils/helper/projectHelper.ts:109-111 | a project that passes, with non-negative weights, has a positive weight sum and at least one slot, as the allocator's division and slot dictionary need |
| ProjectHelper.DefaultTagsRefused | src/utils/helper/projectHelper.ts:111 | a project given the tags of an empty ratings record is refused for its unrated tags |
| Skills.CategoriesComplete | src/utils/projectTag.ts:6 | `TAGS` lists every category exactly once |
| Skills.NameInjective | src/utils/projectTag.ts:6 | distinct categories have distinct names, and each name leads back to its category |
| Skills.CategoryNames | src/utils/projectTag.ts:6 | there are exactly six category keys, one per category |
| Text.ToLower | src/utils/auth.ts:39 | every character is lowered and none is left upper-case |
| Text.ToLowerIdempotent | src/utils/auth.ts:39 | lowering twice is lowering once |
| Text.Capitalize | src/utils/helper/utilityHelper.ts:14 | only the first character changes, to upper case |
| Text.CapitalizeIdempotent | src/utils/helper/utilityHelper.ts:14 | capitalising twice is capitalising once |
| Text.JoinSplit | supabase/functions/generate-report/index.ts:27 | splitting on a separator and joining again gives back the string |
| Text.SplitJoin | supabase/functions/generate-report/index.ts:27 | joining separator-free parts and splitting again gives back the parts |

## Left out

- Database, storage and network I/O: the Supabase queries become parameters (the rows returned, whether a query failed), and the writes become the returned values. This covers the allocator's two upserts, the `fetch_group_preferences` RPC, the row writes of the rating triggers, `updateInvite`, `checkInvitedStatus`, `getInviteesWithIssuerId`, `fetchClassData`, `getProjects`, and the write steps of `updateRole` and `upsertProject`.
- The `Deno.serve` wrappers: `OPTIONS`/CORS answers, `req.json()` parsing, and the 500 responses of the `catch` blocks.
- `parseTags` and `formatProject` (JSON parsing): project tags are taken as already-parsed sequences.
- PDF download and text extraction in the transcript parser: the extracted page texts are the input of `ParseTranscript`.
- The timetable scraper, the mail sender and `src/utils/crypto.ts` (network, SMTP and a foreign cipher library); the React UI.
- Allocation.CalculateScore: scores are exact `real`s, not IEEE doubles, so an exact tie in the model may be a near-tie in JavaScript (`1.2 - 0.1` is `1.0999999999999999` there), and the model cannot reproduce the NaN that a zero weight sum gives; a non-empty tag list with a zero weight sum is therefore a precondition.
- Allocation.AllocateGroupsToProjects: group ids must be distinct (they are the groups table's key), and every preferred project must be in the project list with a scorable tag list; the source would read undefined weights otherwise.
- Allocation.SortByScore: `Array.prototype.sort` is a library call; it is modelled as a stable insertion sort, which is the order ECMAScript requires of `sort` (stable since ES2019). The comparator's behaviour on NaN scores is not modelled.
- The six two-element arrays of `calculateRatings` are modelled as one map from category to pair; the switch on the skill name is `FromName`.
- UtilityHelper.ConvertRatingsToTags: a ratings record is a sequence of (key, value) entries, which may repeat a key although `Object.keys` never does; such input is converted entry by entry.
- JavaScript object semantics: prototype keys such as `__proto__`, duplicate JSON keys, and `Object.keys` putting integer-like keys first. Records are sequences of (key, value) entries in key order, or maps.
- GenerateReport.HandleReport: a report field that is present but not an array is not modelled; a present field is `null` or a list of records.
- Text.ToLower: case mapping is ASCII only; non-ASCII letters are left unchanged, whereas JavaScript's `toLowerCase` maps them too.
- The `UserType` enum file is not part of this model; its values are taken to be `Student`, `Tutor`, `Coordinator`, `Client` and `Admin`, the capitalised forms of the stored roles.
- ProjectHelper.ValidateProject: `slots` is an integer; the JavaScript number could be fractional.
- TranscriptParser.ParseLine: the mark is the integer value of two digits; `parseInt` on other text is not needed, since the pattern admits only digits there.
- Auth.RegisterCheck: the zID is a string, with "" for "not given", as the registration page always sends one.
- IndividualRating.CalculateCategoryScores: marks are integers, as the transcript parser produces them.
