# make-task-AI planner core, in Dafny

This project models the deterministic core of a planner that turns the acceptance criteria
(ACs) of a user story into groups of ACs and then into implementation tasks. An external
text-synthesis service proposes the groupings and tasks. The planner normalises every
reply, checks it against a grouping policy, and asks for repairs a bounded number of times.
When no acceptable reply arrives, it falls back to deterministic keyword bucketing and
one-task-per-AC synthesis. It also includes the refinement loop that scores and revises a
story until a review panel is satisfied.

The service is an oracle: a sequence of replies, where the `k`-th call reads the `k`-th
reply and a call past the end fails. Python values parsed from JSON are the `Json`
datatype of `PyJson`. The AC map, an insertion-ordered dictionary from id to text, is a
sequence of entries with distinct keys. Errors the Python code raises are `Err` results.

Modules, in the order of the pipeline:

- `Strings`, `Seqs`, `PyJson`, `AcMaps`, `Keywords`, `Wrappers`: the vocabulary. This covers
  the Python string built-ins, sequences, JSON values, the AC map, and ordered keyword
  classifiers.
- `Ingest`: how pasted text or JSON becomes numbered ACs (`ingest.py`).
- `RunMain`, `BatchRun`: the command-line drivers (`run.py`, `batch_run.py`). They cover AC
  extraction, range and window selection, id assignment, score tiers, policy auto-tuning and
  failsafe routing.
- `Policy`: the group-count policies (`feasibility.py`, `policy.py`, `cluster_support.py`).
- `GroupingSchema`, `GroupingValidate`, `GroupingFallback`, `SelfCheck`: normalising,
  validating, auditing and replacing a grouping proposal (`grouping/schema.py`,
  `grouping/self_check.py`, `grouping/cluster_support.py`).
- `ClusterAgent`: the propose / validate / repair / fallback loop (`cluster_acs`). `ClusterAcs` follows the program and checks proposals with `validate_grouping` as written. `ClusterAcsCorrected` is the same loop with the corrected id-list check (see Findings). The run drivers use `ClusterAcs`.
- `TaskNormalize`, `TaskValidate`, `GroupTaskgen`: the task lists of one group. This covers
  normalisation, validation, the coverage check and the repair loop.
- `FallbackTasks`, `FailsafeTasks`: one task per AC when generation is unavailable.
- `TraceChoose`, `Traceability`: the repair that makes every AC appear in some task.
- `Registry`: the insert-if-absent ledger of task titles.
- `Refinement`: the classifier → issue detection → suggestion cycle of the story-refinement
  workflow, as a state machine with a termination measure.

Every operation is paired with a reference definition, an inverse, or an invariant, and a
lemma connects the two for all inputs. Examples:

- the fallback grouping partitions the AC ids;
- attach-mode traceability covers every AC and changes nothing else;
- the refinement loop stops within five revisions;
- the registry's fold gives each key its first title.

## Model

| member | source | states |
|---|---|---|
| Keywords.Classify | src/task_planning/grouped_taskgen/fallback_ac_tasks.py:27-72 | the label is that of the first keyword rule some keyword of which occurs in the text, or the fallback label exactly when no rule fires |
| Keywords.ClassifyFirstRule | src/task_planning/grouped_taskgen/fallback_ac_tasks.py:34-72 | rule order decides: when rule i is the first to fire, its label is the answer whatever later rules say |
| Keywords.ClassifyUniqueOutcome | src/task_planning/failsafe_taskgen.py:7-23 | a label that only one rule gives, and that is not the fallback, is answered exactly when that rule is the first to fire |
| Keywords.ClassifyNoLaterThan | src/task_planning/failsafe_taskgen.py:7-23 | when rule k fires, the answer is the label of rule k or of an earlier rule |
| AcMaps.Lookup | src/task_planning/traceability.py:133 | a text is found exactly for a key of the map, and it is the text stored with that key |
| Strings.Lower | src/task_planning/grouping/schema.py:40 | `str.lower` as modelled: the result has the input's length and each character is its lower-case form, for ASCII letters only (see Left out) |
| Strings.ParseInt | src/task_planning/grouped_taskgen/taskgen_agent.py:110 | `int(s)` on a string raises on a blank text; Strings.ParseIntSpec states what it accepts |
| Strings.ParseIntSpec | src/task_planning/grouped_taskgen/taskgen_agent.py:110 | `int(s)` returns a value exactly when the stripped text is an optional sign and ASCII digits joined by single underscores, and the value is that of the digits with the underscores dropped, negated after a minus |
| Strings.ParseIntRoundTrip | src/task_planning/grouped_taskgen/taskgen_agent.py:110 | `int(str(i)) == i` for every integer i |
| Strings.ParseIntUnderscores | src/task_planning/grouped_taskgen/taskgen_agent.py:110 | `int("1_0")` is 10: an underscore between two digits is skipped |
| Strings.ParseIntDoubleUnderscore | src/task_planning/grouped_taskgen/taskgen_agent.py:110 | two underscores in a row make `int()` raise |
| Strings.ParseIntUnsigned | src/task_planning/grouped_taskgen/taskgen_agent.py:110 | an unsigned text without surrounding whitespace parses exactly when it is ASCII digits joined by single underscores, to the value of its digits |
| Strings.ParseIntMinus | src/task_planning/grouped_taskgen/taskgen_agent.py:110 | a text without surrounding whitespace that starts with a minus parses exactly when the rest is ASCII digits joined by single underscores, to the negated value |
| PyJson.PyInt | src/task_planning/grouped_taskgen/taskgen_agent.py:110 | `int(v)`: an integer is itself, and None, a list or a dictionary raise; a string is read by Strings.ParseInt and a boolean as 0 or 1 |
| PyJson.PyStr | src/task_planning/validate.py:40-43 | `str(v)`: a string is itself, and the decimal text of an integer parses back to it (Strings.ParseIntRoundTrip) |
| Policy.FloorDiv | src/task_planning/grouping/feasibility.py:30 | Python's floor division by a positive divisor: the quotient q satisfies q·b ≤ a < q·b + b |
| Policy.FeasibleGroups | src/task_planning/grouping/feasibility.py:30 | the feasible group count is at least 1; when n ≥ mgs it is the largest f with f·mgs ≤ n, and it is 1 below that |
| Policy.ComputeEffectiveGrouping | src/task_planning/grouping/feasibility.py:18-57 | the AC count is clamped at 0 and the group size at 1; target min and max groups are each the minimum of the request and feasibility; the range stays ordered by raising its upper end; each relaxation tag is present exactly when its bound changed, and no other tag appears |
| Policy.FeasibleRequestUnchanged | src/task_planning/grouping/feasibility.py:33-48 | an ordered request within feasibility comes back unchanged with no relaxations |
| Policy.DeriveGroupingPolicy | src/task_planning/grouping/policy.py:17-45 | 10 ACs per group; minimum group size 2, 3 or 4 by AC count (≤8, ≤20, more); 1 ≤ target min ≤ target max ≤ max groups, with caps 8, 12 and 15 |
| Policy.DerivedPolicyIsFeasible | src/task_planning/grouping/policy.py:29-36 | the derived policy equals compute_effective_grouping applied to the defaults 8..12 and 15, for every AC count |
| Policy.DeriveEffectivePolicy | src/task_planning/grouping/cluster_support.py:172-215 | the effective minimum group size is max(1, requested); the other bounds are stated by the three lemmas below |
| Policy.EffectivePolicyBounds | src/task_planning/grouping/cluster_support.py:187-207 | the target range is ordered and at most the feasible count; the group cap is the minimum of request and feasibility, and its tag is present exactly when it bites |
| Policy.EffectivePolicyAdjusted | src/task_planning/grouping/cluster_support.py:199-203 | an infeasible requested minimum resets the range to [1, feasible] and adds the adjustment tag, and only then; otherwise the minimum is the request |
| Policy.EffectiveAgreesWithFeasibility | src/task_planning/grouping/cluster_support.py:180-207 | with a feasible requested minimum, derive_effective_policy and compute_effective_grouping give the same target range and group cap |
| Policy.EffectivePolicyExample | src/task_planning/grouping/cluster_support.py:180-207 | 12 ACs in groups of at least 3: range 8..12 becomes 1..4, cap 15 becomes 4, with the four tags in order |
| Policy.PolicyMeta | src/task_planning/grouping/cluster_support.py:146-160 | the meta record always carries log_split = True |
| Policy.PolicyMetaRoundTrip | src/task_planning/grouping/cluster_support.py:154-160 | reading the record back gives the five bounds passed in, unchanged |
| Policy.AutoTune | src/task_planning/run.py:85-115 | at least 1 AC per group and a minimum group size of at least 2; max groups within feasibility; target max ≤ max groups; an ordered range whenever target max is positive |
| Policy.AutoTuneIdempotent | src/task_planning/run.py:94-107 | tuning a tuned policy changes nothing |
| Policy.AutoTuneKeepsFeasible | src/task_planning/run.py:94-107 | a policy that is already ordered and feasible comes back as given |
| GroupingSchema.DedupPreserve | src/task_planning/grouping/schema.py:26-33 | the result has no repeats, holds exactly the input's elements, and is no longer than the input |
| GroupingSchema.DedupOfDistinct | src/task_planning/grouping/schema.py:26-33 | a list without repeats is returned unchanged |
| GroupingSchema.DedupOrder | src/task_planning/grouping/schema.py:29-32 | each kept element is at its first occurrence, and the kept elements follow the order of first occurrence in the input |
| GroupingSchema.LogKindBy | src/task_planning/grouping/schema.py:36-49 | audit exactly when an audit keyword occurs in the lower-cased text; security exactly when no audit keyword does and a security keyword does; log exactly when neither does and a log keyword does |
| GroupingSchema.LogKindSpec | src/task_planning/grouping/schema.py:40-49 | the same three-way priority for the planner's own keyword lists |
| GroupingSchema.LogKindEmpty | src/task_planning/grouping/schema.py:40 | an empty text (what `None` becomes) is of kind other |
| GroupingSchema.StrippedStrings | src/task_planning/grouping/schema.py:85 | every kept id is non-empty and already stripped |
| GroupingSchema.CleanIds | src/task_planning/grouping/schema.py:82-86 | the cleaned list is stripped, has no empty entries and no repeats |
| GroupingSchema.CleanText | src/task_planning/grouping/schema.py:88-96 | the cleaned label or rationale is stripped |
| GroupingSchema.DefaultGroupId | src/task_planning/grouping/schema.py:79 | an invented id starts with G and has at least two digits after it |
| GroupingSchema.NormalizeGroupAt | src/task_planning/grouping/schema.py:77-112 | the group is well formed; its id is the stripped given id when that is a non-blank string and the positional id otherwise; its ids are the cleaned ac_ids |
| GroupingSchema.MapObjectsPositional | src/task_planning/grouping/schema.py:73-75 | the dictionary at raw position p becomes the output entry after the dictionaries before it, built with index start + p |
| GroupingSchema.NormalizeGroups | src/task_planning/grouping/schema.py:72-112 | one well-formed group per dictionary entry; other entries are dropped |
| GroupingSchema.NormalizeGroupingObj | src/task_planning/grouping/schema.py:55-115 | a non-dictionary input gives no groups; the group count is the number of dictionary entries of groups; every group is well formed; meta is a dictionary |
| GroupingSchema.NormalizeGroupsPositional | src/task_planning/grouping/schema.py:73-80 | the group from raw position p gets id G{p+1:02d} when its own id is missing or blank; skipped non-dictionaries still advance the index |
| GroupingSchema.NormalizeGroupRoundTrip | src/task_planning/grouping/schema.py:77-112 | normalising the JSON of a well-formed group gives the same group back |
| GroupingSchema.NormalizeIdempotent | src/task_planning/grouping/schema.py:55-115 | normalising a normalised grouping changes nothing |
| GroupingSchema.NormalizeGroupingJson | src/task_planning/grouping/schema.py:55-115 | normalising the JSON of well-formed groups and a dictionary meta gives back exactly those groups and that meta |
| GroupingValidate.HeadOfWarning | src/task_planning/grouping/schema.py:160-248 | only the target-range issue's message starts with `warning:`; every other message starts with a different lower-case word |
| GroupingValidate.WarningTextIff | src/task_planning/grouping/schema.py:251-258 | a message starts with `warning:` exactly when its issue is the target-range warning |
| GroupingValidate.Texts | src/task_planning/grouping/schema.py:149-249 | one message per issue, in order |
| GroupingValidate.GroupIds | src/task_planning/grouping/schema.py:169-176 | no more collected group ids than groups |
| GroupingValidate.ShapeIssuesEmpty | src/task_planning/grouping/schema.py:163-184 | the per-group loop reports nothing exactly when every group is a dictionary with a non-blank id and an accepted id list within the size cap, and no stripped id repeats |
| GroupingValidate.ShapeIssuesHard | src/task_planning/grouping/schema.py:163-184 | every issue of the per-group loop is hard |
| GroupingValidate.Missing | src/task_planning/grouping/schema.py:197 | an AC id is missing exactly when it is a key of the AC map and not assigned |
| GroupingValidate.Unknown | src/task_planning/grouping/schema.py:198 | an assigned id is unknown exactly when it is not a key of the AC map |
| GroupingValidate.Duplicated | src/task_planning/grouping/schema.py:200-203 | the duplicates are sorted, repeat-free, and are exactly the ids assigned at least twice |
| GroupingValidate.ReportLists | src/task_planning/grouping/schema.py:205-210 | every coverage issue is hard, and there is none exactly when all three lists are empty |
| GroupingValidate.CoverageIssues | src/task_planning/grouping/schema.py:187-210 | every coverage issue is hard |
| GroupingValidate.CoverageExactlyOnce | src/task_planning/grouping/schema.py:186-210 | coverage reports nothing exactly when the assigned ids are a permutation of the AC map's keys: every AC exactly once, nothing invented |
| GroupingValidate.Orphans | src/task_planning/grouping/schema.py:217-221 | the orphan list is empty exactly when no group has between 1 and min_group_size − 1 ids |
| GroupingValidate.MixedGroups | src/task_planning/grouping/schema.py:227-237 | the mixed list is empty exactly when no group names both an audit-log and a security-log AC |
| GroupingValidate.LogSplitCrash | src/task_planning/grouping/schema.py:228-235 | the log-split loop raises nothing exactly when every group is a dictionary whose id list, if a list, holds only hashable values |
| GroupingValidate.CountIssues | src/task_planning/grouping/schema.py:159-160 | the count issue is hard and is reported exactly when there are more groups than max_groups |
| GroupingValidate.OrphanIssues | src/task_planning/grouping/schema.py:216-223 | the orphan issue is hard and is reported exactly when there are at least min_group_size + 2 ACs and some group is an orphan |
| GroupingValidate.LogSplitIssues | src/task_planning/grouping/schema.py:226-239 | the split issue is hard and is reported exactly when the split is required and some group mixes audit and security logs |
| GroupingValidate.TargetIssues | src/task_planning/grouping/schema.py:244-249 | the target-range issue is a warning and is reported exactly when the count is off target under the AC-count and max_groups conditions |
| GroupingValidate.Validate | src/task_planning/grouping/schema.py:149-156 | a non-dictionary gets the must-be-dict verdict, and a missing, non-list or empty groups list gets the non-empty-list verdict |
| GroupingValidate.ValidateGrouping | src/task_planning/grouping/schema.py:121-259 | validate_grouping as written: a non-dictionary is rejected with its single message |
| GroupingValidate.AllWarningsIff | src/task_planning/grouping/schema.py:251-258 | every message is a warning exactly when no issue is hard |
| GroupingValidate.ShapedNoCrash | src/task_planning/grouping/schema.py:215-239 | well-shaped groups never make the orphan or log-split loops raise |
| GroupingValidate.AllWarningsIffClean | src/task_planning/grouping/schema.py:158-249 | no issue is hard exactly when each check except the target range is clean |
| GroupingValidate.NoHardIffAcceptable | src/task_planning/grouping/schema.py:158-258 | the issue list holds only warnings exactly when the groups are acceptable: within the caps, well shaped, with distinct ids, exact coverage, no orphan when avoidable and no audit/security mix when the split is required |
| GroupingValidate.ValidateNoCrash | src/task_planning/grouping/schema.py:251-259 | past the early exits and without an exception, ok is exactly the absence of hard issues |
| GroupingValidate.ValidateOkSound | src/task_planning/grouping/schema.py:121-259 | an ok verdict comes only from a non-empty groups list that is acceptable |
| GroupingValidate.ValidateOkComplete | src/task_planning/grouping/schema.py:121-259 | a non-empty acceptable groups list always gets an ok verdict, with no exception |
| GroupingValidate.ValidateOkIff | src/task_planning/grouping/schema.py:121-259 | ok exactly when the proposal is a dictionary with a non-empty, acceptable groups list |
| GroupingValidate.GroupJsonView | src/task_planning/grouping/schema.py:169-237 | how each check sees one normalised group: always shaped within the size cap, an orphan exactly by its id count, mixed exactly by the kinds of its ACs |
| GroupingValidate.AcceptableNormalized | src/task_planning/grouping/schema.py:158-239 | for normalised groups, acceptance is stated on the groups themselves: sizes, distinct ids, exact coverage, no orphan and no log mix |
| GroupingValidate.ValidateOkUnlessCrash | src/task_planning/grouping/schema.py:151-259 | the validator returns a verdict unless the groups list makes it raise |
| GroupingValidate.NormalizedNeverRaises | src/task_planning/grouping/schema.py:55-115 | the validator never raises on a normalised proposal |
| GroupingValidate.ValidateNormalized | src/task_planning/grouping/schema.py:121-259 | on a normalised proposal the verdict is ok exactly when there is a group and the groups are acceptable in their own terms |
| GroupingValidate.EmptyGroupAccepted | src/task_planning/grouping/schema.py:22-23 | as written, a proposal whose second group has no ids passes, with five ACs and the default limits |
| GroupingValidate.ValidateGroupingStrict | src/task_planning/grouping/schema.py:138 | the corrected validator, which also requires a non-empty id list: a non-dictionary is rejected with its single message |
| GroupingValidate.EmptyGroupRejectedWhenStrict | src/task_planning/grouping/schema.py:178-181 | the corrected validator rejects that same proposal |
| GroupingValidate.StrictOkGroupsNonEmpty | src/task_planning/grouping/schema.py:138 | an ok verdict of the corrected validator implies that every group's id list is a non-empty list |
| GroupingFallback.BucketBy | src/task_planning/grouping/schema.py:277-300 | the bucket is other exactly when no rule of the chain fires on the lower-cased text |
| GroupingFallback.BucketByLog | src/task_planning/grouping/schema.py:291-297 | an AC goes to log_audit or log_security exactly when the log rule is the first to fire and the log kind is audit or security |
| GroupingFallback.BucketRules | src/task_planning/grouping/schema.py:279-299 | the log rule is the seventh test and the only one that defers to the log kind; no test answers other |
| GroupingFallback.BucketOf | src/task_planning/grouping/schema.py:277-300 | other exactly when none of the heuristic's keywords occurs |
| GroupingFallback.BucketOfLog | src/task_planning/grouping/schema.py:291-297 | the log buckets for the heuristic's own chain: first-firing log rule plus the log kind |
| GroupingFallback.TokenFirst | src/task_planning/grouping/schema.py:279-280 | a text mentioning jwt or token lands in token_jwt, whatever else it says |
| GroupingFallback.AddToBucket | src/task_planning/grouping/schema.py:305 | setdefault-and-append adds at most one bucket |
| GroupingFallback.AddToBucketNameSet | src/task_planning/grouping/schema.py:305 | the bucket names after the append are the old names plus the target name |
| GroupingFallback.AddToBucketNames | src/task_planning/grouping/schema.py:305 | bucket names stay unique |
| GroupingFallback.AddToBucketIds | src/task_planning/grouping/schema.py:305 | exactly one id is added across all buckets |
| GroupingFallback.AddToBucketContents | src/task_planning/grouping/schema.py:305 | the id goes to the end of its own bucket, and every other bucket is unchanged |
| GroupingFallback.BucketsOfIds | src/task_planning/grouping/schema.py:302-305 | bucketing neither drops nor repeats an AC id |
| GroupingFallback.BucketsOfNames | src/task_planning/grouping/schema.py:302-305 | bucket names are unique, and each is the bucket of some AC |
| GroupingFallback.BucketsOfContents | src/task_planning/grouping/schema.py:302-305 | the bucket called `name` holds exactly the ids of the ACs whose text falls in it, in AC-map order |
| GroupingFallback.Chunks | src/task_planning/grouping/schema.py:312-313 | every chunk holds 1 to size ids |
| GroupingFallback.ChunksFlatten | src/task_planning/grouping/schema.py:312-313 | the chunks joined back give the ids in order |
| GroupingFallback.BucketGroups | src/task_planning/grouping/schema.py:312-323 | one group per chunk, holding that chunk, with ids G{gid:02d} numbered consecutively, labelled and tagged by the bucket name, with the fixed rationale |
| GroupingFallback.DedupBuckets | src/task_planning/grouping/schema.py:311 | the dedup keeps the bucket names |
| GroupingFallback.DedupBucketsOfDistinct | src/task_planning/grouping/schema.py:311 | buckets without repeats are left as they are |
| GroupingFallback.ChunkGroupsSizes | src/task_planning/grouping/schema.py:308-323 | every chunked group holds 1 to max_ac_per_group ids |
| GroupingFallback.ChunkGroupsNumbered | src/task_planning/grouping/schema.py:309-323 | chunked groups are numbered consecutively from the starting number |
| GroupingFallback.ChunkGroupsLabelled | src/task_planning/grouping/schema.py:310-321 | each chunked group is labelled by the bucket it came from |
| GroupingFallback.ChunkGroupsIds | src/task_planning/grouping/schema.py:308-323 | chunking keeps every id, in bucket order |
| GroupingFallback.MergeOrphans | src/task_planning/grouping/schema.py:327-336 | absorption never adds a group |
| GroupingFallback.AbsorbIds | src/task_planning/grouping/schema.py:329-335 | when the last group and the small one share no id, absorbing appends the small group's ids to the last group |
| GroupingFallback.AbsorbMerged | src/task_planning/grouping/schema.py:331-334 | absorbing replaces the last group by one holding its ids followed by the small group's |
| GroupingFallback.MergeOrphansIds | src/task_planning/grouping/schema.py:327-336 | absorption moves ids between groups but never drops or repeats one |
| GroupingFallback.AbsorbSizes | src/task_planning/grouping/schema.py:329-335 | one step keeps every group at 1 to max_ac_per_group ids, and a small group after the first is kept only when it could not join the one before |
| GroupingFallback.MergeOrphansSizes | src/task_planning/grouping/schema.py:326-336 | after absorption every group holds 1 to max_ac_per_group ids, and a small group after the first follows a group it could not join |
| GroupingFallback.MergeOrphansGroupIds | src/task_planning/grouping/schema.py:327-336 | group ids stay distinct, and none is invented |
| GroupingFallback.MergeOrphansLabelled | src/task_planning/grouping/schema.py:327-336 | every group keeps a label from the bucket names |
| GroupingFallback.FallbackGrouping | src/task_planning/grouping/schema.py:265-338 | the meta record is `{"fallback": True}` |
| GroupingFallback.ChunkedGroupIdsDistinct | src/task_planning/grouping/schema.py:309-323 | the chunked groups have distinct ids |
| GroupingFallback.ChunkedPartition | src/task_planning/grouping/schema.py:302-323 | before absorption the groups partition the AC map: each id exactly once, sizes within the cap, distinct group ids, labels from the ACs' buckets |
| GroupingFallback.FallbackPartition | src/task_planning/grouping/schema.py:265-338 | the fallback partitions the AC map: each AC in exactly one group of 1 to max_ac_per_group ids, distinct group ids, each labelled by a bucket of its ACs; when absorption runs, every small group after the first follows one it could not join |
| SelfCheck.StrElems | src/task_planning/grouping/self_check.py:28 | keeps at most the list's elements (the strings among them, blank ones included) |
| SelfCheck.GroupSizes | src/task_planning/grouping/self_check.py:22-31 | one size per dictionary group |
| SelfCheck.GroupSizesSum | src/task_planning/grouping/self_check.py:29-31 | the group sizes add up to the number of assigned ids |
| SelfCheck.SmallGroupsSpec | src/task_planning/grouping/self_check.py:32-33 | every dictionary group with fewer than min_group_size string ids is listed with its id and size, and nothing else is |
| SelfCheck.LogSplitValue | src/task_planning/grouping/self_check.py:55-68 | when the loop answers, log_split_ok is true exactly when no group mixes an audit-log and a security-log AC |
| SelfCheck.LogSplitRaises | src/task_planning/grouping/self_check.py:62-65 | the loop raises exactly when a group holding an unhashable id comes before the first mixed group |
| SelfCheck.LogSplitNoCrash | src/task_planning/grouping/self_check.py:55-68 | hashable ids never make the loop raise |
| SelfCheck.LogSplitFacts | src/task_planning/grouping/self_check.py:55-68 | the loop's answer is the absence of mixed groups, and it answers whenever every id is hashable |
| SelfCheck.BuildWith | src/task_planning/grouping/self_check.py:15-82 | the report exists exactly when the log loop does not raise; it counts the ACs and the dictionary groups with one size each; missing ids are exactly the unassigned AC keys in map order; duplicates are sorted, repeat-free and exactly the ids assigned twice or more; unknown ids are the assigned non-keys with their multiplicity; relaxations are copied |
| SelfCheck.BuildSelfCheck | src/task_planning/grouping/self_check.py:7-82 | log_split_ok is true exactly when no group mixes audit and security logs by the short keyword list; hashable ids never raise |
| SelfCheck.BuildSelfCheckPy | src/task_planning/grouping/cluster_support.py:255-330 | the same report, with log kinds by the validator's keyword lists |
| SelfCheck.ReportOrphans | src/task_planning/grouping/cluster_support.py:279-282 | the orphan list names exactly the small dictionary groups |
| SelfCheck.KatakanaBruteDiffers | src/task_planning/grouping/cluster_support.py:297 | the katakana "brute" is a security-log keyword in build_self_check_py but not in build_self_check, so the two reports can differ |
| SelfCheck.CleanIffExactOnce | src/task_planning/grouping/self_check.py:35-42 | nothing missing, duplicated or unknown exactly when the assigned ids are a permutation of the AC keys |
| SelfCheck.PartitionReportsClean | src/task_planning/grouping/cluster_support.py:255-330 | groups that assign every AC exactly once get a report with nothing missing, duplicated or unknown, and no exception |
| SelfCheck.PickedCount | src/task_planning/grouping/cluster_support.py:135-139 | an item and its complement split the list between them |
| SelfCheck.PickedEmptyIff | src/task_planning/grouping/cluster_support.py:135-139 | nothing is kept exactly when no item qualifies |
| SelfCheck.SplitIssues | src/task_planning/grouping/cluster_support.py:132-140 | every issue goes to exactly one list, in order: warnings are the strings whose stripped, lower-cased text starts with `warning:`, everything else is hard, each stripped |
| SelfCheck.IssueWarnIff | src/task_planning/grouping/cluster_support.py:136 | on the validator's messages, the stripped case-insensitive test agrees with the issue's own kind |
| SelfCheck.VerdictOkIffNoHard | src/task_planning/grouping/schema.py:257-258 | a verdict is ok exactly when none of its issues is hard |
| SelfCheck.SplitAgreesWithVerdict | src/task_planning/grouping/cluster_support.py:132-140 | on the validator's messages, split_issues finds no hard issue exactly when the verdict is ok |
| ClusterAgent.SimpleFallback | src/task_planning/grouping/schema.py:265-338 | for a positive max_ac_per_group it is the bucketing fallback; a zero step raises exactly when there is an AC to chunk, and a negative one yields no group |
| ClusterAgent.Check | src/task_planning/grouping/cluster_agent.py:86-95 | the program as written checks a proposal with `validate_grouping`, which accepts an empty `ac_ids`; the corrected loop uses the strict validator |
| ClusterAgent.Decide | src/task_planning/grouping/cluster_agent.py:86-100 | one validation step of the loop; ClusterAgent.DecidePassIff and ClusterAgent.DecideFacts state when it accepts and that it never raises |
| ClusterAgent.DecidePassIff | src/task_planning/grouping/cluster_agent.py:86-100 | a normalised proposal is accepted exactly when it has a group and its groups are acceptable: within the caps, distinct ids, every AC exactly once, no orphan, no mixed log group; an empty group is acceptable as written and not when corrected |
| ClusterAgent.RepairLoop | src/task_planning/grouping/cluster_agent.py:82-149 | the repair loop; ClusterAgent.RepairLoopFacts, ClusterAgent.RepairLoopStopsAtFailure and ClusterAgent.AttemptPasses state its promises |
| ClusterAgent.RepairLoopFacts | src/task_planning/grouping/cluster_agent.py:82-149 | when validation never raises on a normalised proposal, the loop never raises, makes at most max_repairs + 1 calls, and accepts only a proposal that passed validation after exactly `attempt` repair calls |
| ClusterAgent.RepairLoopStopsAtFailure | src/task_planning/grouping/cluster_agent.py:133-149 | a failed repair call ends the loop: no later call is made, and when the loop made that call it gives up with "repair_call_failed: " and the call's reason |
| ClusterAgent.AttemptPasses | src/task_planning/grouping/cluster_agent.py:82-127 | a loop whose current proposal passes returns it at its attempt, making no call |
| ClusterAgent.DecideFacts | src/task_planning/grouping/cluster_agent.py:76-100 | `validate_grouping` never raises on a proposal from `normalize_grouping_obj`, and a proposal is accepted only when the verdict is ok and `split_issues` finds no hard issue |
| ClusterAgent.Finish | src/task_planning/grouping/cluster_agent.py:100-184 | an accepted proposal is returned with repairs_used set to its attempt and no reason; otherwise the fallback is returned with fallback true, reason "cluster_failed: " + last error and "fallback_used" appended to the relaxations; the self-check covers the whole AC map |
| ClusterAgent.RunLoop | src/task_planning/grouping/cluster_agent.py:61-149 | the first call followed by the repair loop; ClusterAgent.RunLoopFacts states its promises |
| ClusterAgent.RunLoopFacts | src/task_planning/grouping/cluster_agent.py:61-149 | the loop always ends, after between one and 1 + max(0, max_repairs) calls, and an accepted proposal is well formed and passed `validate_grouping` (or the corrected check) with the effective policy and no hard issue |
| ClusterAgent.ClusterAcs | src/task_planning/grouping/cluster_agent.py:30-184 | `cluster_acs` as written: a result reports a self-check over every AC, and a non-fallback result carries repairs_used and no reason; its other promises are the ClusterAgent lemmas over `ClusterAcsWith` with the as-written check |
| ClusterAgent.ClusterAcsCorrected | src/task_planning/grouping/cluster_agent.py:30-184 | `cluster_acs` with the corrected id-list check: the same report and meta promises; ClusterCorrectedGroupsNonEmpty states what the correction adds |
| ClusterAgent.ClusterCallBound | src/task_planning/grouping/cluster_agent.py:30-184 | with a positive max_ac_per_group, cluster_acs never raises and makes at most one call plus one per allowed repair |
| ClusterAgent.ClusterAcceptedIsValid | src/task_planning/grouping/cluster_agent.py:82-127 | a non-fallback result is one that `validate_grouping` (the strict validator in the corrected loop), run with the effective policy, found ok with no hard issue |
| ClusterAgent.ClusterAcceptsFirst | src/task_planning/grouping/cluster_agent.py:66-127 | with max_repairs ≥ 0, a first reply whose normalisation passes is returned as it stands: one call, no fallback, repairs_used 0 |
| ClusterAgent.ClusterRepairsUsed | src/task_planning/grouping/cluster_agent.py:109 | a non-fallback result reports as repairs_used one less than the calls made, at most max_repairs |
| ClusterAgent.ClusterInitialFailure | src/task_planning/grouping/cluster_agent.py:77-79 | a failed first call skips the loop: one call, the bucketing fallback, and reason "cluster_failed: initial_call_failed: " plus the call's reason |
| ClusterAgent.ClusterRepairFailure | src/task_planning/grouping/cluster_agent.py:147-149 | a failed repair call is the last call, and when made it is reported as the fallback's reason |
| ClusterAgent.ClusterCoverage | src/task_planning/grouping/cluster_agent.py:30-184 | whatever the service answers, the returned groups assign every AC exactly once, each group holds at most max_ac_per_group ids, and the self-check finds nothing missing, duplicated or unknown; every group holds at least one id when the fallback was used or the check is the corrected one |
| ClusterAgent.ClusterAcceptsEmptyGroup | src/task_planning/grouping/cluster_agent.py:86-127 | as written, five ACs, max_ac_per_group 10 and max_groups 2, with a first reply `{G01: all five, G02: []}`, come back as that grouping with the empty G02, no fallback and repairs_used 0 |
| ClusterAgent.CorrectedRejectsEmptyGroup | src/task_planning/grouping/cluster_agent.py:86-100 | with the corrected check, the same reply is not accepted |
| ClusterAgent.ClusterCorrectedGroupsNonEmpty | src/task_planning/grouping/cluster_agent.py:30-184 | with the corrected check every returned group holds between 1 and max_ac_per_group ids |
| TaskNormalize.GroupDefaultsDistinct | src/task_planning/grouped_taskgen/taskgen_agent.py:94-98 | the group version's setdefault calls name five different keys |
| TaskNormalize.PipelineDefaultsDistinct | src/task_planning/pipeline.py:48-53 | the pipeline's setdefault calls name six different keys |
| TaskNormalize.Subcategory | src/task_planning/grouped_taskgen/taskgen_agent.py:100-106 | the subcategory is always one of the six allowed labels, and an allowed label left after cutting at the first "\|" is kept |
| TaskNormalize.PipelineSubcategory | src/task_planning/pipeline.py:55-70 | the pipeline's subcategory is always an allowed label |
| TaskNormalize.PipelineSubcategoryAgrees | src/task_planning/pipeline.py:63-64 | the pipeline's extra empty-string test changes nothing: both versions map every value to the same label |
| TaskNormalize.AllowedShape | src/task_planning/grouped_taskgen/taskgen_agent.py:11 | every allowed label is non-empty, has no "\|", and is bracketed |
| TaskNormalize.SubcategoryFixedIff | src/task_planning/grouped_taskgen/taskgen_agent.py:100-106 | a label is kept unchanged exactly when it is allowed |
| TaskNormalize.Hours | src/task_planning/grouped_taskgen/taskgen_agent.py:108-113 | the estimate is between 1 and 4: a value `int()` reads (an integer, a boolean, or a string of ASCII digits with single underscores) is clamped into that range, and 2 is used when `int()` raises |
| TaskNormalize.IdTexts | src/task_planning/grouped_taskgen/taskgen_agent.py:115-120 | the ac_ids left are stripped and non-empty, and no more than the raw list held |
| TaskNormalize.IdTextsOfClean | src/task_planning/grouped_taskgen/taskgen_agent.py:119 | cleaning a list of stripped, non-empty ids gives it back unchanged |
| TaskNormalize.Title | src/task_planning/grouped_taskgen/taskgen_agent.py:123 | the title is stripped |
| TaskNormalize.WithDefaults | src/task_planning/grouped_taskgen/taskgen_agent.py:94-98 | setdefault never overwrites an existing field, adds every default key and no other, and a missing key gets its default value |
| TaskNormalize.WithDefaultsPresent | src/task_planning/pipeline.py:48-53 | defaults change nothing on a task that already has every default key |
| TaskNormalize.DefaultsNotRewritten | src/task_planning/grouped_taskgen/taskgen_agent.py:94-123 | neither version gives a default to a field it then overwrites |
| TaskNormalize.GroupTaskKeeps | src/task_planning/grouped_taskgen/taskgen_agent.py:90-125 | the group version keeps every field other than subcategory, estimate_hours, ac_ids and title, and adds only default keys |
| TaskNormalize.GroupTaskSpec | src/task_planning/grouped_taskgen/taskgen_agent.py:90-125 | every normalised task has an allowed subcategory, hours in 1..4, a clean ac_ids list, a stripped title and every default key; a missing default key gets its default value |
| TaskNormalize.SubcategoryValueFixed | src/task_planning/pipeline.py:55-70 | an allowed label, as a string value, is its own normal form under both versions |
| TaskNormalize.HoursValueFixed | src/task_planning/grouped_taskgen/taskgen_agent.py:108-113 | an integer between 1 and 4 is its own normal form |
| TaskNormalize.IdsValueFixed | src/task_planning/grouped_taskgen/taskgen_agent.py:115-120 | a clean id list is its own normal form |
| TaskNormalize.TitleValueFixed | src/task_planning/grouped_taskgen/taskgen_agent.py:123 | a stripped string title is its own normal form |
| TaskNormalize.GroupTaskFixed | src/task_planning/grouped_taskgen/taskgen_agent.py:90-125 | a task already in the normalised shape is returned unchanged |
| TaskNormalize.GroupTaskIdempotent | src/task_planning/grouped_taskgen/taskgen_agent.py:90-125 | normalising a task twice gives the same task as normalising it once |
| TaskNormalize.PipelineTaskKeeps | src/task_planning/pipeline.py:44-79 | the pipeline version keeps every field but subcategory and estimate_hours, and adds only default keys |
| TaskNormalize.PipelineTaskSpec | src/task_planning/pipeline.py:44-79 | every task the pipeline returns has an allowed subcategory, hours in 1..4 and every default key; a missing default key gets its default value |
| TaskNormalize.PipelineTaskFixed | src/task_planning/pipeline.py:44-79 | a task with the coerced fields and every default key is returned unchanged |
| TaskNormalize.PipelineTaskIdempotent | src/task_planning/pipeline.py:44-79 | normalising a task twice in the pipeline equals normalising it once |
| TaskNormalize.NormalizeGroupTasks | src/task_planning/grouped_taskgen/taskgen_agent.py:85-127 | a non-list gives no task; non-dictionaries are skipped; for a non-negative max_tasks, min(max_tasks, number of dictionaries) tasks are returned |
| TaskNormalize.GroupTasksShape | src/task_planning/grouped_taskgen/taskgen_agent.py:85-127 | every returned task has the normalised shape |
| TaskNormalize.GroupTasksPositional | src/task_planning/grouped_taskgen/taskgen_agent.py:90-125 | the dictionary at raw position p becomes the returned task after the dictionaries before it |
| TaskNormalize.GroupTasksIdempotent | src/task_planning/grouped_taskgen/taskgen_agent.py:85-127 | normalising the group version's own output again gives the same list |
| TaskNormalize.PipelineCap | src/task_planning/pipeline.py:32-38 | the cap is at least 1 and equals max_tasks when that is positive |
| TaskNormalize.NormalizePipelineTasks | src/task_planning/pipeline.py:31-81 | the pipeline returns min(cap, number of dictionaries) tasks |
| TaskNormalize.PipelineTasksShape | src/task_planning/pipeline.py:31-81 | every task the pipeline returns has the coerced fields |
| TaskNormalize.PipelineTasksIdempotent | src/task_planning/pipeline.py:31-81 | normalising the pipeline's own output again gives the same list |
| TaskNormalize.HoursOfText | src/task_planning/grouped_taskgen/taskgen_agent.py:108-113 | an estimate of "1_0" is read as ten hours and clamped to 4, and "1__0" makes `int()` raise and gives 2 |
| TaskValidate.IssuesFromEmptyIff | src/task_planning/validate.py:31-54 | the per-task loop reports nothing exactly when no task raises an issue |
| TaskValidate.IssuesFromLocal | src/task_planning/validate.py:31-54 | when every issue names its task, an issue is reported exactly when the task at its position raises it |
| TaskValidate.MissingIssuesSpec | src/task_planning/validate.py:36-38 | a "is missing" issue is raised for exactly the required keys the task lacks, each naming the task |
| TaskValidate.ValueIssuesMembers | src/task_planning/validate.py:40-54 | each value issue is raised exactly when its own condition holds: blank title, blank description, non-number hours, hours outside 1..4, related titles not a list |
| TaskValidate.ChecksMissingKinds | src/task_planning/validate.py:36-54 | the value checks add no missing-key issue behind the key test |
| TaskValidate.ChecksValueKinds | src/task_planning/validate.py:36-54 | behind the key test, each value issue is still raised exactly when its condition holds |
| TaskValidate.ValueIssuesEmptyIff | src/task_planning/validate.py:40-54 | no value issue is raised exactly when every value passes |
| TaskValidate.FieldIssuesWithPos | src/task_planning/validate.py:36-54 | every issue of a dictionary task names that task, and none says it is not an object |
| TaskValidate.FieldIssuesWithKinds | src/task_planning/validate.py:36-54 | each kind of issue of a dictionary task is raised exactly when its condition holds |
| TaskValidate.FieldIssuesWithEmptyIff | src/task_planning/validate.py:36-54 | a dictionary task raises no issue exactly when it has every required key and valid values |
| TaskValidate.TaskCheckLocal | src/task_planning/validate.py:31-54 | every issue raised for a task carries that task's 1-based position |
| TaskValidate.EmptyTextIsStripEmpty | src/task_planning/validate.py:40-43 | the emptiness test is str(v) being empty once stripped |
| TaskValidate.MissingIssuesEmptyIff | src/task_planning/validate.py:36-38 | no key is reported missing exactly when every required key is present |
| TaskValidate.TaskIssuesAtEmptyIff | src/task_planning/validate.py:31-54 | a task raises no issue exactly when it is a valid task |
| TaskValidate.TaskIssuesAtKinds | src/task_planning/validate.py:31-54 | a non-dictionary raises only "must be an object"; for a dictionary each kind of issue is raised exactly when its condition holds |
| TaskValidate.ValidateTasks | src/task_planning/validate.py:17-56 | ok exactly when there is no error; a missing, non-list or empty task list gives only "tasks must be a non-empty list" |
| TaskValidate.ValidateTasksOkIff | src/task_planning/validate.py:17-56 | validate_tasks accepts exactly a non-empty list within a positive limit whose every task is valid |
| TaskValidate.TaskCheckEmptyIff | src/task_planning/validate.py:31-54 | for every position and value, the per-task check is silent exactly when the task is valid |
| TaskValidate.ValidateTasksTooMany | src/task_planning/validate.py:28-29 | the length issue is raised exactly when a positive limit is exceeded |
| TaskValidate.ValidateTasksLocal | src/task_planning/validate.py:31-54 | an issue about task k is reported exactly when the task at position k raises it |
| TaskValidate.ShapedFieldsOk | src/task_planning/validate.py:36-54 | a task with every required key, a stripped title and hours in 1..4 is valid exactly when its title is non-empty, its description not blank and its related titles a list |
| TaskValidate.GroupTaskRequiredKeys | src/task_planning/grouped_taskgen/taskgen_agent.py:94-123 | the group normaliser always writes every key validate_tasks requires |
| TaskValidate.RequiredKeysWritten | src/task_planning/validate.py:5-14 | each required key is the title, a coerced field or a defaulted key |
| TaskValidate.NormalizedTaskOkIff | src/task_planning/grouped_taskgen/taskgen_agent.py:90-125 | a task from the group normaliser is valid exactly when its title is non-empty, its description not blank and its related titles a list |
| TaskValidate.InItems | src/task_planning/validate.py:82-83 | every task issue of an item is kept, in order, tagged with the item's position |
| TaskValidate.ItemCheckLocal | src/task_planning/validate.py:70-83 | every issue raised for an item carries that item's position |
| TaskValidate.ValidateResult | src/task_planning/validate.py:59-85 | ok exactly when there is no error; a non-list items gives only "result.items must be a list" |
| TaskValidate.ItemIssuesAtEmptyIff | src/task_planning/validate.py:70-83 | an item raises no issue exactly when it is a dictionary with an ac_index, a non-blank ac_text and valid tasks |
| TaskValidate.ValidateResultOkIff | src/task_planning/validate.py:59-85 | validate_result accepts exactly a list of valid items |
| TaskValidate.InItemsMember | src/task_planning/validate.py:83 | a tagged issue is among an item's issues exactly when the untagged one was raised |
| TaskValidate.ItemIssuesAtInItem | src/task_planning/validate.py:80-83 | a task issue is reported under an item exactly when the item is a dictionary whose own tasks raise it |
| TaskValidate.ValidateResultPrefixed | src/task_planning/validate.py:70-83 | a task issue appears under item k exactly when item k is a dictionary whose own tasks raise it |
| TaskValidate.ImportFromValidate | src/task_planning/grouped_taskgen/taskgen_agent.py:8 | `from ..validate import name` succeeds exactly for a name `validate.py` defines (`validate_tasks`, `validate_result`) and raises ImportError otherwise |
| TaskValidate.ValidateTasksObjMissing | src/task_planning/grouped_taskgen/taskgen_agent.py:8 | as written, importing `validate_tasks_obj` raises, while `validate_tasks` would import |
| TaskValidate.ValidateTasksObj | src/task_planning/grouped_taskgen/taskgen_agent.py:235 | the validator the callers mean, `validate_tasks` with the call's max_tasks: ok exactly when the task object is valid, and exactly when there is no error |
| GroupTaskgen.Coverage | src/task_planning/grouped_taskgen/taskgen_agent.py:130-168 | when the check answers, it is ok exactly when it reports no issue |
| GroupTaskgen.UnknownIssuesSpec | src/task_planning/grouped_taskgen/taskgen_agent.py:158-160 | a task reports no unknown id exactly when all its ids are in the group; each unknown-id issue names the task and an id it holds outside the group |
| GroupTaskgen.TaskCoverageIssuesEmptyIff | src/task_planning/grouped_taskgen/taskgen_agent.py:145-160 | a task raises no issue exactly when it is a dictionary with a non-empty ac_ids list, within max_ac_per_task, of group ids |
| GroupTaskgen.KnownIdsSpec | src/task_planning/grouped_taskgen/taskgen_agent.py:158-162 | an id is appended to seen through a list exactly when it is a group id the list holds |
| GroupTaskgen.SeenSpec | src/task_planning/grouped_taskgen/taskgen_agent.py:145-162 | seen holds exactly the group ids some task names |
| GroupTaskgen.MissingSpec | src/task_planning/grouped_taskgen/taskgen_agent.py:164 | the missing list holds exactly the group ids no task names |
| GroupTaskgen.CoverageOkIff | src/task_planning/grouped_taskgen/taskgen_agent.py:130-168 | the check raises only on an unhashable id in a non-empty list, and when it answers it is ok exactly when the tasks cover the group |
| GroupTaskgen.IssuesEmptyIff | src/task_planning/grouped_taskgen/taskgen_agent.py:145-162 | the tasks raise no issue of their own exactly when each passes on its own |
| GroupTaskgen.MissingEmptyIff | src/task_planning/grouped_taskgen/taskgen_agent.py:164-166 | no coverage issue is raised exactly when every group id is named by some task |
| GroupTaskgen.NormalizedCoverageAnswers | src/task_planning/grouped_taskgen/taskgen_agent.py:232-236 | the check never raises on normalised tasks |
| GroupTaskgen.MinTasks | src/task_planning/grouped_taskgen/taskgen_agent.py:205 | at least one task, and at least one per group id |
| GroupTaskgen.MaxTasks | src/task_planning/grouped_taskgen/taskgen_agent.py:206 | never below min_tasks, and either min_tasks or min(20, ids × max_tasks_per_ac); above min_tasks it is at most 20 |
| GroupTaskgen.GroupText | src/task_planning/grouped_taskgen/taskgen_agent.py:190 | the label is stripped |
| GroupTaskgen.GroupIdOf | src/task_planning/grouped_taskgen/taskgen_agent.py:189 | the group id is never blank: a non-blank given id is kept, otherwise "G??" |
| GroupTaskgen.TasksObjOf | src/task_planning/grouped_taskgen/taskgen_agent.py:232 | the checked object always holds a task list |
| GroupTaskgen.CheckRound | src/task_planning/grouped_taskgen/taskgen_agent.py:235-240 | when a round answers, it passes exactly when both checks report no issue |
| GroupTaskgen.CheckRoundOkIff | src/task_planning/grouped_taskgen/taskgen_agent.py:235-240 | a round passes exactly when the tasks are valid and cover the group |
| GroupTaskgen.CheckRoundAnswers | src/task_planning/grouped_taskgen/taskgen_agent.py:232-236 | a round on normalised tasks always answers |
| GroupTaskgen.RoundCheckSpec | src/task_planning/grouped_taskgen/taskgen_agent.py:262-267 | every normalised reply is checked without raising, and a passing round has valid, covering tasks |
| GroupTaskgen.RepairLoopCounts | src/task_planning/grouped_taskgen/taskgen_agent.py:242-268 | the loop makes one call per repair, at most max_repairs repairs, and stops with a failure only after spending them all |
| GroupTaskgen.RepairLoopGood | src/task_planning/grouped_taskgen/taskgen_agent.py:242-268 | the loop ends on a pass only with tasks a passing round vouches for |
| GroupTaskgen.RepairLoopAnswers | src/task_planning/grouped_taskgen/taskgen_agent.py:242-268 | when every call it makes is answered, the loop never raises |
| GroupTaskgen.RepairLoopTasks | src/task_planning/grouped_taskgen/taskgen_agent.py:262 | every task object the loop ends with is the normalisation of some reply |
| GroupTaskgen.SkippedWithoutCall | src/task_planning/grouped_taskgen/taskgen_agent.py:191-199 | a group without a non-empty ac_ids list is returned as skipped, with "group.ac_ids is empty", before any call |
| GroupTaskgen.GenerateFacts | src/task_planning/grouped_taskgen/taskgen_agent.py:171-276 | a generated group makes 1 + repairs_used calls with repairs_used at most max_repairs, fails only after every repair, passes only with valid tasks covering its cleaned ids, and returns at most max_tasks tasks |
| GroupTaskgen.GenerateAnswers | src/task_planning/grouped_taskgen/taskgen_agent.py:223-268 | when the service answers the first 1 + max_repairs calls, a group with ids is always generated |
| GroupTaskgen.FirstCallFailure | src/task_planning/grouped_taskgen/taskgen_agent.py:223-231 | a failed first call raises out of the function |
| GroupTaskgen.RepairLoop | src/task_planning/grouped_taskgen/taskgen_agent.py:242-268 | the repair loop; RepairLoopCounts, RepairLoopGood, RepairLoopAnswers and RepairLoopTasks state its calls, its stopping rule and what a pass vouches for |
| GroupTaskgen.GenerateTasksForGroup | src/task_planning/grouped_taskgen/taskgen_agent.py:171-276 | `generate_tasks_for_group`; SkippedWithoutCall, GenerateFacts, GenerateAnswers and FirstCallFailure state its skip, call count, repairs and failure |
| FallbackTasks.Collapse | src/task_planning/grouped_taskgen/fallback_ac_tasks.py:8-12 | collapsing whitespace runs never lengthens a text and empties only an empty one |
| FallbackTasks.CollapseShape | src/task_planning/grouped_taskgen/fallback_ac_tasks.py:8-12 | a collapsed text that did not end in whitespace is single-spaced, does not end in whitespace and keeps a non-space first character |
| FallbackTasks.CollapseFixed | src/task_planning/grouped_taskgen/fallback_ac_tasks.py:8-12 | collapsing leaves a single-spaced text unchanged |
| FallbackTasks.NormalizeSpaceSpec | src/task_planning/grouped_taskgen/fallback_ac_tasks.py:11-12 | the normalised text is stripped and single-spaced, and empty exactly when the input is blank |
| FallbackTasks.NormalizeSpaceIdempotent | src/task_planning/grouped_taskgen/fallback_ac_tasks.py:11-12 | normalising twice gives the same text as normalising once |
| FallbackTasks.ShortTitleSpec | src/task_planning/grouped_taskgen/fallback_ac_tasks.py:15-24 | a blank text gets "(empty acceptance criteria)"; otherwise the normalised text when it has at most 80 characters, else its first 79 followed by an ellipsis; never empty, never longer than 80 |
| FallbackTasks.SubcategoryRules | src/task_planning/grouped_taskgen/fallback_ac_tasks.py:32-72 | the twelve keyword tests in source order: none answers General, the three logging tests come first and the log test is the third, API, UI/UX and Export/Report have one test each |
| FallbackTasks.GuessSubcategory | src/task_planning/grouped_taskgen/fallback_ac_tasks.py:27-72 | General exactly when no keyword test fires on the lower-cased text |
| FallbackTasks.GuessFirstTest | src/task_planning/grouped_taskgen/fallback_ac_tasks.py:32-72 | the first test that fires decides the label |
| FallbackTasks.GuessSingleTests | src/task_planning/grouped_taskgen/fallback_ac_tasks.py:60-70 | API, UI/UX and Export/Report are answered exactly when their test is the first to fire |
| FallbackTasks.LoginIsLogging | src/task_planning/grouped_taskgen/fallback_ac_tasks.py:39-44 | any text mentioning "login" is filed under Logging/Audit, because the log test comes before the authentication test |
| FallbackTasks.TrailingDigits | src/task_planning/grouped_taskgen/fallback_ac_tasks.py:83 | counts exactly the run of digits the id ends with |
| FallbackTasks.SortNumberOfPadded | src/task_planning/grouped_taskgen/fallback_ac_tasks.py:81-86 | an id ending in zero-padded digits after a non-digit sorts by the number they spell |
| FallbackTasks.SortNumberFinalNewline | src/task_planning/grouped_taskgen/fallback_ac_tasks.py:83 | `$` in `(\d+)$` also matches before a final newline, so an id followed by a newline sorts by the same number as the id alone |
| FallbackTasks.TrailingDigitsOfDigits | src/task_planning/grouped_taskgen/fallback_ac_tasks.py:83 | after a non-digit prefix, the trailing digit run is exactly the appended digits |
| FallbackTasks.KeyLeTotal | src/task_planning/grouped_taskgen/fallback_ac_tasks.py:81-88 | any two sort keys are comparable |
| FallbackTasks.KeyLeTransitive | src/task_planning/grouped_taskgen/fallback_ac_tasks.py:81-88 | the key order is transitive |
| FallbackTasks.InsertKeyed | src/task_planning/grouped_taskgen/fallback_ac_tasks.py:88 | insertion adds exactly one element and keeps the others |
| FallbackTasks.InsertKeyedSorted | src/task_planning/grouped_taskgen/fallback_ac_tasks.py:88 | inserting into a sorted list keeps it sorted |
| FallbackTasks.SortKeyed | src/task_planning/grouped_taskgen/fallback_ac_tasks.py:88 | the result is sorted by key and a permutation of the input |
| FallbackTasks.InsertKeyedDistinct | src/task_planning/grouped_taskgen/fallback_ac_tasks.py:88 | inserting a new id keeps the ids distinct |
| FallbackTasks.SortKeyedDistinct | src/task_planning/grouped_taskgen/fallback_ac_tasks.py:88 | sorting keeps the ids distinct |
| FallbackTasks.Decorate | src/task_planning/grouped_taskgen/fallback_ac_tasks.py:81-88 | one sort key per entry |
| FallbackTasks.EntriesOf | src/task_planning/grouped_taskgen/fallback_ac_tasks.py:88 | the entries of the keyed list, in order |
| FallbackTasks.EntriesOfSameMultiset | src/task_planning/grouped_taskgen/fallback_ac_tasks.py:88 | reordering keyed entries keeps the same entries |
| FallbackTasks.SortAcItems | src/task_planning/grouped_taskgen/fallback_ac_tasks.py:75-88 | sorting keeps the number of entries |
| FallbackTasks.SortAcItemsSorted | src/task_planning/grouped_taskgen/fallback_ac_tasks.py:75-88 | the sorted entries are ordered by trailing number, then by id |
| FallbackTasks.SortAcItemsMembers | src/task_planning/grouped_taskgen/fallback_ac_tasks.py:75-88 | an entry is among the sorted ones exactly when it is in the map |
| FallbackTasks.SortAcItemsDistinct | src/task_planning/grouped_taskgen/fallback_ac_tasks.py:75-88 | sorting an AC map keeps its ids distinct |
| FallbackTasks.SortAcItemsKeys | src/task_planning/grouped_taskgen/fallback_ac_tasks.py:75-88 | the sorted entries have exactly the map's ids |
| FallbackTasks.OneTaskPerIdCover | src/task_planning/grouped_taskgen/fallback_ac_tasks.py:104-115 | with one task per id, an id is covered exactly when it is listed |
| FallbackTasks.OneTaskPerIdOnce | src/task_planning/grouped_taskgen/fallback_ac_tasks.py:104-115 | with one task per distinct id, no id is covered by two tasks |
| FallbackTasks.TaskNumberSpec | src/task_planning/grouped_taskgen/fallback_ac_tasks.py:108 | "T-" with the number padded to three digits reads back as the number, and different numbers give different task ids |
| FallbackTasks.TasksOf | src/task_planning/grouped_taskgen/fallback_ac_tasks.py:102-117 | one task per entry |
| FallbackTasks.TasksOfFields | src/task_planning/grouped_taskgen/fallback_ac_tasks.py:104-115 | task i is numbered i + 1, names only the i-th AC, is a Todo of category Task, and takes its title and subcategory from the AC text |
| FallbackTasks.TasksOfOnePerId | src/task_planning/grouped_taskgen/fallback_ac_tasks.py:104-115 | the tasks name the entries' ids one each, in order |
| FallbackTasks.AcMapToTasks | src/task_planning/grouped_taskgen/fallback_ac_tasks.py:91-117 | one task per AC |
| FallbackTasks.AcMapToTasksOnePerId | src/task_planning/grouped_taskgen/fallback_ac_tasks.py:91-117 | one task per AC, in key order, with distinct ids |
| FallbackTasks.AcMapToTasksFields | src/task_planning/grouped_taskgen/fallback_ac_tasks.py:104-115 | task i is the i-th AC in key order, numbered T- and i + 1, with its short title and guessed subcategory |
| FallbackTasks.AcMapToTasksCover | src/task_planning/grouped_taskgen/fallback_ac_tasks.py:91-117 | an id is covered by some task exactly when it is an id of the map |
| FallbackTasks.AcMapToTasksOnce | src/task_planning/grouped_taskgen/fallback_ac_tasks.py:91-117 | no id is covered by two tasks |
| FallbackTasks.NormalizeSpace | src/task_planning/grouped_taskgen/fallback_ac_tasks.py:11-12 | `_SPACE_RE.sub(" ", s).strip()`; NormalizeSpaceSpec and NormalizeSpaceIdempotent state that the result is stripped, single-spaced, empty exactly for blank input, and a fixed point |
| FallbackTasks.ShortTitle | src/task_planning/grouped_taskgen/fallback_ac_tasks.py:15-24 | the short title; ShortTitleSpec states the placeholder for blank text, the normalised text up to 80 characters, and the cut with an ellipsis beyond |
| FailsafeTasks.MinRules | src/task_planning/failsafe_taskgen.py:7-23 | seven keyword tests in source order, one per label, none answering General; the first test holds "security" |
| FailsafeTasks.MinGuess | src/task_planning/failsafe_taskgen.py:7-23 | General exactly when no keyword test fires on the lower-cased text |
| FailsafeTasks.MinGuessFirst | src/task_planning/failsafe_taskgen.py:7-23 | a label is answered exactly when its test is the first to fire |
| FailsafeTasks.SecurityFirst | src/task_planning/failsafe_taskgen.py:9-10 | any text mentioning "security" is filed under Security |
| FailsafeTasks.MinTitleSpec | src/task_planning/failsafe_taskgen.py:34-37 | the title is empty exactly when the text is blank; a stripped text of at most 90 characters is its own title; a longer one becomes a prefix of it without trailing whitespace, then an ellipsis |
| FailsafeTasks.MinTasksOf | src/task_planning/failsafe_taskgen.py:32-48 | one task per entry |
| FailsafeTasks.MinTasksOfFields | src/task_planning/failsafe_taskgen.py:39-47 | task i names only the i-th AC, has no task_id, is a Todo of category Task, and takes its title and subcategory from the AC text |
| FailsafeTasks.AcMapToMinTasks | src/task_planning/failsafe_taskgen.py:26-48 | one task per AC |
| FailsafeTasks.AcMapToMinTasksOnePerId | src/task_planning/failsafe_taskgen.py:33-47 | one task per AC, in map order |
| FailsafeTasks.AcMapToMinTasksFields | src/task_planning/failsafe_taskgen.py:33-47 | task i is the i-th AC with its cut title and the subcategory guessed from the stripped text |
| FailsafeTasks.AcMapToMinTasksCover | src/task_planning/failsafe_taskgen.py:26-48 | an id is covered by some failsafe task exactly when it is an id of the map |
| FailsafeTasks.AcMapToMinTasksOnce | src/task_planning/failsafe_taskgen.py:26-48 | no id is covered by two failsafe tasks |
| FailsafeTasks.MinTitle | src/task_planning/failsafe_taskgen.py:34-37 | the failsafe title; MinTitleSpec states that it is empty exactly for blank text, the stripped text up to 90 characters, and a cut text beyond |
| TraceChoose.Keywords | src/task_planning/traceability.py:22-23 | a keyword is exactly a word of the lower-cased AC text, with parentheses and slashes read as spaces, of at least four characters |
| TraceChoose.Scored | src/task_planning/traceability.py:31 | at most twelve keywords are scored, a prefix of the list, and a list of at most twelve is scored whole |
| TraceChoose.ScoreBounds | src/task_planning/traceability.py:31 | the score is at most the number of keywords, zero exactly when no keyword occurs in the task text, and full exactly when all do |
| TraceChoose.Scores | src/task_planning/traceability.py:29-31 | one score per task |
| TraceChoose.BestFromSpec | src/task_planning/traceability.py:27-35 | the loop keeps the first index of the highest score seen so far |
| TraceChoose.ChooseBestSpec | src/task_planning/traceability.py:17-35 | -1 exactly when there is no task; otherwise the first task with the highest score |
| TraceChoose.BestOfSpec | src/task_planning/traceability.py:27-35 | the whole loop over non-empty scores ends on the first highest one |
| TraceChoose.ChooseBestNoMatch | src/task_planning/traceability.py:20 | when no keyword occurs in any task, the first task is chosen |
| TraceChoose.TaskTextSame | src/task_planning/traceability.py:13-15 | the task text depends only on the title and description |
| TraceChoose.ChooseBestSameTexts | src/task_planning/traceability.py:17-35 | tasks with the same texts lead to the same choice |
| Traceability.StrIdsSpec | src/task_planning/traceability.py:56-58 | an id is collected from a list exactly when the list holds it as a string |
| Traceability.CoveredInTasksSpec | src/task_planning/traceability.py:54-58 | an id is collected from a task list exactly when some task names it |
| Traceability.CoveredIdsSpec | src/task_planning/traceability.py:53-58 | the covered set holds exactly the ids some task of some dictionary group result names |
| Traceability.MissingSpec | src/task_planning/traceability.py:60 | the missing ids are exactly the AC ids no task names, in AC map order, each once |
| Traceability.ListedIds | src/task_planning/traceability.py:70-76 | each dictionary group lists the string ids its ac_ids iterates to; anything else lists none |
| Traceability.LastPos | src/task_planning/traceability.py:74-76 | the last group listing an id, or -1: no later group lists it |
| Traceability.Union | src/task_planning/traceability.py:69-76 | an id is in the union exactly when some group lists it |
| Traceability.LastIndex | src/task_planning/traceability.py:74-76 | every entry points at a group that lists the id |
| Traceability.LastIndexSpec | src/task_planning/traceability.py:74-76 | an id has an entry exactly when some group lists it, and later writes override earlier ones |
| Traceability.AcToGroupSpec | src/task_planning/traceability.py:69-76 | an id maps to a group exactly when some dictionary group lists it, and to the group id of the last such group |
| Traceability.GidIndex | src/task_planning/traceability.py:79-82 | every entry points at a group result carrying that string group id |
| Traceability.GidIndexSpec | src/task_planning/traceability.py:79-82 | a group id resolves exactly when some group result carries it, to the last such one |
| Traceability.GidIndexInjective | src/task_planning/traceability.py:79-82 | two different group ids never resolve to the same group result |
| Traceability.DictPositions | src/task_planning/traceability.py:129 | the positions of exactly the dictionary tasks, in order; there is one exactly when some task is a dictionary |
| Traceability.DictTasks | src/task_planning/traceability.py:129 | one dictionary per dictionary position |
| Traceability.ChosenTask | src/task_planning/traceability.py:129-135 | the chosen task is a dictionary entry of the group result's tasks |
| Traceability.AttachTarget | src/task_planning/traceability.py:119-125 | a missing id goes to the group result of its group id, else the first one; none exactly when there is no group result |
| Traceability.AddIdSpec | src/task_planning/traceability.py:137-142 | appending an id adds it to the end of the task's ac_ids and changes nothing else |
| Traceability.SameShapeHasDict | src/task_planning/traceability.py:128-131 | group results of the same shape have dictionary tasks in the same places |
| Traceability.SameTaskText | src/task_planning/traceability.py:13-15 | appending an id does not change the task text |
| Traceability.SameShapeChosen | src/task_planning/traceability.py:133 | appending ids never changes which task a later id is attached to |
| Traceability.SameDictPositions | src/task_planning/traceability.py:129 | lists with dictionaries in the same places have the same dictionary positions |
| Traceability.AttachAt | src/task_planning/traceability.py:137-141 | the group results keep their number |
| Traceability.AttachWith | src/task_planning/traceability.py:140-142 | the group results keep their number |
| Traceability.AttachOne | src/task_planning/traceability.py:127-142 | the group results keep their number |
| Traceability.AttachAtSpec | src/task_planning/traceability.py:137-141 | only the chosen task of the target group result changes, by gaining the id at the end of its ac_ids |
| Traceability.AttachAtShape | src/task_planning/traceability.py:137-141 | appending keeps every group result's shape |
| Traceability.AttachAtCoverage | src/task_planning/traceability.py:137-141 | after appending, an id is covered exactly when it was or it is the appended one |
| Traceability.AttachWithSpec | src/task_planning/traceability.py:140-142 | appending to a chosen task keeps the shape, covers the id and nothing else, reports a change only when the task did not name the id, and always when the id was uncovered |
| Traceability.AttachOneSpec | src/task_planning/traceability.py:127-142 | a missing id is covered exactly when its target group result has a dictionary task, and a change is reported exactly then |
| Traceability.AttachStep | src/task_planning/traceability.py:118-142 | the group results keep their number |
| Traceability.AttachAll | src/task_planning/traceability.py:118-142 | the group results keep their number |
| Traceability.AttachStepSpec | src/task_planning/traceability.py:118-142 | one step keeps the shape, covers the id exactly when it is attachable, and reports a change exactly then |
| Traceability.SameShapeGoes | src/task_planning/traceability.py:118-142 | group results of the same shape agree on which ids can be attached and where |
| Traceability.SameShapeAddedAt | src/task_planning/traceability.py:118-142 | group results of the same shape receive the same ids at the same tasks |
| Traceability.AttachAllShape | src/task_planning/traceability.py:118-142 | the attach loop keeps the shape of the group results |
| Traceability.AttachAllCoverage | src/task_planning/traceability.py:118-142 | after the attach loop an id is covered exactly when it was, or it is missing and attachable |
| Traceability.AttachAllChanged | src/task_planning/traceability.py:118-142 | with distinct, uncovered missing ids, changed is true exactly when some missing id is attachable |
| Traceability.AttachStepIds | src/task_planning/traceability.py:137-142 | one step appends the id to the task it goes to and to no other |
| Traceability.AttachAllIds | src/task_planning/traceability.py:118-142 | the attach loop appends to every task exactly the ids that go to it, in missing order |
| Traceability.StepKeepsUncovered | src/task_planning/traceability.py:118-142 | after one step the remaining missing ids are still distinct and uncovered |
| Traceability.StepKeepsAttachable | src/task_planning/traceability.py:118-142 | a step leaves every other id as attachable as it was |
| Traceability.AddedAtSpec | src/task_planning/traceability.py:118-142 | an id is appended to a task exactly when it is missing and goes to that task |
| Traceability.FindBucket | src/task_planning/traceability.py:91 | the position of the bucket of a group id, or the end when there is none |
| Traceability.Members | src/task_planning/traceability.py:89-91 | the missing ids whose group id (G00 when unknown) is the given one |
| Traceability.AddToBucketKeys | src/task_planning/traceability.py:91 | setdefault-and-append keeps the existing buckets in order, adds one for a new group id, and never two for one |
| Traceability.BucketedKeys | src/task_planning/traceability.py:88-91 | one bucket per group id in use, each missing id having the bucket of its group |
| Traceability.BucketKeysStep | src/task_planning/traceability.py:91 | adding an id keeps bucket ids distinct and gives the new id a bucket |
| Traceability.BucketedMembers | src/task_planning/traceability.py:88-91 | each bucket holds exactly the missing ids of its group, in their order, and is non-empty |
| Traceability.BucketStepAll | src/task_planning/traceability.py:91 | adding an id keeps every bucket equal to the missing ids of its group |
| Traceability.BucketStep | src/task_planning/traceability.py:91 | after adding an id, bucket k holds exactly the ids so far of its group, and is non-empty |
| Traceability.TraceTaskCovers | src/task_planning/traceability.py:101-113 | the added task names exactly the ids of its bucket |
| Traceability.CreateOne | src/task_planning/traceability.py:93-114 | the group results keep their number |
| Traceability.CreateAll | src/task_planning/traceability.py:93-114 | the group results keep their number |
| Traceability.CreateOneSpec | src/task_planning/traceability.py:93-114 | one bucket only appends its task to the tasks of its group result, and reports a change exactly when its group id resolves |
| Traceability.CreateAllSpec | src/task_planning/traceability.py:93-114 | the bucket loop appends to each group result exactly the tasks of the buckets resolving to it, and changes no other key |
| Traceability.AppendedSpec | src/task_planning/traceability.py:93-114 | a task is appended to a group result exactly when it is the task of a bucket resolving there |
| Traceability.AppendedNone | src/task_planning/traceability.py:93-114 | a group result no bucket resolves to gains no task |
| Traceability.AppendedAtMostOne | src/task_planning/traceability.py:93-114 | each group result gains at most one task |
| Traceability.CoveredByGroup | src/task_planning/traceability.py:53-58 | an id is covered exactly when some group result's tasks name it |
| Traceability.AppendedCovers | src/task_planning/traceability.py:93-114 | the tasks appended to a group result name exactly the ids of the buckets resolving to it |
| Traceability.CreateAllCoverage | src/task_planning/traceability.py:93-114 | after the bucket loop an id is covered exactly when it was, or it is in a bucket that resolves |
| Traceability.EnforceReport | src/task_planning/traceability.py:37-148 | the call raises exactly when the group results cannot be iterated, or some id is missing and the grouping cannot be iterated; otherwise it reports the missing ids and the mode, and with nothing missing it changes nothing |
| Traceability.BucketsResolveId | src/task_planning/traceability.py:88-96 | some resolving bucket holds an id exactly when the id is missing and its group id resolves |
| Traceability.BucketOfMissing | src/task_planning/traceability.py:89-91 | every missing id has a bucket under its group id |
| Traceability.BucketsResolveAny | src/task_planning/traceability.py:88-96 | some bucket resolves exactly when some missing id's group id resolves |
| Traceability.CreateMode | src/task_planning/traceability.py:86-114 | the bucket loop covers exactly the missing ids whose group id resolves, and reports a change exactly when there is one |
| Traceability.EnforceCreateCoverage | src/task_planning/traceability.py:86-114 | in create_task mode an id ends up covered exactly when it was, or it is missing and its group id (G00 when unknown) resolves; changed is true exactly when some missing id's does |
| Traceability.CreateAllChanged | src/task_planning/traceability.py:93-114 | the bucket loop reports a change exactly when some bucket resolves |
| Traceability.EnforceAttachCoverage | src/task_planning/traceability.py:116-142 | in any other mode the shape is kept, an id ends up covered exactly when it was or it is missing and attachable, and changed is true exactly when some missing id is attachable |
| Traceability.EnforceAttachCoversAll | src/task_planning/traceability.py:116-142 | in attach mode, with a group result and a dictionary task in every group result, every AC ends up covered |
| Traceability.EnforceAcTraceability | src/task_planning/traceability.py:37-148 | `enforce_ac_traceability`; EnforceReport, EnforceCreateCoverage, EnforceAttachCoverage and EnforceAttachCoversAll state when it raises and which ids end up covered in each mode |
| RunMain.NonBlankTexts | src/task_planning/run.py:37-40 | at most one AC per value, each stripped and non-empty |
| RunMain.NonBlankTextsMembers | src/task_planning/run.py:37-40 | a text is kept exactly when it is the non-empty stripped form of some value |
| RunMain.NonBlankTextsEmpty | src/task_planning/run.py:37-40 | nothing is kept exactly when every value is blank once converted |
| RunMain.AcTextValues | src/task_planning/run.py:43-44 | at most one value per item |
| RunMain.ExtractSpec | src/task_planning/run.py:27-49 | every AC is stripped and non-empty; the acceptance_criteria list is used whenever it gives an AC, and the items' ac_text values only otherwise |
| RunMain.CriteriaTextsMembers | src/task_planning/run.py:36-40 | a criteria list gives exactly its non-blank entries, stripped |
| RunMain.AcIdSpec | src/task_planning/run.py:55 | different numbers give different ids, and each id sorts by its number |
| RunMain.AcIdsDistinct | src/task_planning/run.py:55 | the generated ids are pairwise distinct |
| RunMain.BuildAcMap | src/task_planning/run.py:52-56 | one entry per AC, holding the AC text, in order |
| RunMain.BuildAcMapSpec | src/task_planning/run.py:52-56 | the i-th AC is stored under prefix-00i, and the ids sort in list order |
| RunMain.AcIdsOrdered | src/task_planning/run.py:55 | a later AC gets an id with a larger sort number |
| RunMain.MaxTasksFromScore | src/task_planning/run.py:59-64 | the tier is 2, 3 or 5 |
| RunMain.MaxTasksFromScoreTiers | src/task_planning/run.py:59-64 | a better score never allows more tasks; 5 exactly up to 40 and 2 exactly above 70 |
| RunMain.SelectRange | src/task_planning/run.py:67-82 | raises exactly when the start (at least 1) is past the end; otherwise a non-empty slice from the start, of length limit when positive and in range, else to the end |
| RunMain.SelectRangeErrors | src/task_planning/run.py:71-72 | the range error reports the clamped start and the total |
| RunMain.FailsafeOutputSpec | src/task_planning/run.py:118-174 | one group G00 holding every AC id, flagged as fallback with reason failsafe_taskgen_used, one group result whose tasks cover exactly the AC ids, counts of 1 group and one task per AC |
| RunMain.GroupOutputs | src/task_planning/run.py:280-292 | one task-generation result per group |
| RunMain.Collect | src/task_planning/run.py:280-296 | ends with all results when no group raises, otherwise with the error of the first group that raises |
| RunMain.TotalTasksAppend | src/task_planning/run.py:294-296 | the total counts each group result once |
| RunMain.TaskgenForLength | src/task_planning/run.py:280-292 | one task-generation result per group |
| RunMain.RouteFailsafe | src/task_planning/run.py:231-270 | a grouping that raised, has no groups or is flagged fallback leads to the failsafe output |
| RunMain.RouteGenerated | src/task_planning/run.py:275-320 | otherwise the output keeps the grouping, reports no fallback, has one result per group in order and the summed task count; it raises exactly when some group's generation raises |
| RunMain.RouteFallbackFlag | src/task_planning/run.py:231-320 | the output's fallback flag is set exactly when the failsafe route was taken |
| RunMain.MainSteps | src/task_planning/run.py:199-239 | with no AC the run fails with "No acceptance_criteria found in input."; a start past the end fails; otherwise the selected ACs become AC-00i ids, the policy is tuned and the grouping result is routed |
| RunMain.MainRouting | src/task_planning/run.py:219-270 | with the tuned policy the grouping call never raises, the failsafe is taken exactly when it gives no group or is a fallback, and its groups hold every AC id exactly once |
| RunMain.Route | src/task_planning/run.py:231-320 | routing after the grouping call; RouteFailsafe, RouteGenerated and RouteFallbackFlag state when the failsafe output is used and what the generated output holds |
| RunMain.Main | src/task_planning/run.py:199-320 | `main` from the parsed input; MainSteps and MainRouting state its early failures, the id assignment and tuning, and that the groups it hands on assign every selected AC exactly once |
| BatchRun.StripAll | src/task_planning/batch_run.py:29-31 | one stripped text per value, in order |
| BatchRun.ExtractAcsSources | src/task_planning/batch_run.py:18-34 | a non-dictionary gives no AC; a criteria list is the only source whenever it is a list; otherwise items gives one AC per truthy ac_text |
| BatchRun.ExtractAcsAgreesWithRun | src/task_planning/batch_run.py:23-24 | when the criteria list gives some AC, the batch extraction agrees with that of run.py |
| BatchRun.BlankItemKept | src/task_planning/batch_run.py:30-31 | unlike run.py, a blank but truthy ac_text gives an empty AC |
| BatchRun.MaxTasksFromGlobalScore | src/task_planning/batch_run.py:37-45 | the tier is 2, 3 or 5 |
| BatchRun.GlobalScoreAgreesWithRun | src/task_planning/batch_run.py:37-45 | from 0 to 90 the tiers are those of run.py; below 0 and above 90 the batch runner gives 3 where run.py gives 5 and 2 |
| BatchRun.BatchWindows | src/task_planning/batch_run.py:76-121 | the windows split 1..total into consecutive non-empty ranges of at most max(1, batch) ACs, all but the last of exactly that size |
| BatchRun.HandedPrefix | src/task_planning/batch_run.py:81-90 | the first n windows hand over exactly the ACs up to the end of window n |
| BatchRun.HandedAll | src/task_planning/batch_run.py:81-121 | every AC is handed to the pipeline exactly once, in order |
| BatchRun.Renumber | src/task_planning/batch_run.py:100-102 | renumbering keeps the number of items |
| BatchRun.RenumberSpec | src/task_planning/batch_run.py:99-102 | the k-th dictionary item of a window gets the whole-list position of the window's k-th AC and keeps every other key; other items are untouched |
| BatchRun.SelectAcs | src/task_planning/batch_run.py:66-72 | fails with "No acceptance_criteria found." exactly when there is no AC; otherwise a non-empty prefix of the ACs, of length min(limit, total) for a positive limit |
| BatchRun.ExtractAcs | src/task_planning/batch_run.py:18-34 | `extract_acs`; ExtractAcsSources, ExtractAcsAgreesWithRun and BlankItemKept state its sources and how it differs from run.py |
| Ingest.DigitRun | src/task_planning/ingest.py:6 | the `[0-9]+` part of the marker: the longest run of ASCII digits at the start, followed by a non-digit or the end |
| Ingest.MarkerLen | src/task_planning/ingest.py:6 | the marker length found never exceeds the text |
| Ingest.MarkerLenOf | src/task_planning/ingest.py:6 | every marker of the pattern (a dash, star or bullet sign; digits then a dot or parenthesis; one ASCII letter then a dot or parenthesis) is found with its whole length when whitespace follows it |
| Ingest.DigitRunOf | src/task_planning/ingest.py:6 | a run of digits followed by a non-digit is measured exactly |
| Ingest.MarkerLenIsMarker | src/task_planning/ingest.py:6 | whatever marker length is found delimits a marker of the pattern |
| Ingest.BulletShape | src/task_planning/ingest.py:6 | a line matches the bullet pattern with remainder b exactly when it is leading whitespace, a marker, at least one whitespace and then b, with b not starting in whitespace |
| Ingest.BulletParts | src/task_planning/ingest.py:6 | a matched line splits into its leading whitespace, its marker, a non-empty whitespace run and the remainder |
| Ingest.BulletOfParts | src/task_planning/ingest.py:6 | whitespace, a marker, whitespace and a body not starting in whitespace form a bullet line whose substitution leaves that body |
| Ingest.BulletNotBlank | src/task_planning/ingest.py:6-28 | a bullet line is never blank, and after `rstrip` its body is not blank either |
| Ingest.BodyKeepsLastChar | src/task_planning/ingest.py:26-28 | the body of a bullet line that does not end in whitespace is not blank |
| Ingest.LineEnd | src/task_planning/ingest.py:10 | the first line ends at the first line-break character, or at the end of the text |
| Ingest.NextLine | src/task_planning/ingest.py:10 | the next line starts past the break, counting `\r\n` as one break |
| Ingest.SplitLines | src/task_planning/ingest.py:10 | `splitlines` gives lines free of line breaks |
| Ingest.LineEndAt | src/task_planning/ingest.py:10 | a line followed by a break ends exactly at that break |
| Ingest.SplitAtNewline | src/task_planning/ingest.py:10 | a break-free line followed by `\n` is read as the first line, and the rest is split on its own |
| Ingest.SplitTerminated | src/task_planning/ingest.py:10 | break-free lines, each followed by `\n`, are split back into exactly those lines |
| Ingest.SplitSingleLine | src/task_planning/ingest.py:10 | a text without line breaks is a single line |
| Ingest.SplitAllBlank | src/task_planning/ingest.py:10 | splitting loses only whitespace: a text whose lines are all blank is blank |
| Ingest.SplitOfBlank | src/task_planning/ingest.py:10 | every line of a blank text is blank |
| Ingest.Emit | src/task_planning/ingest.py:14-19 | `flush` completes at most one AC, non-empty and without surrounding whitespace |
| Ingest.EmitIff | src/task_planning/ingest.py:14-19 | `flush` completes an AC exactly when some buffered line is not blank |
| Ingest.EmitJoins | src/task_planning/ingest.py:16-18 | buffered non-empty stripped lines are flushed as those lines joined by single spaces |
| Ingest.JoinBlank | src/task_planning/ingest.py:16 | a space-joined text is blank exactly when every part is blank |
| Ingest.JoinStripped | src/task_planning/ingest.py:16 | non-empty stripped parts joined by spaces give a non-empty stripped text |
| Ingest.StepBlank | src/task_planning/ingest.py:22-24 | a blank line flushes the current AC and empties the buffer |
| Ingest.StepBullet | src/task_planning/ingest.py:26-29 | a bullet line flushes the current AC and opens a buffer holding its stripped body |
| Ingest.StepContinuation | src/task_planning/ingest.py:30-36 | any other line is added, stripped, to the buffer and completes nothing |
| Ingest.StepLive | src/task_planning/ingest.py:21-36 | a non-blank line or a live buffer leaves a completed AC or a live buffer |
| Ingest.ScanLines | src/task_planning/ingest.py:21-36 | every AC the loop completes is non-empty and stripped |
| Ingest.ScanLive | src/task_planning/ingest.py:21-36 | a live buffer or a non-blank line makes the loop complete an AC or end with a live buffer |
| Ingest.ScanBlank | src/task_planning/ingest.py:21-24 | blank lines leave an empty scan empty |
| Ingest.ContinuationsBuffer | src/task_planning/ingest.py:30-36 | a run of continuation lines completes nothing and appends each line, stripped, to the buffer in order |
| Ingest.ExtractFromLines | src/task_planning/ingest.py:21-39 | the loop and the last flush give only non-empty stripped ACs |
| Ingest.BlankLineSplits | src/task_planning/ingest.py:22-24 | a blank line separates ACs: the lines before and after it are read independently and their ACs concatenated |
| Ingest.BulletLineStarts | src/task_planning/ingest.py:26-29 | a bullet line starts a new AC: the lines before it are read independently of it and what follows |
| Ingest.OneParagraph | src/task_planning/ingest.py:30-39 | a run of non-blank, non-bullet lines is one AC: the stripped lines joined by single spaces |
| Ingest.BulletParagraph | src/task_planning/ingest.py:26-39 | a bullet line and its continuation lines are one AC: the body, then the lines, joined by single spaces |
| Ingest.ExtractNonEmpty | src/task_planning/ingest.py:21-39 | some AC is found exactly when some line is not blank |
| Ingest.ExtractAcsFromText | src/task_planning/ingest.py:9-39 | every AC of the text is non-empty and stripped |
| Ingest.TextNonEmpty | src/task_planning/ingest.py:9-39 | a text yields some AC exactly when it is not blank |
| Ingest.ItemValues | src/task_planning/ingest.py:65-69 | an `items` list gives at most one value per entry |
| Ingest.DictValues | src/task_planning/ingest.py:80-84 | a list of dictionaries gives at most one value per entry |
| Ingest.NormalizeObject | src/task_planning/ingest.py:57-73 | a dictionary gives only non-empty stripped ACs |
| Ingest.NormalizeFromJson | src/task_planning/ingest.py:49-86 | any JSON value gives only non-empty stripped ACs |
| Ingest.NormalizeShadow | src/task_planning/ingest.py:58-60 | once one of acceptance_criteria, ac, acs holds a list, no later key and no items list changes the result |
| Ingest.NormalizeListKey | src/task_planning/ingest.py:58-60 | the first list among the three keys is the only source: a text becomes an AC exactly when some element of it strips to that non-empty text |
| Ingest.MixedListGivesNothing | src/task_planning/ingest.py:75-86 | a top-level list that is neither all strings nor all dictionaries gives no AC |
| Ingest.AcItems | src/task_planning/ingest.py:102-113 | one item per AC |
| Ingest.AcItemsSpec | src/task_planning/ingest.py:102-113 | item i has exactly the keys ac_index and ac_text, index i + 1, and its text reads back as the i-th AC |
| Ingest.IngestInput | src/task_planning/ingest.py:89-113 | the format is empty exactly for blank input; json only when the parse succeeded and gave ACs; text when parsing failed or gave none, reading the stripped input line by line |
| Ingest.IngestNonEmpty | src/task_planning/ingest.py:89-113 | no AC comes out exactly when the input is blank, and every AC is non-empty and stripped |
| Ingest.BulletBody | src/task_planning/ingest.py:26-28 | `BULLET_RE.match` then `sub`; BulletShape, BulletParts and BulletOfParts state that a body is found exactly for leading whitespace, a marker, whitespace and the rest |
| Ingest.StepLine | src/task_planning/ingest.py:21-36 | one pass of the line loop; StepBlank, StepBullet, StepContinuation and StepLive state what a blank, a bullet and any other line do to the buffer |
| Registry.GetTitle | src/task_planning/registry.py:12-16 | a title comes back exactly when the key is registered |
| Registry.Register | src/task_planning/registry.py:18-20 | afterwards the key is known exactly when it was known before or both key and title are non-empty; a known key or an empty key or title leaves the ledger unchanged; a new key gets its title; every other key keeps its title |
| Registry.RegisterValid | src/task_planning/registry.py:18-20 | registration never records an empty key or an empty title |
| Registry.FirstWins | src/task_planning/registry.py:19-20 | registering a known key again, under any title, keeps the first title |
| Registry.RegisterCommutes | src/task_planning/registry.py:18-20 | registrations of different keys can be made in either order |
| Registry.FirstTitle | src/task_planning/registry.py:18-20 | the first valid registration of a key has a non-empty title |
| Registry.RegisterAllFirst | src/task_planning/registry.py:12-20 | after a run of registrations on a fresh ledger, every key holds the title of its first registration with non-empty key and title, and keys never so registered are unknown |
| Registry.RegisterAllFrom | src/task_planning/registry.py:12-20 | on any ledger, a run of registrations keeps the titles of known keys and gives every other key the title of its first valid registration |
| Refinement.ShouldContinue | src/story_refinement/workflow.py:41-112 | the decision is END or issue detection, and END exactly when the score is present and at least 85 or the iteration has reached 5 |
| Refinement.Step | src/story_refinement/workflow.py:48-135 | executing a node and following its edge stays below the round limit and strictly lowers the measure of the remaining run, so the cycle terminates |
| Refinement.StepIteration | src/story_refinement/workflow.py:60-99 | only the suggestion node moves the iteration, by exactly one, and replaces the story with the service's revision; the other nodes keep both |
| Refinement.StopRound | src/story_refinement/workflow.py:101-112 | the stop round is the first round, from the entry round on, at which the panel's score reaches the target or the iteration reaches the limit |
| Refinement.RoundStep | src/story_refinement/workflow.py:125-133 | below the target and the limit, a run from the classifier is the run from the classifier one round later, after issue detection and suggestion |
| Refinement.RunFrom | src/story_refinement/workflow.py:118-135 | a run from the classifier succeeds exactly when every service call up to the stop round is answered, and then ends in that round's outcome |
| Refinement.RefineSpec | src/story_refinement/workflow.py:125-183 | from iteration 0 the loop makes at most 5 revisions, succeeds exactly when every call up to its stop round is answered, and ends in a state the decision sends to END, short of the limit only when the score reached the target |
| Refinement.Run | src/story_refinement/workflow.py:118-135 | running the compiled graph until END; Step, StepIteration and RunFrom state that each step lowers the measure and which outcome a run reaches |
| Refinement.Refine | src/story_refinement/workflow.py:171-183 | the loop from the initial state at the classifier; RefineSpec states its revision bound, its success condition and its final state |

## Left out

- The service calls themselves (`call_llm_json`, the OpenAI client, the story-refinement services, and `plan_one_ac`, `generate_tasks` and `repair_tasks` in `pipeline.py`) are oracles. Exceptions of every type are folded into the reason string of a failed reply.
- `run_pipeline` in `pipeline.py` is per-AC orchestration of those calls and is not modelled. Only `_normalize_tasks` from that file is modelled.
- Prompt texts and prompt builders are left out: they format prose and decide nothing.
- File, process and network I/O is left out. This includes `_load_json`, the output and part files of `run.py` and `batch_run.py`, the `--resume` existence test, logging, and the story-refinement `WorkflowLogger`.
- The clock (`datetime.now()` timestamps), the model name, and the settings echoed into the output `meta` are left out. `RunMain.RunMeta` keeps only the counters and the fallback flag and reason.
- `json.loads` is a parameter of `Ingest.IngestInput`: `None` stands for a parse error. A `raw_text` of `None` is not modelled; the input is always a string.
- PyJson.PyStr: `str()` of a list or dictionary is a fixed marker (`[...]`, `{...}`) instead of Python's repr, so the words inside it are lost wherever such a value is read as text. A list description is kept as it is by the task normalisers, and `_choose_best_task` in `traceability.py` scores AC keywords against the title and `str(description)`: for the tasks `{title: "A", description: "x"}` and `{title: "B", description: ["login"]}` and the AC text "login page", Python scores `b ['login']` and picks the second task, the model scores `b [...]` and picks the first. A nested list among the acceptance criteria (`[["login required"]]`) becomes the AC text `['login required']` in Python and `[...]` in the model, which changes keyword bucketing, log kinds and subcategory guesses for that AC. A list `group_id` in a group result, and the values quoted in validation messages, are rendered the same way.
- Floats are not modelled; numbers are integers. This covers `estimate_hours` in `validate.py` and both `_normalize_tasks`, and `isinstance(v, (int, float))`, which is read as int or bool.
- GroupTaskgen.MaxTasks: `int(len(group_ac_ids) * float(max_tasks_per_ac))` is taken as an integer product, so a fractional `max_tasks_per_ac` is not modelled.
- Strings.Lower: lower-cases ASCII letters only. Python's `str.lower` lower-cases every cased letter, and two non-ASCII letters lower-case to ASCII ones: U+0130 (İ) becomes `i` followed by U+0307, and U+212A (the Kelvin sign) becomes `k`. A text that spells a keyword with them, such as `APİ` or `TO\u212AEN`, matches `api` or `token` in Python but no keyword in the model. This affects every keyword classifier that lower-cases first.
- FallbackTasks.TrailingDigits: reads `\d` in `(\d+)$` as the ASCII digits 0-9, while Python 3 matches every Unicode decimal digit there; an id ending in such digits sorts by its number in Python and last (`10**9`) in the model. The ids the planner generates are ASCII and end in a digit, so their order is unaffected. The other reading of `$`, before a final newline, is modelled: `FallbackTasks.SortNumber` drops a final newline first (`FallbackTasks.SortNumberFinalNewline`).
- The regular expressions are written as predicates, not run by a regex engine. `[0-9]` in the bullet pattern of `ingest.py` is ASCII in Python too, and `\s` is the whitespace set of `Strings.IsSpace`.
- Strings.ParseInt: Python's `int()` also accepts decimal digits outside ASCII, such as the full-width `３`. The model accepts only ASCII digits, with single underscores between them. So for a full-width estimate, TaskNormalize.Hours gives the default 2 where Python uses the number.
- TaskNormalize.Hours: reads `int()` through Strings.ParseInt, so a non-ASCII digit string gives 2 where Python clamps its value to 1..4.
- Dictionary key order is kept only where the planner depends on it: the AC map, buckets and groups are sequences. Task and group dictionaries are unordered maps.
- Aliasing and in-place mutation of the Python dictionaries are modelled as building new values. `enforce_ac_traceability` and the `ac_index` renumbering mutate the caller's objects; the model returns the updated copies.
- `validate_tasks_obj`, which `taskgen_agent.py` and `pipeline.py` import, is not defined in `validate.py` (see Findings). The model uses `TaskValidate.ValidateTasksObj` in its place: `validate_tasks` with `max_tasks_per_ac` set to the call's `max_tasks`.
- GroupingFallback.FallbackGrouping: requires `max_ac_per_group >= 1`. `ClusterAgent.SimpleFallback` models the other values: a step of 0 raises in `range` and a negative step yields no chunk.
- `_flatten_tasks` in `traceability.py` is never called and is not modelled.
- Refinement.RefineSpec: the story-and-ACs value is an abstract type, and the three services are oracles indexed by revision round. LangGraph's own recursion limit (25 steps) is not modelled; the loop stops well before it.
- Python's printing in the refinement nodes and the `__main__` demo input of `workflow.py` are left out.

## Findings

| source | as written | input that shows it | evidently intended | confidence | as-written member | corrected member |
|---|---|---|---|---|---|---|
| src/task_planning/grouping/schema.py:22-23 | `_is_str_list` accepts the empty list, so `validate_grouping` passes a group with no AC ids | five ACs `AC-1`..`AC-5`, the default limits, and groups `G01` holding all five ids plus `G02` with `ac_ids: []` | the docstring (line 138) and the issue message (line 180) ask for a non-empty list of strings | not executed | GroupingValidate.EmptyGroupAccepted | GroupingValidate.StrictOkGroupsNonEmpty |
| src/task_planning/grouping/cluster_agent.py:86-127 | `cluster_acs` checks proposals with `validate_grouping`, so it returns a grouping with an empty group as an accepted proposal | five ACs `AC-1`..`AC-5`, `max_ac_per_group` 10, target 1..2, `max_groups` 2, `min_group_size` 2, and a first reply with `G01` holding all five ids and `G02` with `ac_ids: []` | every returned group holds at least one AC, as the fallback's groups do | not executed | ClusterAgent.ClusterAcceptsEmptyGroup | ClusterAgent.ClusterCorrectedGroupsNonEmpty |
| src/task_planning/grouped_taskgen/taskgen_agent.py:8 | `from ..validate import validate_tasks_obj`, also at line 8 of `pipeline.py`; `validate.py` defines only `validate_tasks` and `validate_result`, so the import raises ImportError and `run.py` (line 10) and `batch_run.py` (line 10) cannot start | importing `task_planning.run` | a validator of one task object with a `max_tasks` limit, as the calls at lines 235 and 264 use it | not executed | TaskValidate.ValidateTasksObjMissing | TaskValidate.ValidateTasksObj |
