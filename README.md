# Render clean-up: a verified model of the selection logic

`clean-up.py` is a ShotGrid/Nuke tool that archives old EXR renders. A
scan takes the project's Version records and proceeds in three steps:

- It keeps those whose frame path is an EXR sequence outside the excluded
  pipeline steps.
- It groups them by (shot, task).
- Inside each group, it selects directories with three retention rules:
  - every `na` render;
  - all `innote` renders but the newest;
  - all `note` renders but the two newest.

The selected sequence directories that still exist are returned once
each, in first-occurrence order. When they are moved, a collision-free
name is chosen in the destination folder.

This project models that logic in Dafny and proves what the script
promises about it:

- `versions.dfy`, module `Versions`: the Version record, the group key, and the status and step constants.
- `seqs.dfy`, module `Seqs`: subsequences, duplicate-freedom, first occurrences and order-preserving de-duplication.
- `text.dfy`, module `Text`: ASCII case folding, `endswith`, substring search and the decimal rendering of a counter.
- `posix_path.dfy`, module `PosixPath`: `os.path.join` with two arguments and `os.path.dirname`, with POSIX semantics.
- `eligibility.dfy`, module `Eligibility`: the filter loop of `get_versions_for_cleanup`.
- `grouping.dfy`, module `Grouping`: `group_versions_by_shot`.
- `retention.dfy`, module `Retention`: the per-group sort and the three rules of `apply_cleanup_rules`.
- `cleanup_rules.dfy`, module `CleanupRules`: the rules loop, the `missing_paths` count and the de-duplication of `apply_cleanup_rules`.
- `unique_dest.dfy`, module `Destination`: `_ensure_unique_dest`.
- `scan.dfy`, module `Scan`: the filter, group and rules pipeline of `run_scan`.

The loops of the script are methods with loop invariants:

- the filter loop;
- the `defaultdict` loop;
- the rules loop;
- the "seen set" loop;
- the `while True` search for a free name.

Each method is proved equal to a specification function, for example
`WithVerdict`, `GroupMap`, `CleanupPaths` or `Dedup`. Lemmas then state
what the script promises about those functions.

The filesystem is a parameter `fs: set<string>`, the set of paths that
exist. `os.path.exists(p)` is `p in fs`. The records returned by the
tracking service are an input sequence.

## Model

| member | source | states |
|---|---|---|
| Eligibility.FilterEligible | clean-up.py:369-402 | The loop's kept list and its two counters equal the model's buckets of kept, excluded and non-EXR versions; the kept list is an order-preserving subsequence of the input; kept + excluded + non-EXR = number of input versions |
| Eligibility.WithVerdictMembers | clean-up.py:373-400 | A version is in a bucket if and only if it is an input version that the checks classify that way |
| Eligibility.WithVerdictIsSubsequence | clean-up.py:373-400 | Each bucket, the kept list in particular, keeps the input order |
| Eligibility.VerdictCountsPartition | clean-up.py:369-402 | Every input version is counted in exactly one of kept, `excluded_count`, `non_exr_count` |
| Eligibility.KeptVersionsQualify | clean-up.py:377-400 | A kept version has a non-empty path ending in `.exr` ignoring case; when it has a task and a step, the step name is not excluded; no excluded name occurs in its path ignoring case |
| Eligibility.RotoStepIsExcluded | clean-up.py:381-387 | With the default excluded list (clean-up.py:85), a version with a task in the "Roto" step is never kept |
| Eligibility.Classify | clean-up.py:377-398 | The loop body's decision, whatever the order of its checks: kept exactly when the path is a non-empty `.exr` path (ignoring case), the step is not excluded and no excluded name occurs in the path; non-EXR exactly when the path check fails; excluded exactly when the path passes and a step or path check fails |
| Eligibility.NonExrPathIsDropped | clean-up.py:377-379 | Any frame path that does not end in `.exr`, ignoring case, is counted as non-EXR and never kept, whatever its step and status |
| Grouping.GroupByShot | clean-up.py:410-417 | The loop's key order is the order of first insertion; each key's list equals the model's group; the keys are distinct and are exactly the dictionary's keys |
| Grouping.FileVersion | clean-up.py:413-416 | One step of the loop: after filing a version, the key list and the dictionary are those of the input read one version further |
| Grouping.GroupMapSnoc | clean-up.py:415-416 | Filing a version with both links appends it to its key's list, creating the list if the key is new; a version missing a link changes nothing |
| Grouping.GroupKeysSnoc | clean-up.py:415-416 | Filing a version adds its key at the end of the key list exactly when the key is new |
| Grouping.MembersSpec | clean-up.py:413-416 | A version is in the group of key k if and only if it is an input version with both an entity and a task and its (entity id, task id) is k |
| Grouping.GroupedExactlyOnce | clean-up.py:413-416 | A version with both links lies in the group of its own key and in no other; a version missing a link lies in no group |
| Grouping.MembersIsSubsequence | clean-up.py:413-416 | Each group keeps the input order |
| Grouping.MembersEmptyIffAbsent | clean-up.py:413-416 | A key has a non-empty group exactly when some input version carries it |
| Grouping.GroupSizesTotal | clean-up.py:410-417 | The group sizes add up to the number of versions that have both an entity and a task |
| Grouping.GroupKeysMatchMap | clean-up.py:410-417 | The insertion-ordered key list and the dictionary have the same keys |
| PosixPath.Join | clean-up.py:270-275 | `os.path.join(a, b)` as both calls of `_ensure_unique_dest` use it: an absolute `b` is the result; otherwise the result starts with `a` and is at least as long as `a` and `b` together |
| PosixPath.JoinEndsWith | clean-up.py:270-275 | A relative second part ends the joined path |
| PosixPath.Dirname | clean-up.py:419-425 | `os.path.dirname(p)`, the sequence directory: a prefix of `p`, empty when `p` has no separator, and ending in `/` only when it is the root |
| PosixPath.DirnameOfJoin | clean-up.py:419-425 | `dirname(join(d, name)) == d` for a name without `/` and any directory `dirname` can return: empty, the root, or not ending in `/` |
| Retention.SortByCreated | clean-up.py:443-444 | The stable sort by `created_at` keeps the number of versions (its order and permutation facts are `SortIsStableSort`) |
| Retention.Bucket | clean-up.py:447 | A status bucket (the list comprehension of each rule) is no longer than the list and holds only versions of that status |
| Retention.RuleNa | clean-up.py:446-456 | Rule 1 selects "na" versions only |
| Retention.RuleInNote | clean-up.py:458-470 | Rule 2 selects a leading (oldest-first) part of the "innote" bucket that leaves exactly one version unselected whenever there is one |
| Retention.RuleNote | clean-up.py:472-484 | Rule 3 selects a leading (oldest-first) part of the "note" bucket that leaves two versions unselected, or all of them when there are fewer than two |
| Retention.SelectForRemoval | clean-up.py:443-484 | A group's selection holds only versions of status "na", "innote" or "note" |
| Retention.SortIsStableSort | clean-up.py:443-444 | The per-group sort yields a list ordered by `created_at` that is a permutation of the group; versions with equal `created_at` keep their relative order |
| Retention.SortOfSortedIsIdentity | clean-up.py:443-444 | On a group already in ascending `created_at` order (as the query returns it), the sort changes nothing |
| Retention.BucketMembers | clean-up.py:447 | A version is in a status bucket if and only if it is in the list and has that status |
| Retention.BucketOfSorted | clean-up.py:444-473 | A status bucket of the sorted group is a sorted permutation of the group's bucket; equal-time versions keep their order |
| Retention.RuleStatuses | clean-up.py:447-484 | Each rule selects only versions of its own status from the sorted list |
| Retention.RuleNaSelectsAll | clean-up.py:446-456 | Rule 1 selects every "na" version of the group, whatever their number |
| Retention.RuleInNoteKeepsNewest | clean-up.py:458-470 | With k "innote" versions, rule 2 selects none when k <= 1. Otherwise it selects exactly the first k - 1 in time order, and the one left is at least as new as every "innote" version of the group |
| Retention.RuleNoteKeepsTwoNewest | clean-up.py:472-484 | With k "note" versions, rule 3 selects none when k <= 2. Otherwise it selects exactly the first k - 2 in time order, and every selected one is no newer than the older of the two left |
| Retention.SelectedVersionsHaveRuleStatus | clean-up.py:446-484 | A selected version belongs to the group and has status "na", "innote" or "note"; no other status is ever selected |
| Retention.SelectionSize | clean-up.py:446-484 | A group contributes #na + (k_innote - 1 if k_innote > 1) + (k_note - 2 if k_note > 2) selections |
| Retention.FourNotesSelectTwoOldest | clean-up.py:472-484 | Of four "note" versions with increasing times, exactly the two oldest are selected |
| Retention.NaAndSingleInNote | clean-up.py:446-470 | A group of one "na" and one "innote" version selects only the "na" one |
| CleanupRules.CollectDirs | clean-up.py:448-456 | One rule's loop appends the directories of its versions that exist, in order, and counts the others into `missing_paths` |
| CleanupRules.ApplyRulesToGroup | clean-up.py:443-484 | The body of the group loop appends exactly the existing directories of the group's rule selections and counts the missing ones |
| CleanupRules.ApplyCleanupRules | clean-up.py:427-497 | The result is the de-duplicated list of existing directories of all selections, groups in key order; `missing_paths` counts the selections whose directory is gone; the result has no duplicates and every entry exists |
| CleanupRules.ExistingDirsMembers | clean-up.py:449-453 | A directory is collected if and only if it exists and is the `dirname` of a collected version's frame path |
| CleanupRules.ExistingDirsAccounting | clean-up.py:449-456 | Each version with a frame path adds either one collected directory or one to `missing_paths`, never both |
| CleanupRules.ExistingDirsAppend | clean-up.py:436-484 | Collecting over two lists in turn equals collecting over their concatenation, for the directories and for the missing count |
| CleanupRules.CandidatesMembers | clean-up.py:436-484 | A version is a candidate if and only if some group's rules select it |
| CleanupRules.Deduplicate | clean-up.py:489-497 | The seen-set loop returns a duplicate-free subsequence of its input with the same elements, ordered by first occurrence |
| Seqs.DedupMembers | clean-up.py:489-497 | De-duplication keeps exactly the set of elements |
| Seqs.DedupNoDuplicates | clean-up.py:489-497 | De-duplication leaves no duplicates |
| Seqs.DedupIsSubsequence | clean-up.py:489-497 | De-duplication keeps the input order |
| Seqs.DedupFirstOccurrenceOrder | clean-up.py:489-497 | The de-duplicated elements appear in the order of their first occurrences |
| Seqs.DedupSnoc | clean-up.py:492-495 | Appending a seen element changes nothing; appending a new one adds it at the end |
| Text.NatToString | clean-up.py:275 | The counter's decimal rendering in the numbered name is non-empty and made of digits only |
| Text.ParseNatToString | clean-up.py:275 | Reading back the decimal rendering of the counter gives the counter |
| Text.NatToStringInjective | clean-up.py:275 | Different counters give different suffixes |
| Destination.CandidateName | clean-up.py:270-275 | Every attempted name starts with the plain name; a numbered one continues with `_` and more; it holds `/` only when the plain name does |
| Destination.CandidateInjective | clean-up.py:274-278 | Different numbered attempts never give the same path |
| Destination.CandidateIsInRoot | clean-up.py:265-278 | Every attempted path lies directly inside the destination folder, for a name without `/` and a folder that is empty, the root, or written without a trailing `/` |
| Destination.AttemptsCardinality | clean-up.py:273-278 | The first n numbered attempts are n distinct paths, which bounds the search by the number of existing paths |
| Destination.EnsureUniqueDest | clean-up.py:265-278 | The result does not exist. It is `dest_root/base` when that is free. Otherwise it is the first free attempt: every earlier attempt, the plain name included, exists |
| Scan.RunScan | clean-up.py:187-194 | A scan returns the modelled result; it has no duplicates and every entry exists |
| Scan.ScanSoundness | clean-up.py:187-194 | Every reported directory exists. It is the `dirname` of the frame path of an input version that passed the filter, has both an entity and a task, and has status "na", "innote" or "note" |
| Scan.ScanReportsEveryNa | clean-up.py:187-194 | Each eligible, grouped "na" version whose sequence directory exists has that directory reported |
| Scan.DroppedVersionsAreNotSelected | clean-up.py:187-194 | A version the filter drops is in no group and no rule selects it |

## Left out

- The Qt dialog, the Nuke messages, the progress bar and all logging, including the shot and task display names (clean-up.py:439-441). They only present results.
- ShotGrid toolkit initialisation and the `sg.find` query. The returned records are the input sequence `versions`, and the excluded step names are a parameter. `DEFAULT_EXCLUDED_STEPS` holds the list the constructor sets.
- `os.path.exists` is membership in a set of existing paths. The model therefore treats an empty `dirname` (a frame path with no directory) as existing when `""` is in that set, whereas Python reports it missing.
- The total size of the selected directories and `_fmt_bytes` (clean-up.py:197-227). They walk the filesystem and format floats.
- The move loop of `move_files` (`shutil.move`, `basename`/`rstrip`, progress). It is filesystem I/O; the name choice it relies on, `_ensure_unique_dest`, is modelled.
- The string key `f"{entity}_{task}"` and its `split('_')`. The key is the pair of integer ids, which orders and separates groups the same way for integer ids.
- The exception handlers. The fallbacks return `[]` from the filter (clean-up.py:405-408) or the un-deduplicated list from the rules (clean-up.py:499-502); the model is of the non-failing run. A `created_at` that cannot be compared is one such failure, and `created_at` is an integer here.
- Case folding is ASCII only: Python's `lower()` and `upper()` also map non-ASCII letters.
- A step entity is always truthy in the model. A step whose `name` is `None` reads as "Unknown", whereas Python compares `None`; the two differ only when "Unknown" is itself an excluded name.
- The "internal note" status is the literal `innote`, as in this revision; other revisions of the script use `bkdn` for the same rule. The three status literals are named constants in `Versions`.
- The `missing_paths` count, which the script only logs, is returned as a second result of the rules method.
