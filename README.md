# qBittorrent cleanup: a verified model of the decision engine

`qbit_cleanup.py` is a single script. It logs in to a qBittorrent client,
fetches a snapshot of every torrent and then runs one of three modes:

- **autobrr** deletes torrents of the `autobrr` category whose state
  starts with `stalled`.
- **aged** deletes old, small torrents that have no excluded tag and no
  excluded part in their name.
- **dedupe** groups torrents of the `movies` category by the title before
  the first `" ("`. In every group with two or more unprotected members it
  keeps the first largest one and deletes the rest as its duplicates.

Each mode can run as a dry run, which reports what would go but deletes
nothing.

This project models that engine in Dafny and proves what it does. It has
five modules:

- `Text` (text.dfy): the string operations the script relies on, written
  out for ASCII text:
  - `str.lower`, `str.strip`, and `str.split` on a one-character separator;
  - `startswith`, substring test and `join`;
  - the first part of `split(" (")`;
  - decimal rendering of an integer in an f-string.
- `Torrents` (torrents.dfy):
  - the torrent record and the run's configuration, with the shipped
    constants;
  - the tag comprehension;
  - the per-torrent predicates: stalled, category, excluded tag, name
    exclusion, cross-seed tag, age and size.
- `Sweep` (sweep.dfy): the aged/autobrr loop:
  - the verdict on one torrent: the rule of the mode, the reasons and the
    reason text;
  - the loop over the snapshot, with the delete trace, the
    `total_deleted` counter and the "no matching torrents" notice.
- `Dedupe` (dedupe.dfy): the dedupe loops:
  - the grouping dict of lists, in first-seen key order;
  - the filter of protected members;
  - the keeper chosen by `max(..., key=total_size)`, which is the first
    largest member;
  - the marking of duplicates, the delete trace and the `total_removed`
    counter.
- `Cleanup` (cleanup.dfy): one run, dispatching on the mode.

The script is modelled with these conventions:

- **Inputs.** The snapshot (`seq<Torrent>`), the clock (`now`), the mode,
  the dry-run flag and the configuration are parameters.
- **Deletes.** Every call the script would make to `torrents_delete`
  appends the hash to an output sequence `deleted`.
- **Loops become methods.** Each loop of the script is a method with a loop
  and invariants. Each method is proved equal to a recursive specification
  function, and the properties the script promises are lemmas about those
  functions:
  - `Sweep.SweepSnapshot` against `Sweep.Decisions` and `Sweep.ToDelete`;
  - `Dedupe.GroupMovies` against `Dedupe.Keys` and `Dedupe.Group`;
  - `Dedupe.FilterGroup` against `Dedupe.Survivors`;
  - `Dedupe.MarkDuplicates`, `Dedupe.ProcessGroup` and `Dedupe.DedupeBy`
    against `Dedupe.Duplicates`, `Dedupe.GroupCandidates` and
    `Dedupe.CandidatesOf`.
- **Generic parameters.** The grouping functions take the key expression of
  line 75 as a parameter `key`; `Dedupe.MovieKey` is that expression. The
  filtering and marking functions take the protection test of lines 88-93
  as a parameter `prot`; `Dedupe.ProtectedUnder(cfg)` is that test. The
  methods and the top-level statements (`DedupeCandidates`,
  `DedupeSnapshot`, `DedupeSpares`, `DedupeTieBreak`) use the script's own
  key and test.
- **Unique hashes.** Where a property needs torrents to have distinct
  hashes, it is a precondition, `Torrents.UniqueHashes`. The script
  compares torrents by hash at line 101.

**Age check against reason text.** The aged reason says "> 15 days old",
but the comparison at line 127 is `>=`, so a torrent exactly 15 days old is
deleted. The model follows the code:

- `Torrents.ThresholdsInclusive` proves that exactly 15 days counts as old;
- `Sweep.AgedReasonShipped` proves the text still reads "> 15".

**Blank tags field.** A tags field of whitespace only, such as `" "`, is
not empty, so it passes the `if torrent.tags` guard at lines 85 and 117 and
parses to `[""]`, a tag list holding one empty tag. Tags are meant to be
non-empty, but the model follows the code: `Torrents.BlankTagsField` proves
that result, and it is the one case `Torrents.ParseTagsIdempotent` excludes.

## Model

| member | source | states |
|---|---|---|
| Text.LowerChar | qbit_cleanup.py:119 | lower-casing a character maps `A`-`Z` to `a`-`z` and leaves every other character as it is |
| Text.Lower | qbit_cleanup.py:119 | `lower()` keeps the length and lower-cases character by character |
| Text.LowerIsLowered | qbit_cleanup.py:119 | the result of `lower()` has no upper-case letter |
| Text.LowerIdempotent | qbit_cleanup.py:119 | lower-casing twice is lower-casing once |
| Text.Strip | qbit_cleanup.py:117 | `strip()` leaves no whitespace at either end and never lengthens the text |
| Text.StripIsSlice | qbit_cleanup.py:117 | the stripped text is a contiguous slice of the original, starting after the leading whitespace |
| Text.StripCutsSpace | qbit_cleanup.py:117 | what `strip()` removes on both sides is whitespace only |
| Text.StripIdempotent | qbit_cleanup.py:117 | stripping twice is stripping once |
| Text.StripLowerCommute | qbit_cleanup.py:117 | `strip().lower()` equals `lower().strip()` |
| Text.Split | qbit_cleanup.py:117 | `split(",")` gives one more piece than there are commas, no piece holds a comma, and joining the pieces with commas gives the text back |
| Text.SplitJoin | qbit_cleanup.py:117 | splitting comma-free pieces joined by commas gives the pieces back |
| Text.StartsWith | qbit_cleanup.py:121 | definition of `str.startswith`: the prefix is the text's first symbols; exercised by `Sweep.AutobrrScenario` (`stalledDL` starts with `stalled`, `uploading` does not) |
| Text.Contains | qbit_cleanup.py:124 | definition of the substring test `x in s`, also used at line 92; characterised by `Text.ContainsMeansOccurs` |
| Text.Join | qbit_cleanup.py:152 | definition of `sep.join(parts)`; characterised by `Text.Split`, `Text.SplitJoin` and `Sweep.ReasonTextOfRemoved` |
| Text.ContainsMeansOccurs | qbit_cleanup.py:124 | `x in s` holds exactly when `x` occurs in `s` at some position |
| Text.BeforeFirst | qbit_cleanup.py:75 | `split(" (")[0]` is a prefix of the name, and when shorter than the name it is followed by `" ("` |
| Text.BeforeFirstIsFirst | qbit_cleanup.py:75 | no `" ("` starts inside that prefix, so it ends at the first separator |
| Text.BeforeFirstWhole | qbit_cleanup.py:75 | the prefix is the whole name exactly when the name does not contain the separator |
| Text.DecimalString | qbit_cleanup.py:148 | the rendering of an integer is a non-empty string of digits without a leading zero |
| Text.DecimalRoundTrip | qbit_cleanup.py:148 | reading the rendered digits back gives the integer |
| Torrents.ParseTags | qbit_cleanup.py:117 | an empty field gives no tags; otherwise there is one tag per comma-separated component |
| Torrents.ParseTagsComponents | qbit_cleanup.py:85 | tag `i` is component `i` of the field, trimmed and lower-cased, in order |
| Torrents.ParseTagsClean | qbit_cleanup.py:117 | every tag is trimmed, lower-case and free of commas |
| Torrents.ParseTagsIdempotent | qbit_cleanup.py:117 | joining parsed tags with commas and parsing again gives the same tags, unless the field parses to one empty tag |
| Torrents.ParseTwoTags | qbit_cleanup.py:117 | the field `a,b` gives tag `a` and tag `b`, each trimmed and lower-cased |
| Torrents.ParseCleanPair | qbit_cleanup.py:117 | two clean tags joined by a comma parse back to themselves |
| Torrents.BlankTagsField | qbit_cleanup.py:117 | a non-empty field of whitespace only gives one empty tag |
| Torrents.ParseTagsExample | qbit_cleanup.py:117 | `" Movies, TV "` and `"movies,tv"` both give `["movies", "tv"]` |
| Torrents.IsStalled | qbit_cleanup.py:121 | definition of `is_stalled`: the state starts with `stalled`, case-sensitive; characterised by `Sweep.AutobrrRule` |
| Torrents.HasCategory | qbit_cleanup.py:118-122 | definition of the category tests: the lower-cased category equals the given name, an absent category being empty; characterised by `Sweep.AutobrrRule` and, for line 73, `Dedupe.GroupMembers` |
| Torrents.HasExcludedTag | qbit_cleanup.py:123 | definition of `has_excluded_tag`: some parsed tag is one of the excluded tags; characterised by `Sweep.AgedRule` and `Sweep.ExcludedTagProtects` |
| Torrents.NameHasExclusion | qbit_cleanup.py:124 | definition of `name_has_exclusion`: some name exclusion occurs in the lower-cased name; characterised by `Sweep.AgedRule` |
| Torrents.HasCrossSeedTag | qbit_cleanup.py:88 | definition of the cross-seed test: the cross-seed tag is among the parsed tags; characterised by `Dedupe.SurvivorsMembers` through `Dedupe.Protected` |
| Torrents.IsOld | qbit_cleanup.py:126-127 | definition of `is_old`: the age `now - added_on` is at least the age threshold; characterised by `Torrents.IsOldMonotone` and `Torrents.ThresholdsInclusive` |
| Torrents.IsSmall | qbit_cleanup.py:128 | definition of `is_small`: the total size is at most the size threshold; characterised by `Torrents.ThresholdsInclusive` |
| Torrents.AgeThresholdSec | qbit_cleanup.py:39 | definition of `AGE_THRESHOLD_SEC`, days times 86400; its shipped value is stated by `Torrents.ThresholdsInclusive` |
| Torrents.SizeThresholdBytes | qbit_cleanup.py:40 | definition of `SIZE_THRESHOLD_BYTES`, gigabytes times 1024³; its shipped value is stated by `Torrents.ThresholdsInclusive` |
| Torrents.IsOldMonotone | qbit_cleanup.py:126-127 | a torrent that is old at some time is old at every later time |
| Torrents.ThresholdsInclusive | qbit_cleanup.py:37-40 | under the shipped values, old means at least 15·86400 seconds and small means at most 5·1024³ bytes, both bounds included |
| Torrents.SourceExclusions | qbit_cleanup.py:33-34 | the shipped exclusions are exactly the tags `movies` and `tv` and the name parts `nsw` and `ebook` |
| Sweep.RemoveDueToAutobrr | qbit_cleanup.py:130 | definition of `remove_due_to_autobrr`: stalled and of the `autobrr` category; characterised by `Sweep.AutobrrRule` |
| Sweep.RemoveDueToAgeSize | qbit_cleanup.py:131 | definition of `remove_due_to_age_size`: old, small, no excluded tag and no name exclusion; characterised by `Sweep.AgedRule`, `Sweep.AgedMonotone` and `Sweep.ExcludedTagProtects` |
| Sweep.AgedReason | qbit_cleanup.py:148 | definition of the aged reason, rendered from the configured day and size thresholds; characterised by `Sweep.AgedReasonShipped` |
| Sweep.ReasonText | qbit_cleanup.py:152 | definition of `reason_text`, the reasons joined by `" and "`; characterised by `Sweep.ReasonTextOfRemoved` |
| Sweep.Classify | qbit_cleanup.py:140-149 | definition of the verdict on one torrent; the verdict carries the torrent's hash, and its rule is characterised by `Sweep.ClassifyRule` and `Sweep.ModesAreExclusive` |
| Sweep.Decisions | qbit_cleanup.py:116-149 | definition of the verdicts of the loop, one per torrent; their number is the snapshot's, and `Sweep.DecisionsIndex` characterises each |
| Sweep.RemovedHashes | qbit_cleanup.py:151-158 | definition of the delete trace of a list of verdicts, never longer than the list; characterised by `Sweep.RemovedHashesExactly` and `Sweep.RemovedHashesDistinct` |
| Sweep.ToDelete | qbit_cleanup.py:151-158 | definition of what a real run of the loop deletes, never more than the snapshot; characterised by `Sweep.ToDeleteExactly`, `Sweep.ToDeleteDistinct` and `Sweep.ToDeletePair` |
| Sweep.ClassifyRule | qbit_cleanup.py:140-149 | a torrent is removed exactly when the rule of the selected mode fires, exactly when a reason is recorded, and the reason is that mode's text |
| Sweep.AutobrrRule | qbit_cleanup.py:121-130 | autobrr mode removes exactly the torrents whose state starts with `stalled` (case-sensitive) and whose lower-cased category is `autobrr` |
| Sweep.AutobrrIgnoresOthers | qbit_cleanup.py:130 | in autobrr mode, age, size, tags, name, clock and configuration make no difference to the verdict |
| Sweep.AgedRule | qbit_cleanup.py:126-131 | under the shipped values, aged mode removes exactly the torrents that are at least 15 days old, at most 5 GiB, have no `movies`/`tv` tag and have neither `nsw` nor `ebook` in the lower-cased name |
| Sweep.AgedMonotone | qbit_cleanup.py:126-131 | a torrent aged mode removes now, it removes at any later time |
| Sweep.ExcludedTagProtects | qbit_cleanup.py:123 | a torrent with an excluded tag is never removed in aged mode |
| Sweep.ModesAreExclusive | qbit_cleanup.py:143-149 | the aged/autobrr loop never removes in dedupe mode, and each mode only ever gives its own reason |
| Sweep.ReasonTextOfRemoved | qbit_cleanup.py:152 | the reasons joined by `" and "` are the single reason of the mode |
| Sweep.AgedReasonShipped | qbit_cleanup.py:148 | the shipped aged reason reads `> 15 days old & <= 5GB (no excluded tags)` |
| Sweep.DecisionsIndex | qbit_cleanup.py:116 | verdict `i` of the loop is the verdict on torrent `i` alone |
| Sweep.RemovedHashesExactly | qbit_cleanup.py:151-158 | a hash is in the trace exactly when some verdict that removes carries it |
| Sweep.RemovedHashesDistinct | qbit_cleanup.py:157 | verdicts with distinct hashes put no hash into the trace twice |
| Sweep.ToDeleteExactly | qbit_cleanup.py:151-158 | the real run deletes a hash exactly when some torrent with that hash is removed by the rule of the mode |
| Sweep.ToDeleteDistinct | qbit_cleanup.py:157 | with unique hashes no torrent is deleted twice |
| Sweep.ToDeletePair | qbit_cleanup.py:116-158 | a two-torrent snapshot deletes each torrent in order if its own verdict removes it |
| Sweep.AutobrrScenario | qbit_cleanup.py:143-145 | of a `stalledDL` and an `uploading` torrent, both in the autobrr category, only the stalled one is deleted |
| Sweep.Judge | qbit_cleanup.py:117-149 | the flags and the reasons appended for one torrent give exactly its verdict |
| Sweep.Visit | qbit_cleanup.py:116-160 | one iteration extends the verdicts by the next torrent's; the trace is empty in a dry run and otherwise lists the removed hashes; the counter equals the trace length |
| Sweep.SweepSnapshot | qbit_cleanup.py:114-163 | the loop yields every verdict; deletes `ToDelete` in a real run and nothing in a dry run; `total_deleted` counts the real deletes; the notice appears exactly when nothing was deleted in a real run |
| Dedupe.IsMovie | qbit_cleanup.py:73 | definition of the movie test: the lower-cased category is `movies`; characterised by `Dedupe.GroupMembers` and `Dedupe.DedupeKeeps` |
| Dedupe.BaseName | qbit_cleanup.py:75 | definition of `name.split(" (")[0].strip().lower()`; characterised by `Dedupe.BaseNameClean`, `Dedupe.BaseNameWithoutSeparator` and `Dedupe.BaseNameOfTitle` |
| Dedupe.MovieKey | qbit_cleanup.py:75 | definition of a torrent's group key, the base name of its name; characterised by `Dedupe.SameTitleSameKey` |
| Dedupe.Keys | qbit_cleanup.py:69-76 | definition of the dict's key order, the movie keys in first-seen order, never more than the torrents; characterised by `Dedupe.KeysSpec` (which keys) and `Dedupe.KeysFirstSeen` (their order) |
| Dedupe.Group | qbit_cleanup.py:72-76 | definition of one key's list, the movies with that key in order, never more than the torrents; characterised by `Dedupe.GroupMembers`, `Dedupe.MovieInItsGroup` and `Dedupe.OneGroup` |
| Dedupe.Protected | qbit_cleanup.py:88-93 | definition of the filter's three skips: cross-seed tag, excluded tag, name exclusion; characterised by `Dedupe.SurvivorsMembers` and `Dedupe.DedupeKeeps` |
| Dedupe.ProtectedUnder | qbit_cleanup.py:88-93 | `Dedupe.Protected` under a fixed configuration, as a test on torrents |
| Dedupe.Survivors | qbit_cleanup.py:83-94 | definition of `group_filtered`, never longer than the group; characterised by `Dedupe.SurvivorsMembers`, `Dedupe.SurvivorsUnique` and `Dedupe.AllSurvive` |
| Dedupe.DuplicateReason | qbit_cleanup.py:104 | definition of the reason `duplicate of <keeper name>`; its use is stated by `Dedupe.DuplicatesMembers` |
| Dedupe.Duplicates | qbit_cleanup.py:100-104 | definition of the members marked against a keeper, never more than the members; characterised by `Dedupe.DuplicatesMembers` and `Dedupe.DuplicatesAllButKeeper` |
| Dedupe.CandidatesOf | qbit_cleanup.py:78-110 | definition of the candidates of every group in key order; characterised by `Dedupe.CandidatesOfUnprotected` |
| Dedupe.DedupeCandidates | qbit_cleanup.py:65-110 | definition of the candidates of dedupe mode under the key of line 75; characterised by `Dedupe.DedupeSpares` and `Dedupe.DedupeTieBreak` |
| Dedupe.HashesOf | qbit_cleanup.py:109 | definition of the delete trace of a list of candidates; characterised by `Dedupe.HashesOfMember` |
| Dedupe.BaseNameClean | qbit_cleanup.py:75 | a group key is trimmed and lower-case |
| Dedupe.BaseNameWithoutSeparator | qbit_cleanup.py:75 | a name without `" ("` keys as the whole name, trimmed and lower-cased |
| Dedupe.BaseNameOfTitle | qbit_cleanup.py:75 | a title followed by `" ("` and anything keys as the title, trimmed and lower-cased |
| Dedupe.SameTitleSameKey | qbit_cleanup.py:75 | releases of one title share a key whatever follows the `" ("` |
| Dedupe.BaseNameExample | qbit_cleanup.py:75 | `"Some.Movie (...)"` keys as `"some.movie"` |
| Dedupe.KeysSpec | qbit_cleanup.py:69-76 | the group keys are distinct and are exactly the keys of the movies |
| Dedupe.FirstIndexOf | qbit_cleanup.py:72-76 | every key some movie carries has a first movie carrying it |
| Dedupe.KeysFirstSeen | qbit_cleanup.py:69-78 | of two group keys, the earlier one's first movie comes before the later one's, so the groups are visited at line 78 in the order their keys are first seen |
| Dedupe.GroupMembers | qbit_cleanup.py:72-76 | a group holds exactly the movies of the snapshot with its key, so no non-movie is in any group |
| Dedupe.MovieInItsGroup | qbit_cleanup.py:73-76 | every movie lies in the group of its own key, and that key is listed |
| Dedupe.GroupUnique | qbit_cleanup.py:76 | grouping keeps hashes unique |
| Dedupe.SurvivorsMembers | qbit_cleanup.py:83-94 | the filtered group holds exactly the unprotected members |
| Dedupe.SurvivorsUnique | qbit_cleanup.py:83-94 | filtering keeps hashes unique |
| Dedupe.AllSurvive | qbit_cleanup.py:83-94 | when no member is protected the filter keeps the whole group |
| Dedupe.KeeperIndex | qbit_cleanup.py:99 | the keeper is a largest member, and every earlier member is strictly smaller, so it is the first maximum |
| Dedupe.KeeperIndexUnique | qbit_cleanup.py:99 | the first largest member is the only index satisfying that |
| Dedupe.DuplicatesMembers | qbit_cleanup.py:100-104 | exactly the members whose hash differs from the keeper's are marked, each with the reason `duplicate of <keeper name>` |
| Dedupe.DuplicatesNoMatch | qbit_cleanup.py:100-104 | against a keeper whose hash no member shares, every member is marked in order |
| Dedupe.DuplicatesAllButKeeper | qbit_cleanup.py:99-110 | with unique hashes, the marked members are the others of the group, in order, each a duplicate of the keeper |
| Dedupe.GroupCandidates | qbit_cleanup.py:79-97 | a group of at most one member, or with at most one survivor, marks nothing |
| Dedupe.GroupCandidatesUnprotected | qbit_cleanup.py:83-110 | a group marks only unprotected members of its own |
| Dedupe.GroupCandidatesEligible | qbit_cleanup.py:96-110 | in an eligible group of k survivors, the first largest survivor is kept and exactly the other k-1 are marked, in order, as its duplicates |
| Dedupe.TieBreak | qbit_cleanup.py:99 | of sizes small, large, large, the middle member is kept and the other two are marked |
| Dedupe.TieBreakScenario | qbit_cleanup.py:72-110 | three unprotected movies with one key and those sizes: the first and third are the only candidates |
| Dedupe.DedupeTieBreak | qbit_cleanup.py:65-110 | the same, for the key of line 75 and the shipped protection test |
| Dedupe.OneGroup | qbit_cleanup.py:72-76 | movies that all share one key form one group holding all of them in order |
| Dedupe.CandidatesOfUnprotected | qbit_cleanup.py:78-110 | whatever the keys, only unprotected movies of the snapshot are marked |
| Dedupe.DedupeSpares | qbit_cleanup.py:72-110 | dedupe marks only unprotected movies of the snapshot |
| Dedupe.HashesOfMember | qbit_cleanup.py:109 | a hash is in the trace exactly when some candidate carries it |
| Dedupe.DedupeDeletesOnly | qbit_cleanup.py:109 | every hash a real dedupe run deletes is that of an unprotected movie of the snapshot |
| Dedupe.DedupeKeeps | qbit_cleanup.py:73-109 | with unique hashes, a torrent outside the movies category or protected by its tags or name is never deleted by dedupe |
| Dedupe.FileTorrent | qbit_cleanup.py:72-76 | one round of the grouping loop appends a movie to its key's list and adds a new key at the end of the order, keeping the dict equal to the groups so far |
| Dedupe.GroupMovies | qbit_cleanup.py:69-76 | the dict's key order is `Keys`, the first-seen order of the movie keys by `Dedupe.KeysFirstSeen`; every key maps to its group, and no other key is present |
| Dedupe.FilterGroup | qbit_cleanup.py:83-94 | the filtered list is the group without its protected members, in order |
| Dedupe.MarkDuplicates | qbit_cleanup.py:100-110 | the marked list is the duplicates of the keeper; their hashes are deleted in a real run and nothing in a dry run |
| Dedupe.ProcessGroup | qbit_cleanup.py:78-110 | one group marks exactly its candidates; their hashes are deleted in a real run and nothing in a dry run |
| Dedupe.AddGroup | qbit_cleanup.py:78-110 | one round of the group loop adds that group's candidates, deletes and count to the totals so far |
| Dedupe.DedupeBy | qbit_cleanup.py:69-110 | the run marks the candidates of every group in key order; it deletes their hashes in a real run and nothing in a dry run; `total_removed` counts the candidates, dry run or not |
| Dedupe.DedupeSnapshot | qbit_cleanup.py:65-112 | the same for the key of line 75 |
| Cleanup.Run | qbit_cleanup.py:65-163 | a dry run deletes nothing. Dedupe mode deletes the hashes of its candidates, all unprotected movies of the snapshot, and reports their count. The other modes delete a hash exactly when the rule of the mode removes a torrent carrying it, and report the count of real deletes |

## Left out

- Argument parsing and `.env` loading (lines 21-31): the mode, the dry-run flag and the configuration are parameters.
- Logging setup, every message and its formatting, and printing (lines 42-47, 60-62, 66-67, 105-108, 112, 133-138, 154-156, 160-163). Only the decisions behind them are modelled: the reason lists, the counters and whether the "no matching torrents" notice is given. Line 137 also divides in floating point.
- The client: login, `exit(1)` on `LoginFailed`, `torrents_info` and `torrents_delete` (lines 50-57, 109, 157). The snapshot is an input; a delete is an entry appended to the `deleted` trace and always succeeds.
- `time.time()` (line 58): `now` is an integer parameter.
- Full Unicode `str.lower`, `str.strip` and `str.isspace`. Lower-casing covers ASCII letters only. Whitespace is ASCII whitespace plus the separators `\x1c`-`\x1f`.
- `None` in a torrent's category or tags. An absent value is modelled as the empty string. For tags and for line 118 this gives the script's own result. Line 73 would raise on `None`, and that failure is not modelled.
- The order of deletes across modes. A run executes exactly one mode, because the `if` blocks at lines 65 and 114 test disjoint mode values.
