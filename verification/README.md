# Verified model of the benchmark, release and launcher logic of Optimus Agent

This Dafny project models the self-contained logic around the Optimus Agent: the question ledger and its ingest cache,
build provenance and release installation, score documents and their validation, the deterministic metrics, dev-set
selection, the shard launcher and its shutdown, resumable runs, and the two compaction simulators. `dafny verify
dfyconfig.toml` checks all of it.

One module follows one component; `Words` and `Suffixes` give the phrase metrics and the stemmer an independent meaning. Code that works step by step is a method with loop invariants or a class; threads,
crashes and failing processes are state machines whose theorems quantify over every sequence of events; the rest is
functions and lemmas. `Sequences` holds the shared facts about ordering, sorting, counting and text search, and
`LockedFile` the locking discipline, independent of what the file contains.

What the source takes from outside is a parameter: hash functions, the file system's listing order and faults, the
clock, children's exit codes, worker completion order, the driver, the judges, character classes, the token estimate and
random shuffles. No hash is assumed injective. Where a result needs it, it asks only that the values named in its
`requires` do not collide.

## Where the code does less than it promises

Each of these is a theorem that gives the exact condition under which the promise is kept.

- Rust and Python manifests (`Provenance.ManifestsAgree`): the build script rewrites backslashes in paths and the
  installer, on POSIX, does not. The lists agree exactly when no listed path contains one.
- Score documents (`Scores.AcceptedIff`): the validator refuses the evaluator's own document when a scored question has
  no evaluation type (written as the empty text, read back as null), when a judge's score leaves [0, 1], or when the
  first selected record names another benchmark; in no other case.
- Ordered phrase matching (`Phrases.GreedyExactIff`, `Phrases.MetricExactIff`, `Phrases.PunctuationClash`): the boundary
  test on a slice loses a placement. For every setting of the options and every answer the metric is exact on all
  predictions exactly when no phrase that ends in a word character is followed by one that does not start with one.
  Default normalisation excludes this; with punctuation kept, "a,+b" is not found in "a+b".
- Ingest cache (`IngestCache.ReuseEqualsFreshIff`, `IngestCache.StuckIff`): the capture protocol is not part of the key.
  A partial directory is to be moved aside for the next ingest; one with a line in `env.jsonl` that does not parse is
  not, and exactly then no later attempt on it is ever served.
- Runtime sources (`Provenance.RuntimeAgreesIff`): a file named `.py` has no extension for the build script and matches
  the installer's pattern.
- Installation (`Install.Disk.InstallWithOneFault`, `Install.FailureIsTracelessIff`, `Install.FailureDanglesIff`): a
  comment says a failed candidate is never selected. It is, dangling, exactly when the only fault comes after the pointer
  swap or an interrupt hits the swap. Nothing at all changes exactly when the fault comes no later than the swap and is
  no interrupt between an effect and its record. An interrupt between staging and selecting leaves the staged release.
- Resumed runs (`Resume.CompletionIsExact`, `Resume.TornLineLosesCell`): a run that resumes on a torn last line loses
  the first cell it writes.
- Launcher, time limit (`Shutdown.FinishedIsReportedIff`, `Shutdown.ChildOutlivesSweepIff`): a shard that finished with
  code zero before the limit keeps its verdict for certain exactly when its worker had already returned; a child can
  outlive the sweep exactly when its worker has passed the flag and not yet launched, or has a live child not yet
  marked running. `Launcher.FinishedShardReportedKilled` and `Launcher.ChildOutlivesSweep` are such runs.
- Launcher, monitor (`Shutdown.LaunchAfterMonitorIff`, `Shutdown.RetryEscapesMonitor`): a shard between its failure and
  its retry, or one whose manifest was unreadable, is neither queued nor running, so the monitor can end and the launch
  to come has no time limit.
- Compaction comparison (`CompactionQuality.V2ScaledDominatesIff`): with the scaled budget the v2 prompt is guaranteed to
  keep no smaller share only while the critical facts fit that budget; of 51 anchors it can lose one that the legacy
  prompt keeps (`CompactionQuality.V2ScaledLosesAnchors`).
- LoCoMo dev set (`DevSelection.ConversationCoveredIff`, `DevSelection.LoneConversationIff`): the docstring of
  `dev_selection` promises that every conversation is covered. A conversation is covered exactly when, in some
  category, its share of the category's places is at least one, or fewer conversations come before it than places are
  left over. One question beside 600 of another conversation is not.
- `next_entry` (`Ledger.UnattemptedFirstIff`, `Ledger.EarliestFailingIff`, `Ledger.LimitHoldsIff`): the docstring promises
  unattempted entries first, and the earliest failing one where all are attempted. The first holds for every ledger
  exactly when attempted entries are not asked for; the second exactly when retries are asked for and attempted entries
  in general are not. A limit of zero still yields an entry, if one is eligible.

## Model

| member | source | states |
|---|---|---|
| `LockedFile.RunKeepsInv` | scripts/memory_question_loop.py:249-291 | every step of every interleaving of lock, re-read, edit, temporary write, rename, release, time-out, write error and crash keeps the protocol invariant |
| `LockedFile.Serializable` | scripts/memory_question_loop.py:202-211 | after every interleaving the file holds what the committed calls write one after the other, and every bystander read is one committed generation as a whole |
| `LockedFile.CommittedOnce` | scripts/memory_question_loop.py:352-376 | a call that returned committed exactly once, one that raised never, a crashed one at most once |
| `LockedFile.MutualExclusion` | scripts/memory_question_loop.py:257-291 | two calls are never inside the locked section together |
| `LockedFile.NeverLockedOut` | scripts/memory_question_loop.py:249-291 | from every state of every run, a call that waits for the lock can still come to its end with nothing going wrong; it then returns and has committed exactly when its edit of the file it finds goes through, and otherwise raises and changes nothing |
| `Ledger.TallyCounts` | scripts/memory_question_loop.py:371-374 | the outcome tally counts, for each outcome, exactly the attempts that have it |
| `Ledger.TallyOutcomes` | scripts/memory_question_loop.py:371-374 | the counting loop computes that tally |
| `Ledger.ExtendedIsConsistent` | scripts/memory_question_loop.py:366-374 | appending to an entry makes count, latest outcome, score and time, and tally agree with the attempts list and leaves its other fields alone |
| `Ledger.Document.FindEntry` | scripts/memory_question_loop.py:307-311 | the loop finds the first entry with the question id |
| `Ledger.Document.Append` | scripts/memory_question_loop.py:352-376 | the in-place edit produces exactly the appended ledger, or fails and changes nothing |
| `Ledger.AppendedMeaning` | scripts/memory_question_loop.py:352-376 | one append adds one attempt to the first matching entry and leaves every other entry and all original fields unchanged |
| `Ledger.AppendedIff` | scripts/memory_question_loop.py:352-376 | an append goes through exactly when some entry has the question id and the first one that has does not hold null for its attempts |
| `Ledger.SortedEntriesIsOrdered` | scripts/memory_question_loop.py:314-323 | the canonical order is sorted, is a permutation of the entries, and keeps entries that tie in ledger order |
| `Ledger.CanonicalOrder` | scripts/memory_question_loop.py:314-323 | of two entries the earlier has no later status in the list of four, then no larger benchmark, then no later queue in the list of four, then no larger question id; unlisted names come last |
| `Ledger.OrderDependsOnOriginals` | scripts/memory_question_loop.py:314-323 | ledgers that agree on the original fields list their entries in the same order |
| `Ledger.NextEntry` | scripts/memory_question_loop.py:326-349 | the selection loop yields the first eligible entries in canonical order, up to the limit |
| `Ledger.PickedMeaning` | scripts/memory_question_loop.py:326-349 | with no limit in the way, an entry is picked as often as it stands in the ledger if it meets the filters given and has no attempts, or attempted ones are asked for, or failed ones are and its last did not pass; otherwise never |
| `Ledger.PickedInOrder` | scripts/memory_question_loop.py:346-348 | entries are picked in canonical order, and a limit only cuts the list off |
| `Ledger.UnattemptedFirstIff` | scripts/memory_question_loop.py:326-349 | unattempted entries are picked before attempted ones, for every ledger and limit, exactly when attempted entries are not asked for |
| `Ledger.EarliestFailingIff` | scripts/memory_question_loop.py:326-349 | where every entry has attempts, the earliest failing one is picked, for every ledger, exactly when retries are asked for and attempted entries in general are not |
| `Ledger.LimitHoldsIff` | scripts/memory_question_loop.py:346-348 | no more entries than the limit exactly when the limit is at least one or nothing is eligible |
| `Ledger.LedgerIsExact` | scripts/memory_question_loop.py:249-376 | for every interleaving with crashes, each entry's attempts are its first ones followed by the committed ones in commit order, the derived fields agree with them, nothing else changes, and neither does the canonical order |
| `Ledger.AppendGetsThroughIff` | scripts/memory_question_loop.py:352-376 | from every state of every run, a waiting call can end with nothing going wrong, and has then committed its attempt exactly when, in the ledger as it was at first, the first entry with its id did not hold null |
| `Ledger.AttemptedIsNotReselected` | scripts/memory_question_loop.py:326-376 | once a call on an entry has returned, plain selection never offers that entry again, in any state of the run |
| `IngestCache.CacheState` | scripts/memory_question_loop.py:549-564 | the scan fails where a line does not parse, and otherwise decides warmth: a successful row for the environment and a store document |
| `IngestCache.Controller.RunTypeB` | scripts/memory_question_loop.py:861-890 | one attempt reuses a warm directory unchanged, fails on one whose records do not parse and leaves it, or sets a cold one aside and leaves what its ingest left, and answers from the store so obtained |
| `IngestCache.DirNameIs` | scripts/memory_question_loop.py:861-866 | a cache directory is named after the environment and the first sixteen digits of the key |
| `IngestCache.SameDirIff` | scripts/memory_question_loop.py:532-546 | two attempts share a cache directory exactly when environment, specification, ingest settings and model agree, on the sixteen digits used |
| `IngestCache.SettingDecides` | scripts/memory_question_loop.py:160-168 | changing one setting changes the directory exactly when it is one of the eleven that affect the ingest and gets another value |
| `IngestCache.ReuseIsSound` | scripts/memory_question_loop.py:861-890 | after every history of attempts and driver failures, a reused store was filled by an attempt with the same specification, ingest settings and model, and is what a fresh ingest under that attempt's capture protocol gives |
| `IngestCache.ServedIsSound` | scripts/memory_question_loop.py:861-890 | whatever an attempt is served, cached or ingested, is what a fresh ingest gives under the capture protocol of an attempt with the same key, an earlier one or itself |
| `IngestCache.PartialIsNeverReused` | scripts/memory_question_loop.py:567-574 | only a directory that some attempt left warm is ever reused |
| `IngestCache.StuckIff` | scripts/memory_question_loop.py:549-574 | after every history, no later attempt on a directory is ever served, whatever happens in between, exactly when its records do not parse |
| `IngestCache.ReuseEqualsFreshIff` | scripts/memory_question_loop.py:532-546 | answering from the cache equals ingesting afresh, for every driver, exactly when the cache was filled under the same capture protocol |
| `IngestCache.ReadTimeSettingsShareCache` | scripts/memory_question_loop.py:532-546 | overrides of read-time settings never change the cache directory |
| `IngestCache.TypeAKeepsWriteSettings` | scripts/memory_question_loop.py:612-641 | a type-A attempt runs with the baseline's write-time settings, whatever was overridden or requested |
| `IngestCache.ModeIs` | scripts/memory_question_loop.py:893-908 | when an attempt is refused, and when it answers from the baseline store |
| `IngestCache.EffectiveIs` | scripts/memory_question_loop.py:612-632 | setting by setting: overrides over the baseline over the defaults; refused exactly for an unknown override |
| `Utf8.OctetsSplit` | crates/pi-coding-agent/build_provenance.rs:36-41 | no code point's UTF-8 bytes begin another's, and the smaller code point has the smaller first different byte |
| `Utf8.OctetsAre` | crates/pi-coding-agent/build_provenance.rs:62-72 | the bytes of a code point are those of section 3 of RFC 3629, and the code point is read back from their bits |
| `Utf8.OrderAgrees` | crates/pi-coding-agent/build_provenance.rs:36-60 | comparing UTF-8 bytes is comparing code points |
| `Utf8.EncodeInjective` | crates/pi-coding-agent/build_provenance.rs:62-72 | different strings have different UTF-8 bytes |
| `Provenance.RustWalk` | crates/pi-coding-agent/build_provenance.rs:15-34 | the recursive walk appends exactly the rewritten paths of the regular files below a directory, or fails on a symlink |
| `Provenance.PythonTree` | scripts/rust_release.py:33-50 | the installer's walk returns exactly those paths, or fails in the same cases |
| `Provenance.SamePaths` | scripts/rust_release.py:37-50 | the listing order decides neither whether a walk succeeds nor what it finds |
| `Provenance.PathsAre` | scripts/rust_release.py:37-50 | a walk finds exactly the regular files to which a chain of entries leads that are not left out, and fails exactly when the root is no directory or such a chain leads to a symlink |
| `Provenance.SameCollected` | scripts/rust_release.py:53-69 | nor does it for the whole source list with its crates |
| `Provenance.CollectedIs` | scripts/rust_release.py:58-69 | exactly what is listed, in terms of such chains: the fixed names, everything below the two payload directories, and of every crate its manifest, build scripts and everything below src; and exactly when the programs fail |
| `Provenance.RustFilesAre` | crates/pi-coding-agent/build_provenance.rs:43-60 | the sorted and deduplicated list is strictly ordered and holds exactly the rewritten paths |
| `Provenance.PythonFilesAre` | scripts/rust_release.py:58-69 | the sorted set is strictly ordered and holds exactly the paths |
| `Provenance.ListsEqualIff` | crates/pi-coding-agent/build_provenance.rs:43-60 | from the same paths both programs make the same list exactly when no path contains a backslash |
| `Provenance.ManifestsAgree` | scripts/rust_release.py:53-69 | on the same tree, each with its own listing order, the programs fail together and otherwise agree exactly when no listed path contains a backslash |
| `Provenance.PathsDistinct` | scripts/rust_release.py:37-50 | no path is found twice |
| `Provenance.PayloadsAgree` | scripts/rust_release.py:53-55 | the payload lists, sorted but not deduplicated, agree exactly when no path contains a backslash |
| `Provenance.PayloadIs` | scripts/rust_release.py:53-55 | exactly what the payload lists, and when it fails |
| `Provenance.RuntimeAgreesIff` | crates/pi-coding-agent/build_provenance.rs:74-91 | the programs list the same runtime sources exactly when no file is named .py or the build script fails on the directory, and then both fail |
| `Provenance.RuntimeIs` | crates/pi-coding-agent/build_provenance.rs:74-91 | the build script lists, in order, exactly the names of a non-empty stem and .py; it fails exactly when one is no regular file or a required one is missing |
| `Provenance.FeedManifest` | crates/pi-coding-agent/build_provenance.rs:62-72 | the hashing loop feeds name, NUL and file digest for each name in order, and fails exactly when one is not a regular file |
| `Provenance.StreamInjective` | scripts/rust_release.py:72-80 | equal streams come from equal names with equal digests in the same order |
| `Provenance.AggregateIdentifies` | scripts/rust_release.py:72-80 | equal aggregate digests mean the same names and, file by file, the same bytes |
| `Provenance.FieldsInjective` | crates/pi-coding-agent/build_provenance.rs:93-99 | fingerprint fields without NUL are told apart by the bytes hashed |
| `Provenance.NulBlursFields` | scripts/rust_release.py:94-101 | with a NUL inside a field they are not |
| `Install.UndoneRestores` | scripts/rust_release.py:284-290 | undoing the recorded replacements in reverse gives back the original launchers, and leaves alone one that was replaced but not recorded |
| `Install.Disk.Restore` | scripts/rust_release.py:284-290 | the rollback loop computes that, unless it fails itself |
| `Install.Disk.PrepareCandidates` | scripts/rust_release.py:262-277 | candidates are written and exactly the launchers that exist are backed up, in that many operations, or it stops at the first that goes wrong; nothing installed changes |
| `Install.Disk.ReplaceAll` | scripts/rust_release.py:272-290 | launchers and pointer are all replaced, or it stops at the first operation that goes wrong, whose position and fault determine what remains |
| `Install.Disk.SelectRelease` | scripts/rust_release.py:249-293 | pointer written aside, candidates, replacements, swap and cleaning, one operation after the other, with the same account of the first that goes wrong |
| `Install.Disk.StageRelease` | scripts/rust_release.py:188-218 | staging copies the bundle part by part and verifies it, refuses an existing one, or stops at the first operation that goes wrong and leaves no bundle unless interrupted right after creating it; existing releases are kept under any faults |
| `Install.Disk.InstallRelease` | scripts/rust_release.py:240-297 | it succeeds exactly when no operation goes wrong and no interrupt falls between its halves, and then gives the installed state; otherwise, when the recovery itself goes through, the position and fault of the first operation that goes wrong determine the state; earlier releases are kept under any faults |
| `Install.Disk.InstallWithOneFault` | scripts/rust_release.py:240-297 | for every position n and every fault: a run in which exactly the n-th operation goes wrong fails, changes nothing exactly under the traceless condition on n, and leaves the selected release usable exactly unless it dangles |
| `Install.InstalledIs` | scripts/rust_release.py:240-297 | success selects the complete staged release, installs every launcher, and touches nothing else |
| `Install.FailureIsTracelessIff` | scripts/rust_release.py:247-297 | a fault at position n leaves launchers, pointer and releases as they were exactly when n is no later than the swap and no interrupt falls on the creation, the swap, or a replacement that changes a launcher |
| `Install.FailureDanglesIff` | scripts/rust_release.py:283-296 | a fault at position n leaves the pointer on a missing release exactly when n is after the swap, or is the swap and an interrupt |
| `Evidence.SelectRunRecords` | bench/evidence.py:111-137 | the loop computes the selection, or fails on a badly typed row, a repeated question under the error policy, or mixed variants |
| `Evidence.SelectionMeans` | bench/evidence.py:111-137 | the selection has one entry for each question met, holding its first, last or only row as the policy says |
| `Evidence.SelectionFailsIff` | bench/evidence.py:111-137 | the selection fails exactly when a row that passes the filter is badly typed, when two are about one question under the error policy, or when there are two variants and none was asked for |
| `Evidence.SelectedFor` | bench/evidence.py:111-137 | a question has a record exactly when some row is about it and has the variant asked for, if any |
| `Evidence.DuplicatesCounted` | bench/evidence.py:128-137 | every row that passes gives a key or counts as a duplicate |
| `Evidence.OrderIsFirstAppearance` | bench/evidence.py:128-134 | its keys stand in the order of first appearance, also where a later row replaces a value |
| `Scores.RestoreOrder` | bench/eval/evaluate.py:251-258 | whatever order the workers finish in, the rows come out in the questions' order |
| `Scores.ProducedIff` | bench/eval/evaluate.py:221-245 | a document is written exactly when all questions follow the protocols, the run parses, the selection goes through, the budget is positive, and every record selected for a scored question was made for it |
| `Scores.RowsAreScored` | bench/eval/evaluate.py:98-197 | row i is about question i and carries its data and hashes; its score and flag are what the selected record and the judge make them: the judge's own score, or zero with the reason |
| `Scores.DocumentIs` | bench/eval/evaluate.py:272-315 | the rest of the document: run hash, identity from the record of the question met first, selection as requested, questions in order, and the variant and hash of each selected record |
| `Scores.EffectiveVariantIs` | bench/evidence.py:54-62 | the selected records always agree on a variant: the one asked for, or else that of every row |
| `Scores.WorkRowOk` | bench/eval/evaluate.py:98-197 | a row as the evaluator writes it passes every check of its content exactly when its question declares a type |
| `Scores.AcceptedIff` | bench/evidence.py:166-266 | the evaluator's own document is strictly accepted exactly when every scored question declares a type, every judge's score that counts is in [0, 1] and the first selected record names no other benchmark |
| `Scores.DocumentBindsInputs` | bench/evidence.py:152-266 | one document is accepted for at most one run file, variant, policy, family, list of question files and set of questions |
| `Scores.RowsAreBound` | bench/evidence.py:242-265 | in an accepted document every row carries the hashes of its own question and selected record, that question's environment, category, type and protocol, the flag the record demands, zero where flagged, and the record's failure diagnostics |
| `Scores.RecordsAreMadeForQuestions` | bench/evidence.py:65-87 | in an accepted document the question follows the protocols, and its record, if any, has its id, text, environment, benchmark, protocols and hash, declared by the caller, in a named run and variant |
| `Scores.AcceptedDocuments` | bench/evidence.py:166-266 | a document is accepted for given inputs exactly when it is the evaluator's own for the questions it lists, up to the order of rows and the scores and judge failures that the records leave open |
| `Wilson.IntervalInvertsScoreTest` | bench/eval/evaluate.py:62-70 | the unclamped interval is exactly the set of proportions that the score test accepts |
| `Wilson.IntervalIsSound` | bench/eval/evaluate.py:62-70 | the interval contains k/n and lies in [0, 1], so the clamps never act |
| `Wilson.IntervalMirrors` | bench/eval/evaluate.py:62-70 | the interval for n - k is the mirror image of the one for k |
| `Wilson.IntervalMonotone` | bench/eval/evaluate.py:62-70 | more successes lower neither end |
| `Phrases.Search` | bench/eval/deterministic.py:101-104 | the search loop finds the leftmost match between word boundaries |
| `Phrases.OrderedLoop` | bench/eval/deterministic.py:100-107 | the loop over slices decides the greedy match of all phrases |
| `Phrases.NormPhraseSetMatchOrdered` | bench/eval/deterministic.py:88-107 | the metric is the greedy match of the normalised phrases, false for empty sides when these are required |
| `Phrases.NormPhraseSetMatch` | bench/eval/deterministic.py:69-85 | the loop over the set of phrases decides whether each stands somewhere, in whatever order the set lists them |
| `Phrases.GreedyPlaces` | bench/eval/deterministic.py:100-107 | what the greedy matcher accepts is placed in order, without overlap and on boundaries of the whole text |
| `Phrases.PlacementFound` | bench/eval/deterministic.py:100-107 | without a clash, the greedy matcher finds every text that has a placement |
| `Phrases.GreedyIsExact` | bench/eval/deterministic.py:100-107 | without a clash, greedy search succeeds exactly when some placement exists |
| `Phrases.GreedyExactIff` | bench/eval/deterministic.py:100-107 | for every list of phrases, greedy search is exact on all texts exactly when no phrase that ends in a word character is followed by one that starts with none |
| `Phrases.NormalizeIsIdempotent` | bench/eval/deterministic.py:27-47 | for all options, normalising twice is normalising once |
| `Phrases.MetricExactIff` | bench/eval/deterministic.py:88-107 | for all options and answers, the ordered metric is exact on all predictions exactly when the answer's phrases have no clash |
| `Phrases.PunctuationClash` | bench/eval/deterministic.py:88-107 | with punctuation kept, the metric is wrong on the prediction a+b for the answer a,+b |
| `Phrases.OrderedImpliesUnordered` | bench/eval/deterministic.py:69-107 | for all options an ordered match is an unordered match |
| `Phrases.DefaultOrderedIsExact` | bench/eval/deterministic.py:27-107 | with default normalisation the ordered metric holds exactly when the phrases have an in-order, non-overlapping, word-bounded placement |
| `Words.NormalizeIs` | bench/eval/deterministic.py:27-46 | for all options, the normalised text is exactly the words of the text, in order, joined by one blank; words are cut at white space, commas, semicolons and, if asked, hyphens and underscores, and lose their punctuation if asked |
| `Words.SplitMeans` | bench/eval/deterministic.py:49-66 | for any separators, no separator begins inside a part, and what is taken out after it is, of those that begin there, the first in the list |
| `Words.SplitIsPieces` | bench/eval/deterministic.py:49-66 | with the default separators the parts are the pieces between commas and semicolons |
| `Words.MatchIsStanding` | bench/eval/deterministic.py:101-104 | a phrase of words stands in a text of words, between word boundaries, exactly where its words stand among the words of the text |
| `Words.OrderedInWords` | bench/eval/deterministic.py:88-107 | with the default options the ordered metric holds exactly when the words of the phrases stand among the words of the prediction, phrase after phrase, without overlap |
| `Words.UnorderedInWords` | bench/eval/deterministic.py:69-85 | and the unordered one exactly when the words of every phrase stand somewhere among them |
| `Boxed.TrimMeaning` | bench/eval/deterministic.py:223-251 | stripping removes white space only, at the ends only, and all of it there |
| `Boxed.ExtractBoxedAnswer` | bench/eval/deterministic.py:223-251 | the parser returns the stripped text from the last marker to its closing brace, or the whole stripped text |
| `Boxed.CollectBody` | bench/eval/deterministic.py:234-249 | the loop collects the text up to where the depth returns to zero |
| `Boxed.CloseMeaning` | bench/eval/deterministic.py:234-249 | it stops at the brace that closes the marker's, or at the end when none does |
| `Boxed.BoxedRoundTrip` | bench/eval/deterministic.py:223-251 | printing a balanced body as a boxed answer inside any text is undone up to outer white space, for any nesting depth; a blank body falls back to the whole text |
| `Porter.IsConsonant` | bench/eval/porter.py:54-63 | the backward scan decides the consonant definition at every index |
| `Porter.ConsonantFlags` | bench/eval/porter.py:65-74 | the forward pass gives the same value at every index |
| `Porter.CountMeasure` | bench/eval/porter.py:76-78 | the measure counts the vowel-consonant changes |
| `Porter.MeasureOfPrefix` | bench/eval/porter.py:76-81 | the measure of a prefix never exceeds that of the word |
| `Porter.StemTrims` | bench/eval/porter.py:112-330 | stemming is total, never lengthens a word, never empties one, and for a regular word changes only the last two letters of what it keeps |
| `Porter.FirstRuleDecides` | bench/eval/porter.py:112-125 | of a list of rules the first that fits is applied if its condition holds, and no other |
| `Porter.PluralUndoneIff` | bench/eval/porter.py:127-139 | the first step takes the s of a plural off and does nothing else exactly when the singular does not end in s or sse, nor in ie unless it has three letters |
| `Suffixes.Step2Is` | bench/eval/porter.py:208-250 | for every word, of the suffixes in the table of step 2 the longest decides, as published, although the list is searched from the front |
| `Suffixes.Step3Is` | bench/eval/porter.py:252-264 | the same for step 3 |
| `Suffixes.Step4Is` | bench/eval/porter.py:266-296 | the same for step 4 |
| `Apportionment.LargestRemainder` | bench/converters/common.py:122-137 | the loops compute the allocation for every key, all zeros for a total or weight sum that is not positive |
| `Apportionment.AllocationSumsToTotal` | bench/converters/common.py:122-137 | the seats add up to the total |
| `Apportionment.AllocationIsQuota` | bench/converters/common.py:122-137 | each key gets the floor or the ceiling of its share, its share when that is whole, and nothing for no weight |
| `Apportionment.AllocationFits` | bench/converters/common.py:122-137 | with no more seats than weight no key gets more than its weight |
| `Apportionment.AllocationCovers` | bench/converters/common.py:122-137 | with at least as many seats as weight every key gets at least its weight |
| `Apportionment.LargestFractionsWin` | bench/converters/common.py:122-137 | a key rounded up has a larger fraction than every key that is not, or an equal one and a smaller key |
| `Apportionment.SeatedIff` | bench/converters/common.py:122-137 | a key gets a seat exactly when its share is at least one or fewer keys come before it than seats are left over |
| `DevSelection.GroupBy` | bench/converters/locomo.py:134-136 | the grouping loop gives every key its items, in order |
| `DevSelection.StratifySize` | bench/converters/lme_v2.py:227-242 | apportioned sampling returns exactly the smaller of total and size |
| `DevSelection.StratifyWithin` | bench/converters/lme_v2.py:227-242 | it takes no item that is not there and none more often |
| `DevSelection.StableSampleIs` | bench/converters/common.py:109-119 | sampling gives everything as listed when k covers it, and otherwise k items in sampling order |
| `DevSelection.SampledBefore` | bench/converters/common.py:109-119 | an item sampled precedes, in sampling order, every item of which a copy is left |
| `DevSelection.StratumQuota` | bench/converters/lme_v2.py:227-242 | every stratum gets its apportioned share, or all it has |
| `DevSelection.LocomoSelectionExact` | bench/converters/locomo.py:130-147 | the nested selection returns exactly min(300, N) questions, distinct if the input is, with each category's own quota |
| `DevSelection.LocomoDevSelection` | bench/converters/locomo.py:130-147 | the nested loops compute that selection |
| `DevSelection.LocomoCellQuota` | bench/converters/locomo.py:130-147 | in every category, each conversation gets what the category's places give it |
| `DevSelection.LocomoSampledBefore` | bench/converters/locomo.py:130-147 | of one category and conversation, a question taken precedes every question left in sampling order |
| `DevSelection.StratumCoveredIff` | bench/converters/lme_v2.py:227-242 | a stratum has an element in the selection exactly when its apportionment seats it |
| `DevSelection.ConversationCoveredIff` | bench/converters/locomo.py:130-147 | a conversation has a question in the selection exactly when in some category the category's places reach it |
| `DevSelection.LoneConversationIff` | bench/converters/locomo.py:130-147 | one question beside n of another conversation in its category is covered exactly when n < 599, or n = 599 and its conversation sorts first |
| `DevSelection.LmeSelectionExact` | bench/converters/lme_v2.py:227-242 | the selection holds every forced question and exactly min(max(120 - forced, 0), rest) others |
| `DevSelection.LmeCellQuota` | bench/converters/lme_v2.py:227-242 | of the questions that are not forced, each type and domain gets its share of the room left |
| `DevSelection.LmeSampledBefore` | bench/converters/lme_v2.py:227-242 | of one type and domain, a question taken precedes every question left in sampling order |
| `DevSelection.LmeDevSelection` | bench/converters/lme_v2.py:227-242 | the loops compute that selection |
| `Launcher.RunKeepsOk` | scripts/lp_full_shard_launcher.py:329-395 | every step of workers, monitor, children and clock keeps the invariant on every shard |
| `Launcher.PoolIsBounded` | scripts/lp_full_shard_launcher.py:688-708 | at no moment are more children alive than the concurrency |
| `Launcher.LaunchesAreBounded` | scripts/lp_full_shard_launcher.py:329-395 | no shard is launched more often than one try and the retries |
| `Launcher.SlotsAreStaggered` | scripts/lp_full_shard_launcher.py:337-343 | the i-th and j-th reserved start slots are at least j - i staggers apart |
| `Launcher.LaunchesAreStaggered` | scripts/lp_full_shard_launcher.py:337-343 | in every run each launch happens at or after a slot of its own, so the child with the n-th slot starts at least n staggers after the first slot |
| `Launcher.LaunchRateIsBounded` | scripts/lp_full_shard_launcher.py:337-343 | in every run m launches take at least m - 1 staggers, counted from the first slot |
| `Launcher.LaunchesAreRecorded` | scripts/lp_full_shard_launcher.py:329-395 | these launches are all there are, over all shards |
| `Launcher.ReturnedIsTerminal` | scripts/lp_full_shard_launcher.py:329-395 | once every worker has returned every shard is done, failed, killed or skipped and no child is left |
| `Launcher.VerdictIsExact` | scripts/lp_full_shard_launcher.py:377-395 | without a shutdown a shard is done exactly when its last child exited with zero, else failed, and failed only after a launch error or its last try; with one, done still means zero, and zero can at worst be reported killed |
| `Shutdown.VerdictMeans` | scripts/lp_full_shard_launcher.py:329-395 | what each verdict on a returned shard tells of its exit, launches and tries, with or without a shutdown; one never tried is skipped, or failed if it was submitted as failed |
| `Launcher.ShutdownStopsLaunches` | scripts/lp_full_shard_launcher.py:329-342 | after a shutdown a shard is launched at most once more, and only if its worker had passed the flag |
| `Launcher.FinishedShardReportedKilled` | scripts/lp_full_shard_launcher.py:435-450 | a run in which a shard that had exited with zero before the flag was set is reported killed |
| `Launcher.ChildOutlivesSweep` | scripts/lp_full_shard_launcher.py:435-450 | a run in which a child is alive after the sweep has ended |
| `Shutdown.RunKeepsWatch` | scripts/lp_full_shard_launcher.py:435-450 | in every run a waiting worker's live child is marked running, and whoever the monitor is about to kill or mark is past launching |
| `Shutdown.FinishedIsReportedIff` | scripts/lp_full_shard_launcher.py:377-388 | for a shard whose last child had exited with zero by the time limit, every continuation in which its worker returns reports it done, exactly when the worker had already returned |
| `Shutdown.DoneAfterLimitIff` | scripts/lp_full_shard_launcher.py:377-388 | some continuation after the time limit reports a shard done exactly when its worker had by then stored a zero exit and looked at the flag |
| `Shutdown.ChildOutlivesSweepIff` | scripts/lp_full_shard_launcher.py:435-450 | some continuation ends the sweep with a shard's child alive exactly when its worker has passed the flag and not launched, or has a live child not yet marked running |
| `Shutdown.LaunchAfterMonitorIff` | scripts/lp_full_shard_launcher.py:438-468 | once the monitor has ended without a shutdown the time limit stays unenforced, and a shard can be launched again exactly when it still waits for a worker or its worker may yet come to a launch: before it, or with a try left and no zero exit |
| `Shutdown.LaunchAfterShutdownIff` | scripts/lp_full_shard_launcher.py:329-342 | after a shutdown some continuation launches a shard again exactly when its worker has passed the flag and not yet launched |
| `Shutdown.RetryEscapesMonitor` | scripts/lp_full_shard_launcher.py:388-395 | a run in which the monitor ends while a retry is still to come |
| `Resume.WritesAppend` | research/context_rot/harness.py:414-421 | writing a record, whole or cut short, appends exactly those characters |
| `Resume.SplitContent` | research/context_rot/harness.py:295-308 | splitting the file's characters at newlines gives back its lines |
| `Resume.ReadJsonl` | research/context_rot/harness.py:295-308 | the reading loop yields the records of the lines that parse, in order |
| `Resume.EmitReads` | research/context_rot/harness.py:414-421 | a record written at the start of a line is read back; one written after a torn line is lost with it |
| `Resume.NoCellTwice` | research/context_rot/harness.py:386-446 | however often and wherever runs are cut short, no cell can be read back twice |
| `Resume.CompletionIsExact` | research/context_rot/harness.py:386-446 | a completed run leaves every planned cell exactly once, for every completion order, if and only if the file it opened ended in a newline or was empty, or nothing was pending |
| `Resume.TornLineLosesCell` | research/context_rot/harness.py:386-446 | wherever inside its only record a first run stops, the run that resumes and completes loses the cell |
| `Resume.TwoCompletionsSuffice` | research/context_rot/harness.py:386-446 | resuming once more always repairs the loss |
| `Multicycle.RunCycles` | research/context_rot/multicycle.py:146-233 | the loop writes, cycle by cycle, the record that the transcript at that cycle determines |
| `Multicycle.PromptIsBounded` | research/context_rot/multicycle.py:64-79 | every prompt is within budget or has at most keep_tail + 2 messages |
| `Multicycle.CompactionMoves` | research/context_rot/multicycle.py:64-79 | a compaction moves evidence behind the summary heading if it fits, and otherwise removes it |
| `Multicycle.CompactionKeeps` | research/context_rot/multicycle.py:64-79 | a compaction keeps the first message and the last keep_tail ones; between them stands the heading with the first summary_chars characters of all that was dropped |
| `Multicycle.SurvivalHorizon` | research/context_rot/multicycle.py:146-233 | evidence at offset o of the first user message is visible in a cycle exactly while o, the headings piled up and its length fit summary_chars |
| `Multicycle.LostStaysLost` | research/context_rot/multicycle.py:115-118 | evidence that one cycle misses every later cycle misses, and none of them is scored |
| `Multicycle.ScoredIffInView` | research/context_rot/scoring.py:430-441 | a cell is scored exactly when the model answered and every marker was in view, with the verdict on that answer; otherwise the record gives the reason |
| `Multicycle.RecordCounts` | research/context_rot/multicycle.py:146-157 | the record's estimates are those of the transcript before and after the compaction, and its count is what went |
| `CompactionQuality.KeepWithin` | scripts/validate_compaction_quality.py:338-344 | the greedy loop keeps the first floor(budget / 40) facts |
| `CompactionQuality.BudgetIs` | scripts/validate_compaction_quality.py:119-132 | the scaled budget is a fortieth of the tokens, at least 2000 and at most 8000; the legacy one eight tenths of the reserve; the model caps both |
| `CompactionQuality.V2OrderIs` | scripts/validate_compaction_quality.py:328-337 | the v2 order lists the five tiers one after the other, and the facts of one tier as the transcript has them |
| `CompactionQuality.SimulateSummary` | scripts/validate_compaction_quality.py:315-344 | the simulator keeps that prefix of the order its prompt gives |
| `CompactionQuality.V2KeepsFirstTiers` | scripts/validate_compaction_quality.py:315-344 | of the tiers up to any rank the v2 order keeps all, or as many as fit |
| `CompactionQuality.V2KeepsMoreOfEveryTier` | scripts/validate_compaction_quality.py:315-344 | with no smaller a budget it keeps at least as many of them as any shuffle |
| `CompactionQuality.SurvivorsAreKept` | scripts/validate_compaction_quality.py:347-351 | judging by identities counts the critical facts kept |
| `CompactionQuality.V2DominatesIff` | scripts/validate_compaction_quality.py:315-351 | the v2 prompt's survival rate is at least the legacy one's for every shuffle exactly when all critical facts fit its budget or its budget holds no fewer facts |
| `CompactionQuality.V2PresetDominates` | scripts/validate_compaction_quality.py:84-89 | with the v2 preset it always is |
| `CompactionQuality.V2ScaledDominatesIff` | scripts/validate_compaction_quality.py:119-140 | with the v2-scaled preset it is exactly when the critical facts fit the scaled budget, which holds 50 to 200 |
| `CompactionQuality.V2ScaledLosesAnchors` | scripts/validate_compaction_quality.py:119-140 | 51 anchors of which the v2-scaled preset keeps a smaller share than the legacy one under some shuffle |

## Left out

- The Rust agent crates: only the build script's provenance code is modelled.
- Subprocesses, cargo, git, HTTP and the judges: they appear as arbitrary outcomes.
- Floating-point rounding in shares, intervals and budgets: integers and reals stand for it; the rounding of the interval to four digits is not modelled.
- JSON text: values are structured. Resume takes from JSON that a one-line object holds no newline, reads back as itself, does not begin another, and does not parse when cut or run together with another.
- Python's `str.lower`: a parameter. The results on normalised text take from it that it changes nothing in a text of blanks and characters it has itself produced.
- Regular expressions: word boundaries are explicit predicates. Empty separators, which `re.split` would match everywhere, are treated as never matching.
- Evaluator details that no check looks at: latencies, notes, aggregates by category, judge statistics.
- Legacy score documents without provenance, which are accepted only as unverified.
- Paths that are not valid UTF-8, which the build script refuses and the installer cannot encode.
- Ingest attempts that fill one cache directory at the same time: the code takes no lock there, so histories are sequential.
- Copying a store into the scratch directory and rebinding its project alias.
- The single-value checks of `validate_memory_settings_values`, which only refuse.
- Negative keep_tail and summary_chars, which Python's slices would read from the other end.
- Faults inside the installer's rollback: InstallRelease then promises only that earlier releases are kept.
- The launcher's polling interval and its test for a stall, which may fire at any time while a shard is marked running.
- The case-insensitive extension test that the build script makes on Windows only.
- Porter stemmer modes other than the default one.
- Log tailing, status tables, reports, argument parsing, `scripts/lmem_parallel_shard_launcher.py` (the same loops as the launcher modelled), and the fixed data tables of `research/context_rot`.
