# Release and CI evidence tools: a verified model

This project models the decision logic of the repository's release and CI evidence tools and
proves what their verdicts mean. It has five parts.

**Candidate inventory** (`file_system`, `system_calls`, `inventory_*`). The PyPI candidate tool
scans a directory that other processes may be changing. The file system is a history of states;
every system call happens at an instant of its own, with any number of outside changes between
two calls, and may fail. The one environment assumption is `FileSystem.Environment`: from one
instant to the next every object either keeps its content and metadata, or takes a metadata
identity that no object has shown before and no other object shows now; an object that is a
directory stays one; and an object, once there, can still be referred to when it is unlinked.
`InventoryAcceptance.StillHistory` and `OneMoreChange` show that the assumption can be met. The
main results: a scan without blockers was true, whole, at one single instant (an atomic
snapshot); revalidation accepts exactly when the second report passes and equals the first, and
then the directory matched the report at every instant between the two snapshots, so that exit code
0 of the release command covers the whole time of its network checks; validation passes exactly for
the closed set of ten artifacts, and `InventoryDecision.ExitCodeExactly` says for which directories
and arguments the command returns 0.

**Sharding** (`text`, `shard_*`). The pytest plugin, the manifest, the receipt producer and the
receipt verifier. Accepted receipts written by the producer come from one population and
partition it; honest receipts are accepted in any order; the verifier is sound whoever wrote the
receipts. SHA-256 is a parameter; collision-freedom is a hypothesis where a lemma needs it.

**Constraints override** (`bytes`, `utf8`, `constraints_*`). Splitting bytes into lines, matching an exact
pin, removing one line. A derivation removes exactly one whole line, of whatever spelling of the
name; deriving again always fails; two derivations commute exactly when their pins are not
entangled.

**Range partitions** (`partitions`, `partition_certificates`). The partitions tile the range, their
aggregates add up, and a certificate for every partition is one for the range.

**Parse benchmark** (`duration_budget`, `digests`, `tree_*`, `forbidden_imports`, `tripwire*`,
`topology*`). The p95 budget, the framing under a tree digest, the side-effect tripwire and the
exact topology check.

Each operation is proved against a function, and what the function computes is stated again without
it, with the numbers, names and byte values written out: exit code 0 in terms of the files and the
arguments (`inventory_decision`), the shard of a node ID as a remainder (`shard_residues`), spellings
by character codes (`constraints_spelling`), certificates row by row (`partition_certificates`),
reports over the catalogue of probes (`tripwire_coverage`, `tripwire_counters`), blocker by blocker
(`inventory_reports`, `inventory_outcomes`) and field by field (`topology_records`, `tree_order`).

`ordering` holds sorting, filtering and the comparison of strings.

## Where the code differs from what it says

- The tripwire is documented to fail on blocked side effects, but `arm` stores categories without
  their trailing letters s while the report adds up the category `kubernetes`. When the
  Kubernetes probe was first recorded by `arm`, a blocked call of it is not added up, and the report
  can pass. `TripwireReport.PassingExactly` states exactly when a report passes,
  `TripwireReport.BlindSpot` gives sessions with a blocked Kubernetes call and a passing report.
- Two pins can be removed in either order, but not always with the same bytes: if one pin's line
  ends in a bare CR, the other pin's line follows, and an empty line ended by LF comes after it,
  then removing the second pin first fuses the CR with the LF, and removing the other pin then
  takes the empty line with it. `ConstraintsOrder.OrderIrrelevantExactly` gives the condition,
  `OrderMattersExample` a file.
- The plugin hashes node IDs as collected, the receipts hash them stripped. A node ID with white
  space around it may run in one shard and be listed for another.
  `ShardPlugin.AgreementExactly` gives the condition, `PaddingDisagrees` an example, for every hash
  that puts the padded and the stripped spelling in two shards as SHA-256 does.
- The pin pattern accepts `===`: the version then begins with an equals sign, exactly then
  (`ConstraintsRefusals.VersionAfterThirdEquals`; `TripleEqualsAccepted` shows a file).
- A pin whose name ends in a separator matches the pattern but is no distribution name, and one such
  line makes every derivation from the file fail, for distributions it does not mention too.
  `ConstraintsRefusals.PinNameRefusedExactly` and `RefusedExactly` say exactly which lines are
  refused, `SeparatorFailsAll` what follows, `SeparatorRefused` shows a file.
- Two nodes of a DAG spec on one workload pass the construction of the topology authority, but no
  parse can ever satisfy it (`TopologyAuthority.SatisfiableSpec`; `SharedSpecExample` shows one).

## Model

| member | source | states |
|---|---|---|
| FileSystem.SameMetadataMeansFrozen | tools/pypi_candidate_inventory.py:48 | Equal metadata at two instants means one object, unchanged in content and metadata at every instant in between |
| FileSystem.FileTypes | tools/pypi_candidate_inventory.py:111-114 | The four bits above the permissions decide: 8 is a regular file, 4 a directory, 10 a link |
| SystemCalls.Host.PathMetadata | tools/pypi_candidate_inventory.py:108 | lstat of the directory argument sees the path at its own instant, or fails |
| SystemCalls.Host.OpenDirectory | tools/pypi_candidate_inventory.py:119-120 | Opening without following links yields a new descriptor of the directory the path then names |
| SystemCalls.Host.DescriptorMetadata | tools/pypi_candidate_inventory.py:121 | fstat sees the metadata of the open object at its own instant; what it saw is recorded |
| SystemCalls.Host.EntryStat | tools/pypi_candidate_inventory.py:99-103 | stat of an entry, relative to the open directory, without following links |
| SystemCalls.Host.OpenEntry | tools/pypi_candidate_inventory.py:201-202 | Opening an entry yields a new descriptor, at offset 0, of the object then under that name, never through a link |
| SystemCalls.Host.Read | tools/pypi_candidate_inventory.py:211 | A read may be short and may deliver anything from a file that changes; from a file that holds still it delivers its bytes in order, and nothing only at the end |
| SystemCalls.Host.ListDirectory | tools/pypi_candidate_inventory.py:135-137 | A directory that holds still is listed once per entry in any order; one that changes may yield anything |
| InventoryContract.FilenameParser.Parse | tools/pypi_candidate_inventory.py:148-158 | Only names with one of the three distribution suffixes are recognised |
| InventoryReports.ParseExactly | tools/pypi_candidate_inventory.py:148-158 | A name ending in .whl is parsed as a wheel, one ending in .tar.gz or .zip as an sdist, any other not at all; its type is wheel, sdist or unsupported sdist by the same endings |
| InventoryGrouping.GroupReleases | tools/pypi_candidate_inventory.py:262-271 | The dict-of-lists loop computes one release per (package, version), in key order with sorted candidates |
| InventoryGrouping.GroupingConserves | tools/pypi_candidate_inventory.py:262-271 | Flattening the releases is a permutation of the artifacts' (filename, sha256) pairs, and the keys strictly increase |
| InventoryGrouping.GroupingIgnoresOrder | tools/pypi_candidate_inventory.py:262-271 | The releases depend on which artifacts there are, not on the order in which they come |
| InventoryReports.ReleasePerKey | tools/pypi_candidate_inventory.py:262-271 | There is a release for exactly the packages and versions of the artifacts |
| InventoryReports.ReleasesExactly | tools/pypi_candidate_inventory.py:262-271 | A release lists exactly the artifacts of its package and version, by filename and then by digest |
| InventoryValidation.ValidateDistributionInventory | tools/pypi_candidate_inventory.py:344-382 | The blockers, in order: counts, package set, then per release version, wheel and sdist counts and zip files |
| InventoryReports.ObjectionsExactly | tools/pypi_candidate_inventory.py:344-382 | For any releases: which blockers validation reports, each by its own condition, with the ten artifacts, five releases and five package names written out, the missing names in order, and the counts of names by their endings |
| InventoryClosedSet.ExactClosedSet | tools/pypi_candidate_inventory.py:344-382 | For grouped, parsed artifacts there are no blockers exactly when the artifacts correspond one to one to the five packages times wheel and sdist, all at the expected version |
| InventoryHash.ReadAll | tools/pypi_candidate_inventory.py:209-215 | The read loop ends for every sequence of short reads; if the file held still, exactly its bytes were hashed, in order; giving up without a failed call means that it did not hold still |
| InventoryHash.ConfirmEnd | tools/pypi_candidate_inventory.py:216-217 | No byte beyond the size and the same identity at the closing fstat mean that the file held still from its first fstat to the return |
| InventoryHash.HashDescriptor | tools/pypi_candidate_inventory.py:203-217 | A digest is given only if every fstat of the call showed the expected metadata of a regular file; it is that of the bytes the file holds at the return, exactly the announced number; and from any instant on at which the file showed that metadata, every fstat included, it did not change until the return. A file that holds still during the call and has the metadata gets a digest unless a call fails |
| InventoryHash.HashOpened | tools/pypi_candidate_inventory.py:203-221 | The same at the later return, when the name, too, shows the expected metadata and names the open file itself |
| InventoryHash.HashEntry | tools/pypi_candidate_inventory.py:197-226 | A digest is given only if at the return the name names a file that holds bytes of that digest, every fstat of the call showed its expected metadata, and it has not changed since any instant at which it showed that metadata; it is certain when the name shows the metadata of a regular file all the time and no call fails; the descriptor is closed again in every case |
| InventoryHash.DigestMeansUnchanged | tools/pypi_candidate_inventory.py:203-221 | With a digest, whatever showed the expected metadata at any instant t up to the return is the hashed file, unchanged from t to the return, and the digest is that of its bytes at every instant of that time |
| InventoryHash.UnchangedSinceFstat | tools/pypi_candidate_inventory.py:203-221 | With a digest, the file did not change from the first fstat of the call to the return, and the digest is that of its bytes at every instant of that time: any change of size, bytes or identity in between yields None |
| InventoryHash.UnchangedSinceInspection | tools/pypi_candidate_inventory.py:171-221 | With a digest, the file did not change from the inspection of the entry to the return |
| InventoryHash.ChangeMeansNoDigest | tools/pypi_candidate_inventory.py:203-221 | A file that differs at any later instant up to the return from what it was when it showed the expected metadata has no digest |
| InventoryNames.ListingSorts | tools/pypi_candidate_inventory.py:145 | Sorting any complete listing gives the one sorted list of the directory's names |
| InventoryScan.OpenCandidateRoot | tools/pypi_candidate_inventory.py:106-129 | A descriptor is returned only for a real directory which the path named, with its metadata; otherwise nothing stays open and there is a blocker |
| InventoryScan.BoundedEntryNames | tools/pypi_candidate_inventory.py:132-145 | At most the maximum of names; for a directory holding still exactly its sorted names, or the limit error exactly when there are more than the maximum |
| InventoryScan.InspectEntries | tools/pypi_candidate_inventory.py:161-194 | Every entry kept was observed as a regular file with a parsable name; no blockers means that all names were kept; on a quiet directory entries and blockers are exactly those of its state |
| InventoryScan.ChangedRoot | tools/pypi_candidate_inventory.py:239-246 | No blocker means that the path showed the directory's metadata again; on a quiet directory the two blockers exactly |
| InventoryScan.ChangedEntries | tools/pypi_candidate_inventory.py:247-250 | No blocker means that every entry was observed again with its metadata; on a quiet directory the blockers exactly |
| InventoryScan.SnapshotBlockers | tools/pypi_candidate_inventory.py:229-251 | The second collection: no blockers means that directory and entries were all observed again unchanged |
| InventorySnapshot.RootPinned | tools/pypi_candidate_inventory.py:241-246 | Same directory metadata at the first fstat and at the final stat freezes the directory up to the instant between the collections |
| InventorySnapshot.EntryPinned | tools/pypi_candidate_inventory.py:247-250 | An entry seen before and after an instant and hashed in between is held, with that digest, at the instant |
| InventorySnapshot.HashEntries | tools/pypi_candidate_inventory.py:290-308 | The hashing loop: one artifact per entry, each with the digest of a file that had the entry's metadata, or the first name that failed |
| InventorySnapshot.CollectMetadata | tools/pypi_candidate_inventory.py:284-289 | Names and metadata of the first collection, or the blocked scan they end in |
| InventorySnapshot.Collect | tools/pypi_candidate_inventory.py:284-308 | The first collection: names, metadata and digests, or the blocked scan they end in |
| InventorySnapshot.InNameOrder | tools/pypi_candidate_inventory.py:319 | Sorting the artifacts changes nothing |
| InventorySnapshot.DoubleCollect | tools/pypi_candidate_inventory.py:274-327 | If the two collections agree, the instant between them satisfies every name, size, identity and digest collected |
| InventorySnapshot.ScanOpened | tools/pypi_candidate_inventory.py:283-325 | A clean scan was true of the open directory at one instant, after which the path still named it |
| InventorySnapshot.ScanCandidateDirectory | tools/pypi_candidate_inventory.py:274-327 | Atomic snapshot: under any interleaving of outside changes, no blockers means one single instant at which the directory, named by the path both before and after it, held exactly the reported names, sizes, identities and digests; blockers mean that nothing else is reported; a quiet directory without failing calls gives exactly the scan of its state |
| InventoryAcceptance.AcceptedExactly | tools/pypi_candidate_inventory.py:274-327 | A directory that holds still gives no blockers exactly when it is a real directory of not too many regular files with distribution names, each and in sum within the size limits |
| InventoryOutcomes.RootExactly | tools/pypi_candidate_inventory.py:106-118 | The first thing wrong with what the path names, by whether it is nothing, a link, no directory, or a directory without no-follow access |
| InventoryOutcomes.InspectionExactly | tools/pypi_candidate_inventory.py:161-194 | Which blockers the entries of a directory that holds still give: no regular file, no distribution name, too many bytes each, too many bytes together |
| InventoryOutcomes.ScanExactly | tools/pypi_candidate_inventory.py:274-327 | The blockers of a still directory: those of the root, or the entry limit, or exactly those of its entries |
| InventoryOutcomes.SnapshotExactly | tools/pypi_candidate_inventory.py:229-251 | What the second collection reports of a still directory against metadata taken before: names, path or entries that differ |
| InventoryRevalidation.EvaluateCandidateInventory | tools/pypi_candidate_inventory.py:385-409 | The report comes from one scan of the time the call took, with the count and closed-set blockers added and duplicates removed |
| InventoryRevalidation.PassingReport | tools/pypi_candidate_inventory.py:385-409 | A report without blockers: at one instant the directory held the closed set, whole and unmixed |
| InventoryRevalidation.CleanPasses | tools/pypi_candidate_inventory.py:395-405 | A clean scan passes exactly when its artifacts are the closed set |
| InventoryOutcomes.ReportExactly | tools/pypi_candidate_inventory.py:385-409 | A report holds the blockers of the scan, of the number of entries if it is not ten, and of the validation, each once, and otherwise what the scan found |
| InventoryRevalidation.RevalidateCandidateInventory | tools/pypi_candidate_inventory.py:421-461 | The final report is the handoff from the initial report to a new evaluation of the same version |
| InventoryRevalidation.ByNameFinds | tools/pypi_candidate_inventory.py:440-441 | The dictionaries by filename contain exactly the artifacts' names, each with an artifact of that name |
| InventoryRevalidation.StableWindow | tools/pypi_candidate_inventory.py:421-461 | Accepted revalidation: the initial report had no blockers although they are never read, both reports are equal, and from the first snapshot's instant to the second's the directory was all the time exactly as reported |
| InventoryRevalidation.HandoffExactly | tools/pypi_candidate_inventory.py:436-461 | Revalidation accepts exactly when the second evaluation passes and equals the first report |
| InventoryOutcomes.ChangedExactly | tools/pypi_candidate_inventory.py:440-448 | The changed names are those that one report lacks or whose artifacts differ in size, digest or known metadata, each once, in order |
| InventoryOutcomes.HandoffBlockers | tools/pypi_candidate_inventory.py:436-461 | For any two reports: exactly which blockers the final report carries, and that it is otherwise the second one |
| InventoryRelease.Covered | tools/pypi_release_smoke_dist.py:186-209 | Between the two evaluations, whatever happens, the directory holds exactly the closed set |
| InventoryRelease.PackageIndex.WaitForRelease | tools/pypi_release_smoke_dist.py:134-144 | One check of one release takes any time and passes or not; it is recorded with the instants between which it ran |
| InventoryRelease.VerifyDistributionReleases | tools/pypi_release_smoke_dist.py:119-146 | Every release is checked once, in order, also after one fails, and the reports are all positive exactly when all checks passed |
| InventoryRelease.Decide | tools/pypi_release_smoke_dist.py:184-215 | Exit code 0: at every instant of every network check that was made the directory held exactly one closed set of the expected version, and the checks are those of its releases, one each in order, all passed; code 1 only if a check failed; on a quiet directory the exit code is that of StillExitCode, which InventoryDecision.ExitCodeExactly spells out |
| InventoryDecision.ClosedByNames | tools/pypi_candidate_inventory.py:344-382 | A closed set, by filenames alone: every name is a wheel or an sdist of one of the five packages at the version, and each package has exactly one of either |
| InventoryDecision.TenFiles | tools/pypi_candidate_inventory.py:395-396 | Such a set has ten names |
| InventoryDecision.ExitCodeExactly | tools/pypi_release_smoke_dist.py:184-215 | On a still directory without failing calls the exit code is 0 exactly when no-follow access exists, the path names a directory whose entries are regular files of at most 134217728 bytes, together at most 536870912, and are such a set, the timeout is 0 to 3600 and the interval 1 to 300, and the checks pass or only the inventory is asked for; 1 exactly when only the checks are missing; 2 otherwise |
| ShardPopulation.NormalizeCanonical | tools/ci_quality_shards.py:150-160 | A normalised population is sorted, distinct, stripped, single-line and a permutation of the stripped non-blank IDs |
| ShardResidues.NormalizesExactly | tools/ci_quality_shards.py:150-160 | Normalising succeeds exactly when some ID is not blank, no two of those are equal when stripped and none has a newline inside; the result is those IDs, stripped, in ascending order |
| Text.StripExactly | tools/ci_quality_shards.py:153 | Stripping takes exactly the white space at both ends |
| Ordering.StringLeqExactly | tools/ci_quality_shards.py:153 | Strings are ordered by the first place where they differ, a prefix first |
| ShardPopulation.NormalizePermuted | tools/ci_quality_shards.py:150-160 | A canonical population normalises to itself in whatever order it is presented |
| ShardPopulation.LinesInjective | tools/ci_quality_shards.py:143-147 | The newline framing under the digest is unambiguous |
| ShardResidues.LinesAppend | tools/ci_quality_shards.py:147 | The digested text is every ID followed by a newline |
| ShardPopulation.EqualDigestsEqualPopulations | tools/ci_quality_shards.py:143-147 | Equal digests mean equal populations, for a collision-free hash |
| ShardResidues.ShardExactly | tools/ci_quality_shards.py:134-140 | A node ID gets shard k exactly when there are 2 to 64 shards, the ID is a single line, k is one of the shards and the word of the ID is a multiple of the count plus k; which error otherwise |
| ShardAgreement.AcceptedExactly | tools/ci_quality_shards.py:87-119 | The verifier accepts exactly when count, coverage, headers, population count and the assignment of every listed ID are right |
| ShardResidues.RefusalsInOrder | tools/ci_quality_shards.py:87-119 | The first check that a set of receipts fails decides the error, with coverage as one receipt for each index |
| ShardAgreement.CoveringIsOnce | tools/ci_quality_shards.py:94-99 | As many receipts as shards, covering all shards, are one receipt per shard |
| ShardAgreement.VerifierSound | tools/ci_quality_shards.py:87-119 | Whoever wrote the receipts: each index once, the stripped IDs distinct and as many as the population, each in its receipt's shard; if they lie in a population of that size, they are it |
| ShardAgreement.ProducedFacts | tools/ci_quality_shards.py:46-84 | A produced receipt binds count and digest of the canonical population and lists exactly its shard's members; ShardResidues.ReceiptFields says by their hash words which these are |
| ShardResidues.ReceiptExactly | tools/ci_quality_shards.py:46-84 | A receipt is written exactly for a proper population, 2 to 64 shards, an index below the count, forty lower-case hexadecimal digits, a duration that is not negative, interpreter 3.11 or 3.12, and some member whose word leaves the index |
| ShardResidues.ReceiptFields | tools/ci_quality_shards.py:70-84 | All fields: the selection is exactly the members whose word leaves the index, and its count and digest are those of the selection |
| ShardAgreement.AcceptedPartition | tools/ci_quality_shards.py:46-131 | Accepted receipts, each produced from whatever inputs, come from one population, and their selections partition it |
| ShardRoundTrip.SelectionsConserve | tools/ci_quality_shards.py:67 | The selections of all shards together are the population |
| ShardRoundTrip.ReceiptsRoundTrip | tools/ci_quality_shards.py:46-131 | Honest receipts for 2 to 64 shards are accepted in any order, and the durations come back in shard order |
| ShardRoundTrip.HonestExists | tools/ci_quality_shards.py:57-69 | With usable settings a receipt exists exactly when the population is well formed and its shard is not empty |
| ShardPlugin.Collection.ModifyItems | tools/ci_quality_shards.py:163-185 | The collected list is replaced in place by the kept items and the rest is reported as deselected; on every error both stay as they were; ShardResidues.HookExactly says which items and when |
| ShardResidues.HookExactly | tools/ci_quality_shards.py:173-185 | With two numbers the hook splits the items exactly when the numbers are in range, all IDs are single lines and some word leaves the index; the kept items are exactly those whose word does, the deselected ones exactly the others, each in their order |
| ShardResidues.HookSettings | tools/ci_quality_shards.py:166-177 | What the hook does when a setting is missing or no integer |
| ShardPlugin.EveryItemRunsOnce | tools/ci_quality_shards.py:180-184 | Over all shard indexes every collected item is kept exactly once, in its original relative order |
| ShardPlugin.ManifestPartitions | tools/ci_quality_shards.py:32-43 | The manifest of a canonical population succeeds, binds its digest, and its shard lists partition it |
| ShardResidues.ManifestFields | tools/ci_quality_shards.py:32-43 | All fields of the manifest: list k holds exactly the members whose word leaves k |
| ShardPlugin.PluginAgreement | tools/ci_quality_shards.py:163-185 | For distinct, stripped, single-line IDs the kept IDs are the receipt's selection and the manifest's list for that shard |
| ShardPlugin.AgreementExactly | tools/ci_quality_shards.py:163-185 | For any single-line IDs the kept IDs of all shards, stripped, are the receipts' selections exactly when no ID changes shard by being stripped |
| ShardPlugin.PaddingDisagrees | tools/ci_quality_shards.py:180-184 | One ID with a leading blank that the plugin keeps in shard 1 and the receipts list for shard 0, for every hash that puts the two spellings there, as SHA-256 does |
| ConstraintLines.JoinSplit | tools/airflow_constraints_override.py:56 | Joining the split lines gives the bytes back |
| ConstraintLines.SplitIsWellSplit | tools/airflow_constraints_override.py:56 | Splitting yields lines with one terminator each (only the last may have none), never a bare CR before an LF |
| ConstraintLines.SplitJoin | tools/airflow_constraints_override.py:56 | Exactly such lists of lines split back after joining |
| ConstraintLines.RstripIsBody | tools/airflow_constraints_override.py:57 | Stripping CR and LF from a line leaves its body |
| ConstraintLines.SplitWithout | tools/airflow_constraints_override.py:56-73 | Re-splitting after one line is gone gives the other lines, except that a bare CR before it fuses with an LF after it into one line |
| ConstraintPins.MatcherExact | tools/airflow_constraints_override.py:22 | One pass without backtracking finds a pin exactly where the pattern matches, and name and version are unambiguous |
| ConstraintPins.NormalizationIdempotent | tools/airflow_constraints_override.py:25-29 | A normalised distribution name is its own normalisation |
| ConstraintsSpelling.NormalizesExactly | tools/airflow_constraints_override.py:25-29 | A name normalises exactly when, stripped, it consists of letters, digits (or the Kelvin sign) and separators with no separator at either end |
| ConstraintsSpelling.NormalizedLetters | tools/airflow_constraints_override.py:26 | The normalised name is the name with each run of separators read as one hyphen and every ASCII capital as its own small letter, 32 above it |
| ConstraintsSpelling.SpellingsExactly | tools/airflow_constraints_override.py:25-29 | Two names normalise to the same exactly when, with each run of separators read as one, they have the same length and agree place by place up to case, by character codes |
| ConstraintsOverride.DeriveProviderOverrideConstraints | tools/airflow_constraints_override.py:43-86 | The loop computes the derivation, including which error comes first, and digests the source and the derived bytes; ConstraintsSpelling.DerivesExactly says when and for which spellings it succeeds |
| ConstraintsRefusals.PinNameRefusedExactly | tools/airflow_constraints_override.py:25-29 | The name of a matched pin is refused exactly when it ends in a separator |
| ConstraintsRefusals.RefusedExactly | tools/airflow_constraints_override.py:56-67 | A line makes the derivation fail exactly when it is a pin whose name ends in a separator, or a pin of the distribution with a version that is not ASCII or not one word, or in a line that is not UTF-8 |
| Utf8.Utf8Exactly | tools/airflow_constraints_override.py:66 | Decoding as UTF-8 succeeds exactly for the encodings of sequences of code points that are no surrogates |
| ConstraintsRefusals.SeparatorFailsAll | tools/airflow_constraints_override.py:56-67 | One pin whose name ends in a separator makes the derivation fail for every distribution |
| ConstraintsRefusals.SeparatorRefused | tools/airflow_constraints_override.py:56-67 | The file `a-==1` fails for every distribution |
| ConstraintsRefusals.VersionAfterThirdEquals | tools/airflow_constraints_override.py:22 | A matched pin's version begins with an equals sign exactly when another one follows `==` and the blanks behind it |
| ConstraintsRefusals.TripleEqualsAccepted | tools/airflow_constraints_override.py:22 | The file `a===1` is taken for version `=1` of a, and its line is removed |
| ConstraintsOverride.DeriveRemovesOneLine | tools/airflow_constraints_override.py:43-86 | A success removes exactly one whole line with its terminator, the distribution's only pin, and keeps all other bytes in order; the evidence names that pin's version and the requested one, stripped |
| ConstraintsOverride.DeriveSucceeds | tools/airflow_constraints_override.py:56-73 | With a valid name and version, exactly one pin and no refused line are enough for success |
| ConstraintsSpelling.DerivesExactly | tools/airflow_constraints_override.py:43-86 | A derivation succeeds exactly when the name and version are proper and one line is a pin of the distribution in some spelling, alike by character codes, while every other line is no pin or a proper pin of a name that is not alike |
| ConstraintsSpelling.PinCountExactly | tools/airflow_constraints_override.py:71-73 | With proper arguments and no refused line the error is the number of the distribution's pins, and there is one exactly when that is not one |
| ConstraintsSpelling.FlaskIsFlask | tools/airflow_constraints_override.py:61-69 | The pin `Flask==3.0.0` is removed for flask |
| ConstraintsOverride.DeriveTwiceFails | tools/airflow_constraints_override.py:43-86 | Deriving again from the output, with any spelling that normalises alike, always fails with zero pins found |
| ConstraintsOrder.OrderIrrelevantExactly | tools/airflow_constraints_override.py:43-86 | Two different distributions: both derivations succeed in either order, with the same bytes exactly when the pins are not entangled |
| ConstraintsOrder.OrderIrrelevantWithoutBareCr | tools/airflow_constraints_override.py:56-73 | Without bare CRs the order never matters |
| ConstraintsOrder.OrderMattersExample | tools/airflow_constraints_override.py:56-73 | A file of eleven bytes for which it does |
| Partitions.TilesRange | tools/mssql_clickhouse_fault_injection.py:449-456 | A partition contains exactly the numbers of the range that have it as their home, for every count of partitions and every bounds |
| Partitions.PartitionsTile | tools/mssql_clickhouse_fault_injection.py:408-419 | A number lies in the range exactly when it lies in exactly one planned partition |
| Partitions.PartitionsOrdered | tools/mssql_clickhouse_fault_injection.py:449-456 | Every partition ends below the start of every later one |
| Partitions.PartitionSizes | tools/mssql_clickhouse_fault_injection.py:449-456 | With at least as many numbers as partitions all have the same size, except that the last, which may be the only one, is larger by span mod count |
| PartitionCertificates.PlannedExactly | tools/mssql_clickhouse_fault_injection.py:408-456 | As many partitions as asked for but at least one, from the first to the last number of the range that the arguments describe, which is exactly tiled |
| PartitionCertificates.SmallRanges | tools/mssql_clickhouse_fault_injection.py:449-456 | With more partitions than numbers the first ones hold one number each and the others none |
| Partitions.AggregatesConserve | tools/mssql_clickhouse_fault_injection.py:567-581 | The partitions' counts and sums add up to those of the whole range, for any rows |
| Partitions.AggregatePermutes | tools/mssql_clickhouse_fault_injection.py:601-615 | The aggregates depend on which rows there are, not on their order |
| PartitionCertificates.AggregateMeaning | tools/mssql_clickhouse_fault_injection.py:567-581 | An aggregate is the number of rows in the bounds and the sums of their two columns, counted row by row |
| Partitions.ObservePartitions | tools/mssql_clickhouse_fault_injection.py:482-502 | The certifier's loop observes both checksums of every planned partition in order, or fails with the first source query that does; PartitionCertificates.CertifiedExactly says when it certifies |
| Partitions.CertificateCoversRange | tools/mssql_clickhouse_fault_injection.py:464-564 | Agreement on every planned partition is agreement over the whole range (1 to the row count without arguments, the lower bound to the row count without an upper one, else the two bounds): equal counts, and equal checksums wherever 64-bit sums exist |
| PartitionCertificates.CertifiedExactly | tools/mssql_clickhouse_fault_injection.py:464-564 | Every planned partition is observed exactly when the source's sums over each fit 64 bits, and certified exactly when on each the counts are equal and the sums congruent modulo 2^64 |
| PartitionCertificates.CertificateMeans | tools/mssql_clickhouse_fault_injection.py:464-564 | A certificate says that over the range, by cases of the arguments, the counts are equal and the sums congruent |
| PartitionCertificates.DefaultRefuses | tools/mssql_clickhouse_fault_injection.py:67-69 | With the default arguments a target with another number of rows in 1 to the row count is never certified, and there are four partitions |
| Partitions.FaithfulCopyCertified | tools/mssql_clickhouse_fault_injection.py:464-564 | A target with the same rows in any order is certified as soon as the source can compute its checksums |
| DurationBudget.PercentileByCount | tools/airflow_provider_parse_benchmark_support.py:75-81 | A percentile is within the limit exactly when at most n minus its rank samples exceed the limit, whatever their order |
| DurationBudget.RankExactly | tools/airflow_provider_parse_benchmark_support.py:81 | The rank is the least whole number not below n times the fraction |
| DurationBudget.BudgetMeaning | tools/airflow_provider_parse_benchmark_support.py:84-102 | The p95 budget passes exactly when the expected positive number n of samples is there and at most floor(n / 20) exceed the limit |
| DurationBudget.BudgetFields | tools/airflow_provider_parse_benchmark_support.py:84-102 | The p95 in the evidence is the least sample with at most one in twenty above it, the maximum the greatest sample, and both are absent exactly without samples |
| DurationBudget.SmallSampleMaximum | tools/ci_quality_timing.py:34-57 | For 1 to 19 samples the nearest-rank p95 is the maximum |
| TreeFraming.DigestTree | tools/airflow_provider_parse_benchmark_fixture.py:447-454 | The loop digests the concatenated records of the sorted files and counts bytes and files, or raises for a path or file too long to frame |
| TreeFraming.BigEndianRoundTrip | tools/airflow_provider_parse_benchmark_fixture.py:452 | The length prefixes decode to the lengths |
| TreeFraming.DecodeEncode | tools/airflow_provider_parse_benchmark_fixture.py:447-454 | The stream of records decodes to the very list of files it was made from |
| TreeFraming.FramingInjective | tools/airflow_provider_parse_benchmark_fixture.py:447-454 | Equal streams come from equal lists of files |
| TreeFraming.DigestIdentifiesTree | tools/airflow_provider_parse_benchmark_fixture.py:447-454 | With a collision-free hash two trees have the same digest exactly when they hold the same files, however they are listed |
| TreeFraming.EncodesExactly | tools/airflow_provider_parse_benchmark_fixture.py:452 | Framing succeeds exactly for path lengths below 2^32 and sizes below 2^64 |
| TreeOrder.PathOrderExactly | tools/airflow_provider_parse_benchmark_fixture.py:449 | Paths are compared by their components, split at the slashes |
| TreeOrder.OrderExample | tools/airflow_provider_parse_benchmark_fixture.py:449 | The file `a/b` comes before `a-b` |
| TreeOrder.HighestFirst | tools/airflow_provider_parse_benchmark_fixture.py:452 | The first byte of a length prefix counts for most |
| TreeOrder.RecordExactly | tools/airflow_provider_parse_benchmark_fixture.py:452 | A record is the four-byte length, the path, the eight-byte length and the content, at these places |
| TreeOrder.TotalExactly | tools/airflow_provider_parse_benchmark_fixture.py:453 | The byte count is the length of all contents together |
| Tripwire.ParseSideEffectTripwire.constructor | tools/airflow_provider_parse_benchmark_tripwire.py:82-86 | Nothing entered, armed, counted or touched |
| Tripwire.ParseSideEffectTripwire.SetDefault | tools/airflow_provider_parse_benchmark_tripwire.py:136-145 | A probe's record is made once and kept |
| Tripwire.ParseSideEffectTripwire.EnterPatch | tools/airflow_provider_parse_benchmark_tripwire.py:157 | The attribute holds the stub; the stack remembers what it held and whether the owner itself held it |
| Tripwire.ParseSideEffectTripwire.Arm | tools/airflow_provider_parse_benchmark_tripwire.py:122-161 | The whole new state; raises exactly when not entered; the result says whether the attribute is there or the probe is armed already |
| Tripwire.ParseSideEffectTripwire.RecordMissing | tools/airflow_provider_parse_benchmark_tripwire.py:223-233 | A missing candidate is recorded, with its category as it stands |
| Tripwire.ParseSideEffectTripwire.Enter | tools/airflow_provider_parse_benchmark_tripwire.py:88-111 | Entering arms the five fixed probes in order |
| Tripwire.ParseSideEffectTripwire.ArmInstalledEnvironment | tools/airflow_provider_parse_benchmark_tripwire.py:163-182 | Every candidate is armed on its owner or recorded as missing, in order; not entered, it stops by raising at the first candidate with an owner |
| Tripwire.ParseSideEffectTripwire.Call | tools/airflow_provider_parse_benchmark_tripwire.py:152-155 | A call that runs into a stub is blocked and counts one for its probe; any other call changes nothing |
| ForbiddenImports.SegmentExactly | tools/airflow_provider_parse_benchmark_support.py:142 | The segments of a module name are the texts without dots that stand between dots or its ends |
| ForbiddenImports.ForbiddenExactly | tools/airflow_provider_parse_benchmark_support.py:137-143 | A module is forbidden exactly when vault_kv_client, cache_sync or cache_refresh stands between its dots or ends, or .cache.refresh anywhere |
| ForbiddenImports.ForbiddenParseImports | tools/airflow_provider_parse_benchmark_support.py:137-143 | Exactly the newly imported forbidden modules, sorted and each once |
| Tripwire.ParseSideEffectTripwire.RecordForbiddenImports | tools/airflow_provider_parse_benchmark_tripwire.py:184-187 | The recorded imports become exactly the newly imported forbidden modules, sorted; nothing else changes |
| Tripwire.ParseSideEffectTripwire.Exit | tools/airflow_provider_parse_benchmark_tripwire.py:113-120 | The patches are undone last to first and the stack is empty |
| Tripwire.ParseSideEffectTripwire.MakeReport | tools/airflow_provider_parse_benchmark_tripwire.py:189-221 | The whole report: coverage of the groups, the four counters, the probe table, the forbidden imports and the verdict; the rows of TripwireCoverage, TripwireReport and TripwireCounters say what each means |
| TripwireRestore.ExitRestores | tools/airflow_provider_parse_benchmark_tripwire.py:113-161 | After any sequence of operations the exit puts every patched attribute back to what it was before it was first patched, inherited ones to not being the owner's own, and keeps every other assignment |
| TripwireRestore.ExitRestoresAll | tools/airflow_provider_parse_benchmark_tripwire.py:113-161 | Without assignments from outside nothing at all has changed |
| TripwireRestore.AlwaysConsistent | tools/airflow_provider_parse_benchmark_tripwire.py:136-161 | At all times a probe is armed exactly when its number of bindings is positive, and that is the number of bindings recorded for it |
| TripwireRestore.ArmReports | tools/airflow_provider_parse_benchmark_tripwire.py:146-161 | A probe is armed afterwards exactly when its attribute is there or it was armed before |
| TripwireRestore.ArmedIsBlocked | tools/airflow_provider_parse_benchmark_tripwire.py:152-161 | Until the exit, unless somebody assigns to a patched attribute, every call of an armed attribute is blocked |
| TripwireReport.CallsConserved | tools/airflow_provider_parse_benchmark_tripwire.py:203-207 | The counters, summed over any choice of categories, are the number of blocked calls of probes recorded under such a category |
| TripwireReport.AllCallsCounted | tools/airflow_provider_parse_benchmark_tripwire.py:152-155 | All counters together are the number of blocked calls |
| TripwireCoverage.SameCatalogue | tools/airflow_provider_parse_benchmark_tripwire.py:23-72 | The candidates and the table of required probes name the same ten probes in the same four groups, written out |
| TripwireCoverage.AttributesExactly | tools/airflow_provider_parse_benchmark_tripwire.py:56-111 | The attributes that the candidates replace, written out |
| TripwireCoverage.CoverageExactly | tools/airflow_provider_parse_benchmark_tripwire.py:192-202 | Coverage is complete exactly when every candidate's probe is armed, and a group is reported missing exactly when a probe of one of its candidates is not |
| TripwireCoverage.GroupsExactly | tools/airflow_provider_parse_benchmark_tripwire.py:192-202 | Every group of the catalogue is reported once, with its candidates' probes, those of them that are not armed, and whether there are none |
| TripwireCounters.SessionsCatalogued | tools/airflow_provider_parse_benchmark_tripwire.py:88-182 | Entering and arming the installed environment records probes of the catalogue alone, whatever the environment has |
| TripwireCounters.CountersExactly | tools/airflow_provider_parse_benchmark_tripwire.py:203-207 | The network, database and secret counters are the numbers of blocked calls of their nine probes, written out; the Kubernetes counter counts only when the probe was first recorded as missing |
| TripwireCounters.RecordedInGroup | tools/airflow_provider_parse_benchmark_tripwire.py:136-145 | A recorded probe of the catalogue is recorded in its own group |
| TripwireReport.StripsTrailingS | tools/airflow_provider_parse_benchmark_tripwire.py:135 | Exactly the letters s at the end of a category are taken |
| TripwireReport.ReportMeaning | tools/airflow_provider_parse_benchmark_tripwire.py:189-221 | A report passes exactly when the probe of every candidate is armed, no forbidden module came in, and no blocked call was of a probe recorded under a reported category |
| TripwireReport.ReportLists | tools/airflow_provider_parse_benchmark_tripwire.py:194-218 | The report lists every recorded probe once, by name, and the forbidden modules |
| TripwireReport.RecordedCategory | tools/airflow_provider_parse_benchmark_tripwire.py:135-145 | A probe keeps the group and the category of its first recording, the category stripped of trailing letters s if that was by `arm` |
| TripwireReport.PassingExactly | tools/airflow_provider_parse_benchmark_tripwire.py:189-221 | Over the catalogue's probes a report passes exactly when the probe of every candidate is armed, no forbidden module came in, and the only blocked calls were of the Kubernetes probe, first recorded by `arm` |
| TripwireReport.BlindSpot | tools/airflow_provider_parse_benchmark_tripwire.py:203-210 | In every environment with all candidates a session that calls the Kubernetes API once blocks that call and passes, with a Kubernetes counter of zero |
| Topology.ObservedEdges | tools/airflow_provider_parse_benchmark_worker.py:136-149 | The edges declared at either end, sorted and each once; raises exactly when one leaves the DAG |
| TopologyRecords.EdgesExactly | tools/airflow_provider_parse_benchmark_worker.py:136-149 | An edge is one that a task declares downstream or its other end upstream |
| TopologyRecords.PairsExactly | tools/airflow_provider_parse_benchmark_worker.py:125-129 | Of a contract's edges exactly those count that are pairs |
| Topology.InspectDag | tools/airflow_provider_parse_benchmark_worker.py:31-46 | The first check a DAG fails, in order, or its record, equal to the contract's |
| Topology.InspectParseTopology | tools/airflow_provider_parse_benchmark_worker.py:19-65 | The namespace check, then the DAGs in order of identity, then the summary; the final digest comparison never fails |
| Topology.MatchesExactly | tools/airflow_provider_parse_benchmark_worker.py:38-43 | A DAG passes its checks exactly when its task IDs (not empty, each once), fingerprint and edges are those of a duplicate-free authority that keeps its edges within its tasks |
| TopologyRecords.DagErrorsInOrder | tools/airflow_provider_parse_benchmark_worker.py:31-46 | The first of the checks that a DAG fails decides the error: an edge that leaves it, no tasks, other task IDs, another fingerprint, other edges |
| Topology.ExactTopology | tools/airflow_provider_parse_benchmark_worker.py:19-65 | Acceptance holds exactly when the DAG identities agree and every DAG is the one its authority describes |
| TopologyRecords.NormalizedExactly | tools/airflow_provider_parse_benchmark_support.py:513-531 | Normalising keeps every record, with its task IDs and edges sorted, and sorts the records by DAG |
| TopologyRecords.SummaryCounts | tools/airflow_provider_parse_benchmark_support.py:162-163 | The summary counts the DAGs and all their tasks |
| TopologyRecords.SummaryDigests | tools/airflow_provider_parse_benchmark_support.py:152-171 | With a collision-free digest each digest of the summary agrees for two parses exactly when their normalised records agree in the DAG identities and in what it is about |
| TopologyAuthority.ReadTasks | tools/airflow_provider_parse_benchmark_worker.py:98-104 | The dictionary of tasks has as many entries as there are nodes exactly when all nodes are well formed and distinct |
| TopologyAuthority.DeclareEdges | tools/airflow_provider_parse_benchmark_worker.py:107-113 | The declared edges, in order, or an error exactly when an end is no node |
| TopologyAuthority.TopologyRecord | tools/airflow_provider_parse_benchmark_worker.py:89-114 | A record is made exactly for a well-formed spec, with sorted tasks and edges; which error otherwise |
| TopologyRecords.AuthorityTasks | tools/airflow_provider_parse_benchmark_worker.py:98-104 | The task IDs of an authority are the workloads of the spec's nodes with __dpone_runtime appended, as many as nodes, sorted |
| TopologyRecords.AuthorityEdges | tools/airflow_provider_parse_benchmark_worker.py:107-114 | Its edges are exactly those between the tasks of the nodes that the spec's edges name, upstream first, as many as the spec has, sorted |
| TopologyAuthority.SatisfiableExactly | tools/airflow_provider_parse_benchmark_worker.py:38-43 | Some DAG matches an authority exactly when it lists at least one task, each once, and each edge once and within the tasks |
| TopologyAuthority.SatisfiableSpec | tools/airflow_provider_parse_benchmark_worker.py:89-114 | A spec can be met by some parse exactly when it has nodes, no two on one workload, and no edge twice |
| TopologyAuthority.SharedWorkloadNeverAccepted | tools/airflow_provider_parse_benchmark_worker.py:40 | A contract with a spec that has two nodes on one workload is never met |
| TopologyAuthority.SharedSpecExample | tools/airflow_provider_parse_benchmark_worker.py:98-114 | A spec with two nodes on one workload for which a record is made that nothing satisfies |
| TopologyAuthority.SameDigestSameTopology | tools/airflow_provider_parse_benchmark_support.py:152-171 | With a collision-free digest the topology digests of two parses agree exactly when their normalised records do |

## Left out

- InventorySnapshot.ScanCandidateDirectory: when the directory changes or a call fails during the scan, which blockers come out is not stated, only that there are some or that the snapshot property holds.
- InventoryHash.HashEntry: which check failed when there is no digest is not stated (the source does not tell either), and a digest is promised only when the name shows its metadata during the whole call and no call fails.
- InventoryRevalidation.RevalidateCandidateInventory: the initial report is any report; StableWindow and HandoffExactly are about initial reports that an evaluation made.
- Partitions.CertificateCoversRange: when the sums over the whole range do not fit 64 bits, agreement is stated modulo 2^64, because the target's sum wraps around and the source's query raises.
- DurationBudget.BudgetMeaning: the fraction 0.95 is the rational 19/20 and samples are real numbers; floating-point rounding of the rank and of the reported seconds is not modelled.
- Tripwire.ParseSideEffectTripwire.Enter: one session of entering and leaving; re-entering a used tripwire is not modelled.
- The text of blockers with its hashed references, and the removal of blockers that coincide after hashing: blockers are values that carry the names themselves.
- InventoryRelease.Decide: what the network checks of a release ask, exceptions they raise and the rendering of reports are not modelled; a check takes any time and passes or not.
- Partitions.ObservePartitions: the count_and_checksum profile only, in which the sample, full and typed hashes of an observation are absent.
- Wheel and sdist filename parsing inside the packaging library: two arbitrary functions, called only for the three suffixes.
- An exception from a hash factory, and failures of closing a descriptor.
- Receipts whose JSON fields have other types than expected, and node IDs that cannot be encoded as UTF-8: fields are missing or well typed, the hash takes any text.
- Command lines, and reading and writing of files.
- Rows without an id or customer id, an overflow of an intermediate sum, the text form of a checksum, the duplicate and failed-partition counts; the rows of the table do not change between the queries.
- Attributes that the code under parse deletes, attributes computed by `__getattr__` or descriptors, and the five special names that patching always restores: attributes are entries of the owner and of its bases.
- Code that importing a candidate's module runs: it can call and assign attributes as any code under parse can, before and after the arming as a whole, not between two candidates.
- Constant fields of evidence and reports, and the aggregation over worker processes.
- TreeFraming.DigestTree: walking the tree and reading its files is not modelled; the files are given, in any order.
- Topology fingerprints that are not strings, task attributes of other types, edges of a contract that are not lists, the canonical JSON text under the digests, and loading the index: the digest takes the JSON value.
- Live smokes, the Kafka matrix, stress harnesses, container runners, campaign checks and schema generation: they do input and output against databases, brokers and containers, or are conjunctions that one reading settles.
