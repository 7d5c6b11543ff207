# rsolve: publication, resolution, lock and cache

rsolve resolves R package dependencies with PubGrub, records the result in a lock, keeps
source archives in a content-addressed cache, and publishes a project repository under
`.rsolve`. This project models the parts of it on which the rest relies, and proves what
they promise.

- **Publication** (`Publication`, `Transactions`, `CrashSafety`, `CrashRecovery`). The
  class `Workspace` holds the names in `.rsolve`: marker, marker temporaries, state, state
  temporaries, staging trees, repository. Each rename, write or removal is one step that a
  fault plan may stop before or after, and `Materialize` and `Recover` are proved to obey
  a transition relation. Safety and recovery are theorems about every sequence of runs.
- **Resolution** (`Requests`, `SolverAnswers`, `Adapter`, `SolverSoundness`,
  `SolverCompleteness`, `SolverProjection`, `SolverGuarantees`). The class `Provider` is
  the solver-facing adapter with its interner and cache. PubGrub is represented by its
  contract: each chosen version was offered, its dependencies were available, and every
  emitted pair of package and range holds. Solutions and closed choices of the package
  domain are proved to be the same thing.
- **Candidates** (`Encoding`, `MetadataDigest`, `Distributions`, `Candidates`,
  `CandidateMerge`). What a candidate knows is a value in a partial join; merging is
  proved to be that join, over an injective key of distributions, and the metadata digest
  is proved to see exactly the semantic content of a release.
- **Lock** (`Locks`, `LockNormal`, `LockBuilding`, `LockGraph`, `ConstraintText`, `Wire`).
  Normal forms, consumption by a depth-first search over possibly cyclic graphs, and the
  records that drop and rebuild version information.
- **Cache** (`Descriptors`, `Cache`). Commits and probes with failures at any file
  operation, against a consistency invariant with a ghost history of what was committed.
- **Texts** (`Versions`, `GitUrl`, `PackagesText`). R versions, Git URLs and dependency
  fields.

`Prelude`, `Text` and `Domain` hold shared definitions: insertion sort and deduplication,
string splitting, and the values of the package domain.

Rust's `==` on versions ignores spelling and trailing zeros. Here a value is mapped to a
representative (`Canon`, `CanonIdentity`, `CanonPackage` and so on), and Rust's equality
is equality of representatives. Byte strings are strings whose characters are bytes.

## Where the code promises less than it seems

Each of these is stated with its exact condition.

- A run that dies between creating and filling its marker temporary leaves a publication
  that every later run refuses, although the staging tree and the state temporary are
  complete (`CrashRecovery.TornMarkerCanHappen`, `CrashRecovery.TornMarkerRefused`). After
  an I/O error on the marker temporary or its rename the clean-up drops the state
  temporary and then the staging tree; a crash or a further error inside it leaves a lone
  staging tree, or a state temporary beside a damaged one, and these are refused for ever
  as well. `CrashRecovery.DebrisDecided` and `CrashRecovery.PublicationDecided` say exactly
  which directories are stuck; from all others that runs of one request can leave, the
  next undisturbed run publishes it.
- Canonical version texts decide equality for versions of two components or more; `1` and
  `1.0` are equal and have different texts (`Versions.CanonicalVersionDecides`,
  `Versions.OneComponentCounterexample`).
- A locked package with a one-component version reads back only if its published spelling
  is kept and is not canonical (`Wire.PackageRoundTrip`).
- A dependency field with a one-component version is rendered but not parsed
  (`PackagesText.FieldRoundTrip`).

## Model

| member | source | states |
|---|---|---|
| Publication.CanonicalOrder | crates/rsolve-repository/src/materialization.rs:471-486 | Sorting a selection of distinct packages keeps exactly its artifacts, and the index rows come out in one order however the selection is listed. |
| Publication.IndexOfCanonical | crates/rsolve-repository/src/packages.rs:33-50 | The PACKAGES bytes are the same for a selection and for its canonical order. |
| Publication.ValidateInputs | crates/rsolve-repository/src/materialization.rs:418-469 | Inputs pass exactly when packages and destinations are distinct, names and versions are proper, no object is empty and versioned provenances name the artifact's version; otherwise the fault is that of the first artifact that cannot follow those before it, in the order of the checks. |
| Publication.IdentityKeyNamesPackage | crates/rsolve-repository/src/materialization.rs:639-690 | The package name can be read back from the identity key of every provenance. |
| Transactions.RecoveryCleans | crates/rsolve-repository/src/transaction.rs:24-162 | A recovery that succeeds leaves no marker, temporaries or staging; it changed nothing or there is a repository. |
| Transactions.Workspace.WriteMarkerTemp | crates/rsolve-repository/src/state.rs:31-58 | Writing a marker temporary can be cut between creating and filling it, which leaves it torn. |
| Transactions.Workspace.VerifyCacheObject | crates/rsolve-repository/src/materialization.rs:532-570 | The chunked read accepts exactly the regular objects of the recorded size and digest. |
| Transactions.Workspace.MaterializeFiles | crates/rsolve-repository/src/materialization.rs:491-530 | Success means every cache object was valid and the staging tree holds exactly the selected archives; only an invalid object or an interruption fails it. |
| Transactions.Workspace.WriteIndex | crates/rsolve-repository/src/materialization.rs:292-315 | After an uninterrupted write the staging tree is the archives plus the index. |
| Transactions.Workspace.PlaceMarker | crates/rsolve-repository/src/transaction.rs:240-253 | The marker ends in place with its temporary gone, or as it was with at most a torn or whole temporary beside it. |
| Transactions.Workspace.Reconstruct | crates/rsolve-repository/src/transaction.rs:175-255 | Without debris nothing happens; with debris either the exact refusal of the orphan checks and no change, or a marker for the request, or an interruption at a named point. |
| Transactions.Workspace.PublishRepository | crates/rsolve-repository/src/transaction.rs:119-141 | The staging tree becomes the repository unless one is there; nothing else changes. |
| Transactions.Workspace.PublishState | crates/rsolve-repository/src/transaction.rs:142-155 | The state temporary becomes the state unless one is there; nothing else changes. |
| Transactions.Workspace.RecoverMarked | crates/rsolve-repository/src/transaction.rs:52-162 | With a marker the outcome and the new directory are those of the transition relation that the safety and recovery theorems are about. |
| Transactions.Workspace.Recover | crates/rsolve-repository/src/transaction.rs:24-162 | From any directory the outcome and the new directory obey the recovery relation; the measure shows that it calls itself at most once. |
| Transactions.Workspace.Prepare | crates/rsolve-repository/src/materialization.rs:328-375 | From a complete staging tree: the marked state, or an interruption that leaves the run's own debris or a resumable publication. |
| Transactions.Workspace.PublishPrepared | crates/rsolve-repository/src/materialization.rs:377-415 | From the marked state: the committed state, or an interruption that is resumable. |
| Transactions.Workspace.Build | crates/rsolve-repository/src/materialization.rs:277-415 | A run from nothing obeys the transition relation of building and publishing, stopped anywhere. |
| Transactions.Workspace.Materialize | crates/rsolve-repository/src/materialization.rs:219-415 | One run from any directory, stopped after any step, obeys the transition relation of runs. |
| CrashSafety.PlannedContentsValid | crates/rsolve-repository/src/materialization.rs:277-327 | What a run plans to publish passes the contents check that a later run makes. |
| CrashSafety.RunKeepsSafe | crates/rsolve-repository/src/materialization.rs:328-415 | One run keeps "state implies a repository that matches its records and index digest", and changes neither once there is a state. |
| CrashSafety.CommittedStateIsForever | crates/rsolve-repository/src/transaction.rs:119-158 | Over every sequence of runs with any requests, each stopped anywhere, a committed state describes its repository and neither ever changes. |
| CrashSafety.ConflictChangesNothing | crates/rsolve-repository/src/transaction.rs:52-118 | A recovery that ends in a conflict leaves state, repository, state temporaries and staging as they were, from any directory. |
| CrashSafety.RecoveryPublishesTheRequest | crates/rsolve-repository/src/transaction.rs:119-141 | Whatever recovery publishes was first validated against records and an index digest that match the request, and an existing repository is never replaced. |
| CrashRecovery.MarkedResumes | crates/rsolve-repository/src/transaction.rs:119-162 | From the marked, exposed or stated point a recovery commits, or is interrupted and resumable. |
| CrashRecovery.RecoveryResumes | crates/rsolve-repository/src/transaction.rs:24-162 | A recovery of a resumable publication commits it, or is interrupted with it resumable, or died inside the marker temporary. |
| CrashRecovery.CommittedAccepted | crates/rsolve-repository/src/materialization.rs:248-272 | The same request over its own committed publication is a validated no-op that returns its state. |
| CrashRecovery.TornMarkerRefused | crates/rsolve-repository/src/transaction.rs:175-255 | A torn marker temporary is refused by every later run of every request, and nothing changes any more. |
| CrashRecovery.TornMarkerCanHappen | crates/rsolve-repository/src/materialization.rs:350-355 | A run of the model's own `Materialize`, under a plan that kills it inside the marker temporary, leaves exactly that beside a complete staging tree and state temporary, for every request that can be built. |
| CrashRecovery.UnpreparedRefused | crates/rsolve-repository/src/transaction.rs:185-190 | Temporaries without a complete state temporary or without staging are refused by every later run and left unchanged, whatever the digests. |
| CrashRecovery.StuckIsRefused | crates/rsolve-repository/src/transaction.rs:175-255 | So are all temporaries of a run that do not make up its publication, a whole state temporary beside a damaged staging tree included. |
| CrashRecovery.DebrisDecided | crates/rsolve-repository/src/transaction.rs:175-255 | Temporaries left before the marker is in place are completed by the next undisturbed run of the request if and only if they make up the publication, and otherwise refused and unchanged. |
| Transactions.GeneratedAreSafe | crates/rsolve-repository/src/transaction.rs:304-311 | Temporary names made from nonces pass the name checks of a later run. |
| CrashRecovery.InterruptedRunsResume | crates/rsolve-repository/src/transaction.rs:175-255 | Any number of interrupted runs of the same request keeps a prepared publication resumable or torn. |
| CrashRecovery.UndisturbedRun | crates/rsolve-repository/src/materialization.rs:219-415 | An undisturbed run from nothing commits the planned state and repository. |
| CrashRecovery.StoppedAfterPreparation | crates/rsolve-repository/src/materialization.rs:328-415 | What a first run leaves once prepared is resumable or torn. |
| CrashRecovery.CrashedPublicationCompletes | crates/rsolve-repository/src/transaction.rs:24-162 | A prepared first run, then any interrupted runs, then one undisturbed run ends with the state and repository of the undisturbed first run and no leftovers, exactly unless a torn marker temporary is there before that last run. |
| CrashRecovery.PublicationDecided | crates/rsolve-repository/src/materialization.rs:219-415 | From an empty directory, after any runs of one request stopped anywhere, an undisturbed run publishes the request and leaves nothing else, unless it finds stuck temporaries, and then it is refused and changes nothing. |
| Versions.ParseWithMinimum | crates/rsolve-core/src/r_versions.rs:119-155 | The character loop decides the grammar of versions with a minimum number of components, with the same value or error. |
| Versions.Components.FromVec | crates/rsolve-core/src/r_versions.rs:31-42 | Inline and spilled storage represent the same components. |
| Versions.Components.CanonicalLen | crates/rsolve-core/src/r_versions.rs:61-67 | The loop finds where the trailing zeros begin. |
| Versions.ComponentMeaning | crates/rsolve-core/src/r_versions.rs:119-155 | A component is accepted exactly when its digits have a value below 2^32, and reads as that value. |
| Versions.ValidSpelling | crates/rsolve-core/src/r_versions.rs:119-155 | Accepted spellings hold digits, periods and hyphens only and start and end with a digit. |
| Versions.ComparisonIsPadded | crates/rsolve-core/src/r_versions.rs:192-200 | Comparison is comparison of the zero-padded component sequences, whichever way they are stored. |
| Versions.EqualityAgreesWithHash | crates/rsolve-core/src/r_versions.rs:178-211 | Versions are equal exactly when they feed the hasher the same input. |
| Versions.SameIsKeyEquality | crates/rsolve-core/src/r_versions.rs:178-200 | Equality is equality of the trimmed components, and comparison is antisymmetric. |
| Versions.CanonicalVersionText | crates/rsolve/src/lock.rs:1207-1217 | The popping loop produces the specified canonical spelling. |
| Versions.CanonicalVersionParses | crates/rsolve/src/lock.rs:1207-1217 | The canonical spelling parses to an equal version that is spelled canonically already. |
| Versions.CanonicalVersionDecides | crates/rsolve/src/lock.rs:1207-1217 | Canonical spellings are equal exactly when the versions are, up to an exact condition on one-component versions; with two components it is plain equality. |
| Versions.OneComponentCounterexample | crates/rsolve/src/lock.rs:1207-1217 | Equal versions of one and of two components have different canonical spellings. |
| Domain.CanonIsSame | crates/rsolve-core/src/r_versions.rs:178-211 | The representative of a version's equality class is unique and stable. |
| Domain.SatisfiesUpToSpelling | crates/rsolve-core/src/r_versions.rs:178-200 | Whether a version satisfies a constraint does not depend on the spelling of either. |
| Encoding.DelimitedPrefix | crates/rsolve-core/src/metadata/digest.rs:176-179 | A length-delimited value can be read back from the front of any buffer. |
| Encoding.DelimitedListPrefix | crates/rsolve-core/src/metadata/digest.rs:31-34 | So can a counted list of such values. |
| Encoding.SortDedupDecides | crates/rsolve-core/src/metadata/digest.rs:25-30 | Sorting and deduplicating byte records forgets order and repetition and nothing else. |
| Encoding.FieldPrefix | crates/rsolve-core/src/identity.rs:186-190 | A tagged length-delimited key field can be read back from the front of a key. |
| MetadataDigest.Encoder.AppendIdentity | crates/rsolve-core/src/metadata/digest.rs:111-149 | Appends exactly the specified encoding of an identity. |
| MetadataDigest.Encoder.AppendProvenance | crates/rsolve-core/src/metadata/digest.rs:111-149 | Appends exactly the specified encoding of any provenance. |
| MetadataDigest.Encoder.AppendSource | crates/rsolve-core/src/metadata/digest.rs:84-109 | Appends exactly the specified encoding of a source constraint. |
| MetadataDigest.Encoder.AppendComponents | crates/rsolve-core/src/metadata/digest.rs:168-174 | Appends every canonical component of a version. |
| MetadataDigest.Encoder.AppendList | crates/rsolve-core/src/metadata/digest.rs:31-34 | Appends the count and each delimited record. |
| MetadataDigest.DependencyRecords | crates/rsolve-core/src/metadata/digest.rs:25-30 | The record of every dependency, in order. |
| MetadataDigest.CanonicalMetadata | crates/rsolve-core/src/metadata/digest.rs:15-36 | The imperative encoder produces the specified bytes. |
| MetadataDigest.ClauseSetsDecided | crates/rsolve-core/src/metadata/digest.rs:56-80 | Sorted and deduplicated clause records are equal exactly when the constraints are equal as sets of clauses. |
| MetadataDigest.DependencyDecided | crates/rsolve-core/src/metadata/digest.rs:45-82 | Two dependency records are equal exactly when kind, name, source and clause set are, up to version spelling. |
| MetadataDigest.DependencySetsDecided | crates/rsolve-core/src/metadata/digest.rs:25-34 | Sorted and deduplicated dependency records are equal exactly when the dependencies are equal as sets. |
| MetadataDigest.MetadataBytesDecide | crates/rsolve-core/src/metadata/digest.rs:15-183 | Two releases feed the digest the same bytes if and only if identities and versions are semantically equal and dependencies are equal as sets. |
| Distributions.DistributionKeyBytes | crates/rsolve-core/src/identity.rs:116-184 | The nested appending loops produce the specified key. |
| Distributions.DistributionKeyInjective | crates/rsolve-core/src/identity.rs:116-190 | Two distributions have one key exactly when they are equal. |
| Distributions.CanonicalizeFacts | crates/rsolve-core/src/identity.rs:103-114 | Canonicalising a list sorts it strictly by key and keeps exactly its members. |
| Distributions.CanonicalListDecided | crates/rsolve-core/src/identity.rs:103-114 | Canonical lists are equal exactly when they hold the same distributions. |
| Candidates.MergeDistributions | crates/rsolve-core/src/metadata/aggregation.rs:48-55 | The pushing loop followed by canonicalisation equals its specification. |
| Candidates.MergedDistributionsFacts | crates/rsolve-core/src/metadata/aggregation.rs:48-55 | Merging lists what either side lists, once, in canonical order, whichever way it is done. |
| Candidates.GroupOccurrences | crates/rsolve-core/src/candidates.rs:338-374 | The draining loop groups sorted occurrences as specified, with the same error. |
| Candidates.GroupAllFacts | crates/rsolve-core/src/candidates.rs:347-365 | Grouping succeeds when no repository contradicts itself, keeps all knowledge and leaves one entry per repository. |
| Candidates.NormalizedOccurrences | crates/rsolve-core/src/candidates.rs:338-374 | Normalising occurrences succeeds exactly when every repository says one thing, and keeps exactly what they say. |
| Candidates.JoinIsLeastUpperBound | crates/rsolve-core/src/candidates.rs:310-330 | Joining the facts of two candidates is their least upper bound. |
| Candidates.ConsistentIffBounded | crates/rsolve-core/src/candidates.rs:310-330 | Facts are consistent exactly when some contradiction-free facts extend both. |
| CandidateMerge.ReleasesMerge | crates/rsolve-core/src/metadata/aggregation.rs:57-88 | Releases of one identity merge exactly when they agree on version, metadata, dependencies and on known publication dates; the merge knows the date either knows. |
| CandidateMerge.ValidatedIsBacked | crates/rsolve-core/src/candidates.rs:376-404 | The final checks accept exactly the candidates whose occurrences list distributions of the release and, unless exposed otherwise, have an occurrence for the candidate and for every distribution. |
| CandidateMerge.NormalizedFacts | crates/rsolve-core/src/candidates.rs:332-405 | Building a candidate succeeds exactly under three stated conditions and neither adds nor loses knowledge. |
| CandidateMerge.MergeIsJoin | crates/rsolve-core/src/candidates.rs:310-330 | Two valid candidates merge exactly when their facts are consistent; the result is valid and knows exactly the join. |
| CandidateMerge.FactsDetermine | crates/rsolve-core/src/candidates.rs:297-306 | Valid candidates with the same facts are the same up to version spelling. |
| CandidateMerge.MergeIsIdempotent | crates/rsolve-core/src/candidates.rs:310-330 | Merging a candidate with one that knows the same changes nothing. |
| CandidateMerge.MergeIsCommutative | crates/rsolve-core/src/candidates.rs:310-330 | Both orders fail together or agree. |
| CandidateMerge.MergeIsAssociative | crates/rsolve-core/src/candidates.rs:310-330 | Both groupings of three candidates fail together or agree. |
| CandidateMerge.PreparedCandidateSet.Insert | crates/rsolve-core/src/candidates.rs:441-453 | Inserting merges with the entry of the identity, or reports the error and leaves the set unchanged. |
| CandidateMerge.PreparedCandidateSet.InsertAll | crates/rsolve-core/src/candidates.rs:455-465 | Inserting one by one computes the specified union or fails with it. |
| CandidateMerge.FromCandidatesGathers | crates/rsolve-core/src/candidates.rs:455-465 | Collecting succeeds exactly when members of one identity are pairwise consistent, and holds the gathered facts of each. |
| CandidateMerge.GatheredIsLeast | crates/rsolve-core/src/candidates.rs:455-465 | Gathered facts are the least upper bound of the members' facts. |
| CandidateMerge.ArrivalOrderIrrelevant | crates/rsolve-core/src/candidates.rs:455-465 | Every arrival order, with any repetition, succeeds alike and gives every identity the same facts. |
| Requests.EdgesUpToSpelling | crates/rsolve-resolver/src/lib.rs:28-49 | Releases that declare the same up to spelling project to the same edges up to spelling. |
| Requests.HardEdgesStay | crates/rsolve-resolver/src/lib.rs:28-49 | Asking for suggestions only adds edges. |
| Requests.EligibleIsCovered | crates/rsolve-core/src/candidates.rs:263-281 | An eligible candidate is of the subject's name and provenance, and available where a repository subject asks for it. |
| Requests.SubjectUpToSpelling | crates/rsolve-resolver/src/adapter.rs:396-443 | Requirements that differ in spelling only have the same subject. |
| Requests.SubjectNamesPackage | crates/rsolve-resolver/src/adapter.rs:396-443 | The subject of a requirement names its package, and "R" names R itself. |
| SolverAnswers.ViewFacts | crates/rsolve-resolver/src/adapter.rs:211-260 | A loaded view lists valid candidates that are eligible for the subject, one for each identity. |
| SolverAnswers.DependenciesStay | crates/rsolve-resolver/src/adapter.rs:650-725 | An answered dependency query has the same answer for the rest of the solve. |
| SolverAnswers.ChooseStays | crates/rsolve-resolver/src/adapter.rs:614-648 | So has an answered choice. |
| Adapter.InternKeeps | crates/rsolve-resolver/src/adapter.rs:151-185 | Interning keeps identifiers and identities one to one, never renames, and never loses a candidate. |
| Adapter.Provider.Intern | crates/rsolve-resolver/src/adapter.rs:155-185 | The new tables and the identifier, or the conflict, are those of the specification. |
| Adapter.Provider.Unify | crates/rsolve-resolver/src/adapter.rs:220-235 | Releases of one identity are merged in arrival order. |
| Adapter.Provider.Prepare | crates/rsolve-resolver/src/adapter.rs:211-260 | What is cached for a subject represents its view under the identifiers given out. |
| Adapter.Provider.Load | crates/rsolve-resolver/src/adapter.rs:211-260 | A subject is loaded at most once and tables only grow. |
| Adapter.Provider.CandidateForId | crates/rsolve-resolver/src/adapter.rs:277-297 | The view's candidate for an identifier, or the load error. |
| Adapter.Provider.RangeFor | crates/rsolve-resolver/src/adapter.rs:344-394 | The singleton R range or the set of matching identifiers, or the quarantine error. |
| Adapter.Provider.GetDependencies | crates/rsolve-resolver/src/adapter.rs:650-725 | Every answer is the specified one, for Root, R, reservations and subjects. |
| Adapter.Provider.IdsForName | crates/rsolve-resolver/src/adapter.rs:187-192 | Exactly the interned identifiers of a name, in the order of their sort keys. |
| Adapter.Provider.ChooseOccupant | crates/rsolve-resolver/src/adapter.rs:632-646 | The identifier in range whose identity sorts first, or none when there is none. |
| Adapter.Provider.ChooseForSubject | crates/rsolve-resolver/src/adapter.rs:614-648 | The choice for a subject is the specified one. |
| Adapter.Provider.ChooseVersion | crates/rsolve-resolver/src/adapter.rs:614-648 | Every package kind gets an allowed offer. |
| Adapter.Provider.Prioritize | crates/rsolve-resolver/src/adapter.rs:589-612 | The number of candidates in range, or the largest number after a failed load. |
| SolverSoundness.Replay | crates/rsolve-resolver/src/adapter.rs:581-725 | Whatever is asked in whatever order, every answer stays true of the final tables. |
| SolverSoundness.HonouredIsSolution | crates/rsolve-resolver/src/adapter.rs:581-725 | A run that keeps the solver's contract ends in a solution over the final tables. |
| SolverSoundness.OccupantOfferable | crates/rsolve-resolver/src/adapter.rs:632-646 | Asked for an interned identifier alone, the provider offers it for its installed name. |
| SolverSoundness.SolutionIsLoaded | crates/rsolve-resolver/src/adapter.rs:614-631 | Every selected subject had been loaded without failure. |
| SolverSoundness.SubjectSound | crates/rsolve-resolver/src/adapter.rs:650-725 | A selected subject's edges are met, it is not rejected by the cutoff, and it holds the reservation of its name. |
| SolverSoundness.SolutionIsClosed | crates/rsolve-resolver/src/adapter.rs:650-725 | Every solution stands for a closed choice: eligible candidates, one identity per installed name, edges, roots, R requirements, locks and cutoff all met. |
| SolverSoundness.SameNameSameCandidate | crates/rsolve-resolver/src/adapter.rs:898-940 | Two selected subjects of one installed name have one identity and the same facts, so the conflict branches are dead. |
| SolverCompleteness.ExpansionKnown | crates/rsolve-resolver/src/adapter.rs:316-342 | When every root has a subject the expansion of every subject is known, and is the suggesting one exactly when some root of the subject asks for it. |
| SolverCompleteness.ChosenIsOffered | crates/rsolve-resolver/src/adapter.rs:614-648 | An admitted and unrejected candidate is what the provider offers when asked for it alone. |
| SolverCompleteness.ClosedIsSolution | crates/rsolve-resolver/src/adapter.rs:356-443 | Every loaded closed choice extends by Root, R and reservations to an assignment that meets every emitted constraint and of which the provider offers every entry. |
| SolverCompleteness.EncodingIsExact | crates/rsolve-resolver/src/adapter.rs:650-725 | A loaded choice is closed if and only if its extension is a solution that stands for it. |
| SolverProjection.CollectedKeeps | crates/rsolve-resolver/src/adapter.rs:898-940 | While a solution is projected, neither the name conflict nor the failed merge can happen. |
| SolverProjection.RepositoriesFacts | crates/rsolve-resolver/src/adapter.rs:951-966 | A resolved package lists every repository that some of its subjects sees, once. |
| SolverProjection.Collect | crates/rsolve-resolver/src/adapter.rs:881-943 | The loop over the answer builds the specified entries. |
| SolverProjection.Solve | crates/rsolve-resolver/src/adapter.rs:864-971 | The projection of an answer is the specified outcome for some listing of the entries. |
| SolverProjection.SolutionIsReported | crates/rsolve-resolver/src/adapter.rs:864-971 | On every solution, in every order of listing, the projection succeeds and reports the closed choice. |
| SolverGuarantees.RunIsReported | crates/rsolve-resolver/src/adapter.rs:864-971 | Every run that keeps the solver's contract ends in a resolution that reports a closed choice. |
| SolverGuarantees.ReportRun | crates/rsolve-resolver/src/adapter.rs:878-971 | After such a run reporting loads nothing more and succeeds, since every selected subject was loaded when it was offered. |
| SolverGuarantees.EveryEdgeLeads | crates/rsolve-resolver/src/adapter.rs:878-970 | Every effective edge of every resolved package is met by R, by a package R supplies, or by a resolved package of that name, source and constraint; one that must come from a repository is available there and lists it. |
| SolverGuarantees.EveryRootLeads | crates/rsolve-resolver/src/adapter.rs:878-970 | So is every root, and the target R meets the request. |
| SolverGuarantees.OnePackagePerName | crates/rsolve-resolver/src/adapter.rs:881-943 | A resolution holds one package for each installed name. |
| SolverGuarantees.RequiredLockKept | crates/rsolve-resolver/src/adapter.rs:445-496 | A subject under a required lock gets exactly the locked identity. |
| SolverGuarantees.CutoffKept | crates/rsolve-resolver/src/adapter.rs:498-557 | With a cutoff every selected candidate is supplied by R, locked, or published on or before it. |
| SolverGuarantees.CutoffDrops | crates/rsolve-resolver/src/adapter.rs:498-533 | Choosing drops exactly the rejected candidates, unless all are rejected. |
| SolverGuarantees.OfferedWhen | crates/rsolve-resolver/src/adapter.rs:614-648 | A subject is offered a version exactly when the lock and the range leave one. |
| SolverGuarantees.RejectedOfferIsLastResort | crates/rsolve-resolver/src/adapter.rs:614-648 | The offer is rejected only if everything the lock and the range leave is. |
| SolverGuarantees.RejectedIsUnavailable | crates/rsolve-resolver/src/adapter.rs:687-692 | A rejected offer cannot be selected: its dependencies are unavailable. |
| SolverGuarantees.OfferIsPreferred | crates/rsolve-resolver/src/adapter.rs:559-579 | Under any preference that is an ordering, no eligible candidate is preferred to the offer. |
| SolverGuarantees.DefaultPreferenceOrders | crates/rsolve-resolver/src/lib.rs:217-279 | The default preference is an ordering. |
| SolverGuarantees.LockedIsOffered | crates/rsolve-resolver/src/lib.rs:233-273 | By default an eligible locked candidate is what is offered. |
| LockNormal.IdentityOrdering | crates/rsolve/src/lock.rs:1283-1353 | The comparison of identities is an ordering whose ties are exactly the semantically equal identities. |
| LockNormal.CanonicalEdgesFacts | crates/rsolve/src/lock.rs:1193-1196 | Canonical edges are strictly sorted and are exactly the edges. |
| LockNormal.CanonicalEdgesDecide | crates/rsolve/src/lock.rs:1193-1196 | Canonical edges are equal exactly when the edges are equal as sets. |
| LockNormal.CanonicalClausesFacts | crates/rsolve/src/manifest/compose.rs:350-360 | A canonical constraint keeps one of each clause, up to version spelling, strictly sorted. |
| LockNormal.CanonicalMeansTheSame | crates/rsolve/src/manifest/compose.rs:350-360 | Canonicalising a constraint does not change which versions satisfy it. |
| LockNormal.CanonicalTwice | crates/rsolve/src/manifest/compose.rs:350-360 | Canonicalising is idempotent. |
| LockNormal.UnrepeatedFacts | crates/rsolve/src/lock.rs:801-815 | Dropping repetitions keeps one record of each identity and fails exactly when two differ. |
| LockNormal.NormalizedWhen | crates/rsolve/src/lock.rs:791-819 | Normalising succeeds exactly on acceptable package lists and returns their strictly sorted normal form, with names and edges in order. |
| LockNormal.AcceptedWhen | crates/rsolve/src/lock.rs:398-411 | A lock is accepted exactly when its packages are acceptable and its R meets its own requirement. |
| LockNormal.NewLockIsIdempotent | crates/rsolve/src/lock.rs:398-411 | What the constructor returns it returns again unchanged. |
| LockNormal.NewLockIsCanonical | crates/rsolve/src/lock.rs:1104-1128 | What the constructor returns passes the check for canonical resolutions. |
| LockNormal.NewLockIgnoresListing | crates/rsolve/src/lock.rs:398-411 | Package order, edge order and exact repetition change neither acceptance nor, up to version spelling, the result. |
| LockBuilding.LockContents.CheckAndTidy | crates/rsolve/src/lock.rs:793-797 | Validates every record and leaves its edges canonical, or reports the first fault. |
| LockBuilding.LockContents.DropRepeats | crates/rsolve/src/lock.rs:798-815 | Leaves the sorted packages once each, or reports the conflict. |
| LockBuilding.LockContents.EnsureInstalledNames | crates/rsolve/src/lock.rs:1130-1145 | Reports exactly a name with two identities. |
| LockBuilding.LockContents.EnsureDependenciesExist | crates/rsolve/src/lock.rs:1147-1163 | Reports exactly the first dangling edge. |
| LockBuilding.LockContents.NormalizeContents | crates/rsolve/src/lock.rs:791-819 | In-place normalisation leaves the normal form or reports the specified error. |
| LockGraph.Marker.MarkReachable | crates/rsolve/src/lock.rs:1083-1102 | The depth-first search terminates on cyclic graphs, only adds names, and marks what the package reaches or names an edge of a reachable package that leads nowhere. |
| LockGraph.MarkedFromNothing | crates/rsolve/src/lock.rs:1083-1102 | Marked from nothing, a name is marked exactly when the package reaches it. |
| LockGraph.CheckVisible | crates/rsolve/src/lock.rs:682-718 | Passes exactly when every visible repository is configured, lets the package in, and they follow the configured order. |
| LockGraph.CheckRoot | crates/rsolve/src/lock.rs:727-753 | Passes exactly when the root is supplied by R at a satisfying version or is locked, satisfied and visible where asked. |
| LockGraph.MarkRoots | crates/rsolve/src/lock.rs:725-755 | Checks every root and reaches exactly what they reach, or a root fails or an edge dangles. |
| LockGraph.ReachedIsRequired | crates/rsolve/src/lock.rs:725-755 | What is reached from the roots is exactly the closure of the roots that R does not supply. |
| LockGraph.CheckReached | crates/rsolve/src/lock.rs:756-777 | Passes exactly when every package is reached and offered by a repository or asked for directly. |
| LockGraph.ConsumeRoots | crates/rsolve/src/lock.rs:646-785 | Succeeds exactly on consumable locks and returns the locked packages, R version, environment and cutoff. |
| LockGraph.ConsumedIsIndexed | crates/rsolve/src/lock.rs:720-724 | A consumed lock has one package for each name. |
| LockGraph.ConsumedIsClosure | crates/rsolve/src/lock.rs:720-778 | A fitting lock is consumable if and only if its names are the least set that holds the roots R does not supply and everything an edge of a held package names. |
| ConstraintText.ClauseParses | crates/rsolve/src/manifest/compose.rs:289-348 | A rendered clause parses to the same relation and an equal version that is rendered the same. |
| ConstraintText.RenderedSplits | crates/rsolve/src/wire.rs:658-681 | A rendered clause list splits at its commas into exactly its clauses. |
| ConstraintText.ConstraintRoundTrip | crates/rsolve/src/wire.rs:658-681 | Parsing a rendered constraint gives the canonical constraint up to spelling, and it is rendered the same again. |
| Wire.EdgesRoundTrip | crates/rsolve/src/wire.rs:499-519 | Dependency records decode to the edges they encode. |
| Wire.ProvenanceRoundTrip | crates/rsolve/src/wire.rs:555-625 | Provenance comes back equal, with its dropped version rebuilt from the package version. |
| Wire.RequestRoundTrip | crates/rsolve/src/wire.rs:316-390 | A requested Git source comes back equal. |
| Wire.VersionRoundTrip | crates/rsolve/src/wire.rs:237-314 | Version and published spelling read back exactly when the package is encodable: two components, or a kept non-canonical spelling. |
| Wire.ShortTextFails | crates/rsolve/src/wire.rs:646-656 | A one-component canonical text is refused on reading. |
| Wire.PackageRoundTrip | crates/rsolve/src/wire.rs:237-314 | A validated package decodes to an equal package if and only if it is encodable. |
| Wire.DecodedIsChecked | crates/rsolve/src/lock.rs:189-246 | A package that decodes to an equal one passes validation itself. |
| Wire.CanonicalBecomesLock | crates/rsolve/src/lock.rs:1104-1128 | A canonical resolution that is accepted becomes the lock as it is. |
| Wire.LockRoundTrip | crates/rsolve/src/wire.rs:139-235 | Encoding a valid lock succeeds, and decoding gives back a lock equal to what the constructor makes of it if and only if every package is encodable. |
| GitUrl.NormalizeComponent | crates/rsolve-core/src/names.rs:304-334 | The index loop reads a path and writes what it denotes, or fails with the same error. |
| GitUrl.ReadOfWrite | crates/rsolve-core/src/names.rs:304-334 | A written path reads back as the same path. |
| GitUrl.NormalPathDecides | crates/rsolve-core/src/names.rs:304-334 | Two paths normalise to one text exactly when they denote the same. |
| GitUrl.ParseIsValid | crates/rsolve-core/src/names.rs:172-295 | The parts of an accepted URL are canonical: lower-case scheme and host, no default port, valid host. |
| GitUrl.ParseOfPrint | crates/rsolve-core/src/names.rs:172-295 | Canonical parts print to a text that parses to the same parts. |
| GitUrl.NormalizeUrl | crates/rsolve-core/src/names.rs:172-221 | Returns the printed parts of an accepted URL, and the parse error otherwise. |
| GitUrl.NormalizedTwice | crates/rsolve-core/src/names.rs:172-221 | An accepted output is accepted again and returned unchanged. |
| GitUrl.NormalizedDecides | crates/rsolve-core/src/names.rs:172-221 | Two accepted URLs normalise to one text exactly when their parts are equal. |
| PackagesText.WriteField | crates/rsolve-repository/src/packages.rs:64-81 | The rendering loop produces the specified field or the duplicate error. |
| PackagesText.ReadField | crates/rsolve-provider/src/package_description.rs:330-350 | The parsing loop produces the specified entries or the first error. |
| PackagesText.EntryBack | crates/rsolve-provider/src/package_description.rs:234-286 | A rendered entry parses exactly when its version has two components, and then to exactly the entry. |
| PackagesText.FieldSplits | crates/rsolve-provider/src/package_description.rs:330-332 | A rendered field splits at its commas into exactly its entries. |
| PackagesText.FieldRoundTrip | crates/rsolve-repository/src/packages.rs:64-81 | A rendered field parses back to exactly its names and constraints in rendered order if and only if every version has two components; rendering sorts and loses nothing. |
| PackagesText.RenderedIsProper | crates/rsolve-repository/src/packages.rs:115-157 | Whatever is rendered satisfies the premises of the round trip, given valid names and versions. |
| Descriptors.ValidateChecksums | crates/rsolve-repository/src/metadata.rs:14-72 | The loop over declarations computes the specified checksums or error. |
| Descriptors.DeclaredFacts | crates/rsolve-repository/src/metadata.rs:14-62 | Accepted declarations agree with each other and exactly the declared algorithms are recorded. |
| Descriptors.KeyBytes.AppendDescriptor | crates/rsolve-repository/src/metadata.rs:74-101 | Appends exactly the specified fields of a descriptor, in front of anything that follows. |
| Descriptors.KeyPreimage | crates/rsolve-repository/src/metadata.rs:103-164 | The appending code produces the specified key bytes. |
| Descriptors.KindsDiffer | crates/rsolve-repository/src/metadata.rs:74-164 | Keys with and without an expectation never come from the same bytes. |
| Descriptors.PreimageDecides | crates/rsolve-repository/src/metadata.rs:74-169 | Key bytes are equal exactly when descriptors are equal and expectations are equal up to version spelling. |
| Cache.CopyCompressedInput | crates/rsolve-repository/src/input.rs:9-70 | For every reader, also one that fails after any number of bytes, the bounded loop copies the whole stream exactly when it is readable and of the allowed size, reads at most one byte past the limit, and otherwise gives the stated error and a prefix. |
| Cache.Store.ReplaceObject | crates/rsolve-repository/src/object.rs:155-197 | Replacing corrupt bytes puts the new ones in place, restores the old ones, or keeps the old ones quarantined exactly when recovery failed. |
| Cache.Store.PublishObject | crates/rsolve-repository/src/object.rs:139-209 | From any bytes at the object path and with failures anywhere, other objects and good objects are untouched and the old bytes stay at the object or a fresh quarantine name unless the expected bytes took their place. |
| Cache.Store.CommitMetadata | crates/rsolve-repository/src/metadata.rs:171-215 | The entry is replaced as a whole or not at all. |
| Cache.Store.LoadHit | crates/rsolve-repository/src/object.rs:211-243 | A hit is an entry for this key and descriptor whose object passes the full check; without failures every such entry is a hit. |
| Cache.Store.Receive | crates/rsolve-repository/src/object.rs:30-78 | Received bytes are the whole stream and pass size, checksums and archive validation; without failures the answer is determined. |
| Cache.Store.CommitMiss | crates/rsolve-repository/src/object.rs:19-137 | An entry is written only after its object; objects and entries are never lost; without failures the answer is determined. |
| Cache.Store.Commit | crates/rsolve-repository/src/lib.rs:305-353 | In every store reached by commits, with failures anywhere, success returns the entry of the request; without failures the answer is the specified one. |
| Cache.Store.Probe | crates/rsolve-repository/src/lib.rs:384-411 | A hit goes back to a commit of an equal descriptor whose archive was validated for a semantically equal expectation, and names those very bytes; without failures an entry is found exactly when there is one. |
| Cache.EntryIsGood | crates/rsolve-repository/src/object.rs:126-137 | A new entry for published bytes has their digest, size and declared checksums and is backed by the commit. |
| Cache.EntryAnswersRequest | crates/rsolve-repository/src/metadata.rs:103-164 | An entry under the key of a request was committed for an equal descriptor and a semantically equal expectation. |
| Cache.EntryIsUsable | crates/rsolve-repository/src/object.rs:211-243 | Every entry of a consistent store passes the checks of a later request under its key. |
| Cache.PublishedConsistently | crates/rsolve-repository/src/object.rs:139-209 | Whatever publishing does, every existing entry keeps naming its bytes. |
| Cache.Run | crates/rsolve-repository/src/lib.rs:305-353 | From an empty store, any requests with failures anywhere leave every entry naming an object with its digest, size and checksums. |
| Cache.CommitThenProbe | crates/rsolve-repository/src/lib.rs:384-411 | When nothing fails, a probe finds exactly what a commit with the same expectation returned. |

## Left out

- Real file I/O: directories are maps, and an operating-system lock is the absence of
  interleaving. Partial loss of directory entries that were not synced, dangling links,
  permissions and the choice between clone and copy are not modelled.
- The `.gitignore` and lock files of `.rsolve`, and creation of directories.
- A read error while an existing cache object is validated, which the code treats like
  corruption; reads of objects do not fail here.
- PubGrub's search, its derivation trees and the diagnostics and assignment comparison
  built from them. How the library treats repeated dependency keys belongs to it: here all
  pairs of a list hold.
- The loader is a function of the subject up to version spelling, since subjects are looked
  up by Rust's equality. Sort keys of identities and subjects are text parameters.
- `RBasePackageOverlay`, which wraps a loader, and `ReleaseAggregation`, which applies the
  release merge that is modelled here to a map keyed by identity.
- Other fields of a PACKAGES paragraph: `Publication` takes the rendered paragraph of an
  artifact as a parameter, and `PackagesText` covers the dependency fields.
- Payloads of errors beyond what decides between outcomes.
- Building a lock from a resolution, and composing manifests.
- TOML, JSON, gzip and tar: wire records are values, and archive validation is a predicate
  on bytes and an expectation.
- SHA-256 and MD5: functions on bytes, where needed free of collisions.
- Address literals in URLs: a given canonicaliser whose outputs are stable and look like
  addresses. Registry, repository, subdirectory and similar text types enter `Wire` as
  parameters that say which text they store.
- Dates are integers, with a printer and a reader that agree.
- Lengths that are encoded in 64 bits: encodings are taken to be shorter than 2^64 bytes.
- Cache.Store.CommitMetadata: does not tell the sync and close calls from the write they
  belong to, because they fail with the same effect.
- SolverProjection.Solve: does not model the order of iteration over the solver's answer;
  it is proved for every order.
