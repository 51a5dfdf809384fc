# Gittree protocol core, verified

Gittree decides who may move which git ref from signed Nostr events. This project
models that decision and the codecs and parsers it rests on, and proves what they
promise about every log, every push and every input.

Check it with `dafny verify dfyconfig.toml` (Dafny 4.11).

## How the pieces fit

- `Text`, `Sorting`, `Decimal`, `Addresses`, `Wrappers`: strings, sorted listings, decimal integers, colon-separated
  addresses, results.
- `Tags`, `Reading` and the codecs (`Announcement`, `RepoStates`, `Patches`, `Status`, `PullRequests`, `PullRequestUpdates`, `Issues`,
  `GraspLists`, `Nip34Events`): each field is specified as a function of the tags with its name, each printed event as a
  concatenation of runs with distinct names. The parsing and printing loops are methods proved against that; the
  round-trip laws are proved about it. `Reading` says what a field means in terms of the raw tags, by position: the value
  the last tag gives, or the first occurrences of everything the tags give; each codec's `ParseMeaning` says that parsing
  returns exactly what the tags so describe.
- `RepoEvents`, `Maintainers`, `Replicas`, `Convergence`, `Outcomes`: the log queries, the maintainer search, and how both
  depend on the order and the contents of the log.
- `GitRefs`, `GitReceive`, `PushRuns`, `Authority`: push admission for one update, one batch, whole runs, and end to end
  from the log.
- `EventRefs`, `EventFilters`, `Admission`, `Canonical`: references, related-event filters, relay admission, and the proof
  that canonicalising a log preserves every query.
- `Tokenizer`, `CommandCli`: the command language.
- `RelayWait`: waiting for a relay's answer over a stream of timestamped arrivals.

Vectors and sets that the source passes by unique reference are in-out values, except the search's set of checked keys
and the relay stream, which are fields of `Maintainers.Search` and `RelayWait.Connection`.

## What the proofs turned up

- The maintainer set can depend on the order of the log, because the first announcement of a key in the list counts, not
  the newest (`Replicas.OrderCanMatter`; exact conditions in `Replicas.FindConverges` for one key and
  `Convergence.MaintainersConvergeIff` for the whole set). `Outcomes.OutcomesArePossible` gives exactly the states that the
  orders of a log can resolve to.
- The governing state is chosen among all state events of the maintainers, without regard to the identifier, and a newest
  state that does not parse hides the older ones (`Authority.ForeignStateJudges`, `Authority.BrokenStateHides`). The exact
  condition under which the right repository's state governs is `Authority.ProperStateIff`.
- Without validation the two resolvers of HEAD can differ (`GitRefs.HeadResolversDiffer`; exact condition in
  `GitRefs.HeadAgreementIff`).
- Names beginning with `refs/tags` but without the slash are legal in a state and can never be pushed
  (`GitReceive.TagPrefixGap`); a ref behind two symbolic refs cannot be pushed a commit (`GitReceive.TwoLevels`). A valid
  state with both is in `GitReceive.RecordedButRefused`; exactly which refs take a commit is `GitReceive.TakesCommitIff`.
- Newest states with one timestamp that parse differently make the latest state depend on the order
  (`Replicas.TieIsOrdered`; exact condition in `Replicas.LatestConverges`).
- `evaluate_updates` and `evaluate_ref_update` differ on an invalid state; the pre-receive hook removes the difference
  (`GitReceive.InvalidStateSinksNostrBatches`, `GitReceive.PreReceiveIsPointwise`).
- An accepted batch may hold two conflicting updates of one nostr ref (`PushRuns.NostrOrderMatters`).
- A patch with a blank committer name or email validates and prints to tags that do not parse
  (`Patches.ValidatedButLost`; exact condition in `Patches.ValidationSurvives`).
- An unrelated relay message that arrives on the very deadline together with the decisive one takes the last read and turns
  the answer into a timeout (`RelayWait.DeadlineTie`). That is the only way such a message changes a wait
  (`RelayWait.UnrelatedInsert`) or the probe (`RelayWait.UnrelatedProbe`).
- An address with a colon in its identifier does not parse back (`Addresses.ColonIsLost`; exact condition in
  `Addresses.DisplayParse`).
- An event's own pointer uses its first `d` tag, the codecs its last (`Canonical.PointerMoves`; exact condition
  in `Canonical.CanonPointer`).
- Related-event filters put `e` and `E` (and `a` and `A`) in one filter, and the relay requires every tag of a filter, so
  a reply with only one of them is not found (`EventFilters.MissedReply`, `EventFilters.PlainReplyMissed`; exact condition
  in `EventFilters.RelatedMeaning`).
- `repo update` accepts positional arguments although its error message asks for key=value ones
  (`CommandCli.UpdateTakesPositionals`). The model follows the code.

## Model

| member | source | states |
|---|---|---|
| RepoEvents.FindMeaning | crates/core/src/repo_events.rs:29-45 | the announcement found is the first match in log order, and none is found exactly when no event matches |
| RepoEvents.AnnouncesMeaning | crates/core/src/repo_events.rs:34-44 | by the raw tags: an event announces a repository for a key exactly when it is of kind 30617, by the key, and its last d value is the identifier |
| RepoEvents.KnownIsFound | crates/core/src/repo_events.rs:29-45 | the announcement a key is known by is that of the first such event of the log |
| Maintainers.Search.Visit | crates/core/src/repo_events.rs:55-73 | the recursive search terminates on every log, expands each key at most once, adds only keys a chain of trust reaches, and leaves every key it adds with all its announcing maintainers found |
| Maintainers.CollectMaintainers | crates/core/src/repo_events.rs:47-53 | the result is strictly sorted, holds a key exactly when a chain of announcing keys, each listed by the one before, leads to it from the owner, and is no longer than the number of announcement authors |
| Maintainers.ClosureMeaning | crates/core/src/repo_events.rs:47-73 | the closure as a set is the keys reached by a chain of trust, cycles included |
| Maintainers.ListedMeaning | crates/core/src/repo_events.rs:61-72 | by the raw tags: a key lists another exactly when the first event announcing it carries the other in some maintainers tag |
| Maintainers.ClosureByTags | crates/core/src/repo_events.rs:47-73 | by the raw tags: a key is a maintainer exactly when a chain of such events leads to it from the owner |
| RepoEvents.NewestMeaning | crates/core/src/repo_events.rs:84-89 | the chosen state event is the newest candidate and the last of the newest; none is chosen exactly when there is no candidate |
| RepoEvents.CollectCloneUrls | crates/core/src/repo_events.rs:94-132 | the nested loops compute the first occurrences of the maintainers' trimmed, non-empty clone URLs in log order |
| RepoEvents.CloneUrlsMeaning | crates/core/src/repo_events.rs:94-132 | a URL is collected exactly when an announcement of a maintainer for the identifier offers it, and each once |
| RepoEvents.OffersMeaning | crates/core/src/repo_events.rs:94-132 | by the raw tags: which URLs an event offers |
| RepoEvents.EventUrlsMeaning | crates/core/src/repo_events.rs:108-129 | by the raw tags: an event offers the trimmed first occurrences of its clone values, in order, or nothing |
| RepoEvents.CloneUrlsOrder | crates/core/src/repo_events.rs:94-132 | the collected URLs are the first occurrences of what the events offer, in log order |
| RepoEvents.TrimEndSlashesMeaning | crates/core/src/repo_events.rs:121-124 | trimming removes exactly the trailing slashes |
| Replicas.FindConverges | crates/core/src/repo_events.rs:29-45 | every reordering of the log gives a key the same announcement if and only if all its announcements for the identifier say the same |
| Replicas.MaintainersConverge | crates/core/src/repo_events.rs:47-73 | every reordering gives the same maintainers unless the owner or a key named by a maintainer contradicts itself |
| Convergence.MaintainersConvergeIff | crates/core/src/repo_events.rs:29-73 | every reordering gives the same maintainers if and only if every key that a chain following any announcements can reach is reached whichever announcement of each key is selected; nothing in the condition depends on the order of the log |
| Convergence.ConvergesWhenClosed | crates/core/src/repo_events.rs:29-73 | the same in terms of the result: no announcement of a maintainer lists an announcing key outside the set, and every maintainer is reached whichever announcement of each key is selected |
| Convergence.ConditionSuffices | crates/core/src/repo_events.rs:29-73 | that condition fixes the maintainers of each single reordering |
| Convergence.NecessarilyForced | crates/core/src/repo_events.rs:29-73 | if order does not matter, every selection of announcements reaches every maintainer |
| Replicas.OrderCanMatter | crates/core/src/repo_events.rs:34 | a concrete log whose maintainers depend on its order, because the first announcement counts and not the newest |
| Replicas.TieIsOrdered | crates/core/src/repo_events.rs:84-91 | of any two legal states of one key with one timestamp the last in the log is the latest |
| Replicas.LatestConverges | crates/core/src/repo_events.rs:75-92 | every reordering gives the same latest state if and only if the newest maintainer states all parse alike |
| Replicas.AppendKeepsMaintainers | crates/core/src/repo_events.rs:29-73 | appending events never removes a maintainer |
| Replicas.OthersDoNotMatter | crates/core/src/repo_events.rs:75-132 | for fixed maintainers, logs with the same events by maintainers give the same latest state and clone URLs |
| Replicas.OutsidersCannotInterfere | crates/core/src/repo_events.rs:29-132 | two logs that are equal after removing the events of authors who are neither the owner nor named by a maintainer answer every query alike, wherever those events stand |
| GitRefs.NostrRefMeaning | crates/core/src/refs.rs:6-26 | a name is a nostr ref exactly when it is the prefix followed by 64 hex digits, and then it cannot end in ^{} |
| GitRefs.RefClassMeaning | crates/core/src/git_refs.rs:3-30 | the ref classes by name: HEAD, refs/heads/, refs/heads/pr/, refs/tags/ and refs/nostr/ with 64 hex digits |
| GitRefs.HeadAgreement | crates/core/src/git_refs.rs:32-58 | on a valid non-empty state the push check of HEAD is Match exactly for the commit head_commit gives, otherwise Mismatch with it, never Missing or Unsupported |
| GitRefs.HeadAgreementIff | crates/core/src/nip34.rs:232-241 | on any state, valid or not, the two HEAD resolvers agree exactly when HEAD is absent, symbolic, a commit, or a bare path that leads to itself |
| GitRefs.HeadResolversDiffer | crates/core/src/nip34.rs:232-241 | a state on which they disagree, for every commit: HEAD is a bare path |
| GitReceive.AcceptedUpdate | crates/core/src/git_receive.rs:28-77 | an update is accepted exactly when it is a well-formed nostr ref, or a branch, tag or HEAD outside refs/heads/pr/ that a valid state resolves to the pushed revision |
| GitReceive.AcceptedByName | crates/core/src/git_receive.rs:28-77 | the same by names: any update of refs/nostr/ and 64 hex digits, and an update of HEAD, refs/tags/ or refs/heads/ without pr/ to the value a valid state gives it |
| GitReceive.ResolvedMeaning | crates/core/src/git_refs.rs:49-58 | the value a state gives a ref: what it records, or what the target after "ref: " records |
| GitReceive.PrBranchesRefused | crates/core/src/git_receive.rs:51-55 | no update of a name that begins with refs/heads/pr/ is accepted, whatever the state |
| GitReceive.RejectionMeaning | crates/core/src/git_receive.rs:28-77 | the exact condition of every rejection class |
| GitReceive.TwoLevels | crates/core/src/git_refs.rs:49-58 | behind two symbolic refs only the literal text of the second is accepted, never a commit |
| GitReceive.TagPrefixGap | crates/core/src/nip34.rs:291-294 | names that merely begin with refs/tags are legal in a state but every push to them is unsupported |
| GitReceive.TakesCommitIff | crates/core/src/git_receive.rs:28-77 | against a valid state a commit can be pushed to a ref exactly when it is a well-formed nostr ref, or a supported ref outside refs/heads/pr/ that one level of resolution takes to a commit |
| GitReceive.RecordedButRefused | crates/core/src/git_refs.rs:32-58 | a valid state, for every commit, that records it behind two symbolic refs and under refs/tagsfoo, and on which both pushes of it are refused |
| GitReceive.FirstRejectionMeaning | crates/core/src/git_receive.rs:92-99 | the loop accepts exactly when every update is accepted and otherwise returns the first rejection |
| GitReceive.BatchRefinesUpdates | crates/core/src/git_receive.rs:79-100 | a batch is accepted exactly when the state is absent or valid and every update is accepted alone; on a usable state the first rejection in order is returned |
| GitReceive.AcceptanceOrderFree | crates/core/src/git_receive.rs:79-100 | acceptance does not depend on the order of the batch |
| GitReceive.PreReceiveIsPointwise | services/git-hook/src/lib.rs:503-528 | through the pre-receive hook a batch passes exactly when each update passes alone |
| GitReceive.PreReceiveMeaning | services/git-hook/src/lib.rs:503-528 | a batch of names under refs/nostr/ is judged without a state, any other by the fetched one, and an invalid one answers with its defect |
| GitReceive.InvalidStateSinksNostrBatches | crates/core/src/git_receive.rs:80-90 | an invalid state rejects nostr-only and empty batches whose updates all pass alone; the hook accepts them |
| PushRuns.RunSafe | crates/core/src/git_receive.rs:28-100 | over any run of pushes with any fetched states, no ref under refs/heads/pr/, ending in ^{}, or outside HEAD, refs/heads/, refs/tags/ and well-formed nostr refs ever changes; with no state only nostr refs change |
| PushRuns.RunSafeByName | crates/core/src/git_receive.rs:28-100 | the same by names: no run changes a name that begins with refs/heads/pr/, ends in ^{}, or is none of HEAD, refs/heads/, refs/tags/ and refs/nostr/ with 64 hex digits |
| PushRuns.StatelessRun | crates/core/src/git_receive.rs:39-43 | without any fetched state a run changes only nostr refs |
| PushRuns.ReceiveMeaning | services/git-hook/src/lib.rs:503-528 | a push takes effect exactly when every update is accepted: each ref then holds what its last update leaves, and otherwise nothing changes |
| PushRuns.RunMeaning | services/git-hook/src/lib.rs:503-528 | a run is its pushes, one after the other |
| PushRuns.RunProvenance | crates/core/src/git_receive.rs:28-100 | after any run, a ref outside refs/nostr holds its initial value or the value some fetched state of the run resolves it to |
| PushRuns.OrderFreeIff | crates/core/src/git_receive.rs:92-99 | a ref's value after a batch is independent of the order exactly when no two updates of it leave different values |
| PushRuns.AcceptedBatchOrderFree | crates/core/src/git_receive.rs:79-100 | an accepted batch applied in any order gives the same store outside refs/nostr/ |
| PushRuns.NostrOrderMatters | crates/core/src/git_receive.rs:29-37 | two accepted updates of one nostr ref can conflict, so there the order does matter |
| Authority.ResolvedStateMeaning | crates/core/src/repo_events.rs:47-92 | the state a log resolves to is the parse of the newest, last on ties, state event by a trusted key |
| Authority.EndToEnd | crates/core/src/git_receive.rs:79-100 | a push against a log is accepted exactly when the governing state, if any, is valid and every update is a well-formed nostr ref or writes what that state says |
| Authority.ProperStateIff | crates/core/src/repo_events.rs:75-92 | a log resolves to what the maintainers last said about this repository if and only if their newest state event names it, or there is none, or it does not parse and no state of theirs names it |
| Authority.ForeignStateJudges | crates/core/src/repo_events.rs:84-91 | a concrete log, for any two commits, on which a later state for another repository refuses this repository's commit and accepts the other's |
| Authority.BrokenStateHides | crates/core/src/repo_events.rs:90-91 | a concrete log on which a later state without a d tag leaves the repository without a state |
| Authority.NewestStateTakesOver | crates/core/src/repo_events.rs:84-91 | a trusted key's newest state governs at once, whatever identifier it names and even when it does not parse |
| Authority.OutsidersCannotPush | crates/core/src/repo_events.rs:47-92 | logs that differ only in events by untrusted authors decide every push alike, wherever those events stand |
| Authority.ReplicasDecideAlike | crates/core/src/repo_events.rs:47-92 | the case in which the order does not affect the maintainers: there every replica resolves to the same state if and only if the newest states agree, and then decides every push alike |
| Outcomes.StatesConvergeIff | crates/core/src/repo_events.rs:47-92 | on any log, every replica resolves to the same state if and only if all possible outcomes agree, and then decides every push alike |
| Outcomes.OutcomesArePossible | crates/core/src/repo_events.rs:47-92 | the states that the orders of a log resolve to are exactly those of a newest state event by a key that some choice of one announcement per key reaches, and none where such a choice leaves no candidate |
| Outcomes.PossibleMaintainers | crates/core/src/repo_events.rs:29-73 | the maintainer sets that the orders of a log give are exactly those that the choices of one announcement per key reach |
| Authority.RunAuthority | services/git-hook/src/lib.rs:503-528 | over any run of pushes, each judged by its own log, a ref outside refs/nostr/ holds its initial value or the one the governing state of some log gives it, and a protected ref its initial value |
| Tags.PushUnique | crates/core/src/tags.rs:33-37 | the value is added at the end exactly when absent |
| Tags.ExtendUnique | crates/core/src/tags.rs:39-43 | extending gives the first occurrences of everything seen |
| Tags.DedupFixed | crates/core/src/tags.rs:33-43 | de-duplication leaves a list alone exactly when it has no duplicates |
| Tags.DedupOrder | crates/core/src/tags.rs:33-43 | values keep the order of their first occurrences |
| Tags.NamedBlock | crates/core/src/nip34.rs:68-110 | in printed tags, the tags of one name are exactly that field's run |
| Tags.PrintedJoined | crates/core/src/tags.rs:45-50 | a list field printed as one joined tag, wherever it stands among the other fields, reads back as its first occurrences, the empty list included |
| Decimal.ParsePrintSigned | crates/core/src/nip34_patches.rs:19-20 | decimal printing is inverted by parsing for every integer in range, and refused outside it |
| Decimal.ParseSignedMeaning | crates/core/src/nip34_patches.rs:19-20 | a text parses to a number exactly when the number is in range and the text is an optional sign, zeros and its decimal form |
| Decimal.ParseU32Meaning | crates/core/src/event_filters.rs:89 | the same for 32-bit unsigned numbers, without a minus sign |
| Announcement.FromTags | crates/core/src/nip34.rs:21-66 | the loop computes each field from the tags of its name: last value, first occurrences, accepted root commit forms |
| Announcement.ParseMeaning | crates/core/src/nip34.rs:21-66 | by the raw tags: parsing returns exactly the announcement whose scalars are what the last tag of the name gives and whose lists are the first occurrences of everything the tags of the name give, in order; it fails exactly without a d value |
| Announcement.ToTags | crates/core/src/nip34.rs:68-110 | the printing statements produce the field runs in order |
| Announcement.PrintedForm | crates/core/src/nip34.rs:68-110 | the printed tags, spelled out |
| Announcement.ParsePrint | crates/core/src/nip34.rs:21-110 | parsing a printed announcement gives it with each list reduced to first occurrences |
| Announcement.RoundTrip | crates/core/src/nip34.rs:21-110 | an announcement survives printing and parsing exactly when its six lists have no duplicates |
| RepoStates.FromTags | crates/core/src/nip34.rs:194-211 | the loop collects the last identifier and the legal entries |
| RepoStates.ParseMeaning | crates/core/src/nip34.rs:194-211 | by the raw tags: parsing returns exactly the last identifier and, for each name, the value of its last legal entry; it fails exactly without a d value |
| RepoStates.LegalMeaning | crates/core/src/nip34.rs:290-308 | the names and values a state may hold, spelled out |
| RepoStates.EntriesMeaning | crates/core/src/nip34.rs:198-206 | a name is in the parsed map exactly when a legal entry sets it, and the last such entry gives its value |
| RepoStates.ToTags | crates/core/src/nip34.rs:213-225 | printing gives the identifier and the entries in strictly sorted order, however the map is enumerated |
| RepoStates.PrintedForm | crates/core/src/nip34.rs:213-225 | the printed tags: the identifier first, then one tag per ref in ascending order |
| Sorting.ListingUnique | crates/core/src/nip34.rs:217-218 | a set of keys has one strictly sorted listing |
| Sorting.LessMeaning | crates/core/src/nip34.rs:217-218 | the order: a proper prefix, or the smaller character at the first difference |
| RepoStates.ParsePrint | crates/core/src/nip34.rs:194-225 | parsing a printed state keeps exactly the legal entries |
| RepoStates.RoundTrip | crates/core/src/nip34.rs:194-225 | a state survives printing and parsing exactly when all entries are legal |
| RepoStates.ValidMeaning | crates/core/src/nip34.rs:251-288 | a state is valid exactly when its identifier is not blank, its entries are legal, and it is empty or HEAD resolves |
| RepoStates.ValidateMeaning | crates/core/src/nip34.rs:251-288 | the exact condition of every defect, on every state |
| RepoStates.HeadCommitMeaning | crates/core/src/nip34.rs:232-241 | what HEAD leads to, by the text of its value |
| RepoStates.ParsedValidation | crates/core/src/nip34.rs:251-288 | a parsed state fails validation only for a blank identifier, a missing HEAD or a dangling HEAD, each with its exact condition |
| Patches.CommitterRoundTrip | crates/core/src/nip34_patches.rs:16-49 | a committer tag reads back for every 64-bit timestamp and 32-bit timezone exactly when name and email are not blank |
| Patches.ReadCommitterMeaning | crates/core/src/nip34_patches.rs:16-38 | exactly which tags read as a committer, and as which |
| Patches.CommittersMeaning | crates/core/src/nip34_patches.rs:91-93 | parsing fails exactly when some committer tag is malformed, and otherwise the last one counts |
| Patches.FromTags | crates/core/src/nip34_patches.rs:68-119 | the loop computes each field from the tags of its name, and fails on the first malformed committer tag |
| Patches.ParseMeaning | crates/core/src/nip34_patches.rs:68-119 | by the raw tags: parsing returns exactly the patch they describe when every committer tag is well formed, and otherwise the exact error |
| Patches.ToTags | crates/core/src/nip34_patches.rs:121-177 | the printing statements produce the field runs in order |
| Patches.PrintedForm | crates/core/src/nip34_patches.rs:121-177 | the printed tags, spelled out |
| Patches.ValidateMeaning | crates/core/src/nip34_patches.rs:179-244 | the exact condition of every defect, in the order of the checks |
| Patches.ParsePrint | crates/core/src/nip34_patches.rs:68-177 | parsing a printed patch de-duplicates its two lists and fails exactly for a committer without name or email |
| Patches.RoundTrip | crates/core/src/nip34_patches.rs:68-177 | a patch survives printing and parsing exactly when it is in normal form |
| Patches.ValidationSurvives | crates/core/src/nip34_patches.rs:179-244 | validation gives the same verdict on a patch and on its reprint, and does not depend on the committer; so a validated patch fails to parse back exactly for a committer without name or email |
| Patches.ValidatedButLost | crates/core/src/nip34_patches.rs:179-244 | a patch that validates and prints to tags that do not parse |
| Status.FromTags | crates/core/src/nip34_status.rs:27-81 | the loop computes the fields or the error of the first offending tag |
| Status.ParseMeaning | crates/core/src/nip34_status.rs:27-81 | by the raw tags: parsing returns exactly the status they describe when no tag offends, and reports a missing root exactly when none offends and no root is given |
| Status.ErrorMeaning | crates/core/src/nip34_status.rs:38-66 | the first tag that names another root or is an incomplete q tag decides the error |
| Status.NoErrorMeaning | crates/core/src/nip34_status.rs:38-66 | no tag error occurs exactly when all root references agree and every q tag is complete |
| Status.ToTags | crates/core/src/nip34_status.rs:83-135 | the printing statements produce the field runs in order |
| Status.PrintedForm | crates/core/src/nip34_status.rs:83-135 | the printed tags, spelled out |
| Status.RoundTrip | crates/core/src/nip34_status.rs:27-135 | a status survives printing and parsing exactly when its four lists have no duplicates |
| PullRequests.FromTags | crates/core/src/nip34_proposals.rs:22-62 | the loop computes each field from the tags of its name |
| PullRequests.ParseMeaning | crates/core/src/nip34_proposals.rs:22-62 | by the raw tags: parsing returns exactly the pull request they describe, or the exact missing field |
| PullRequests.ToTags | crates/core/src/nip34_proposals.rs:64-104 | the printing statements produce the field runs in order |
| PullRequests.PrintedForm | crates/core/src/nip34_proposals.rs:64-104 | the printed tags, spelled out |
| PullRequests.RoundTrip | crates/core/src/nip34_proposals.rs:22-104 | a pull request survives printing and parsing exactly when its four lists have no duplicates |
| PullRequestUpdates.FromTags | crates/core/src/nip34_proposals.rs:204-238 | the loop computes each field, and the first missing required field is the error |
| PullRequestUpdates.ParseMeaning | crates/core/src/nip34_proposals.rs:204-238 | by the raw tags: parsing returns exactly the update they describe, or the first missing field of a, E, P and c |
| PullRequestUpdates.ToTags | crates/core/src/nip34_proposals.rs:240-266 | the printing statements produce the field runs in order |
| PullRequestUpdates.PrintedForm | crates/core/src/nip34_proposals.rs:240-266 | the printed tags, spelled out |
| PullRequestUpdates.RoundTrip | crates/core/src/nip34_proposals.rs:204-266 | an update survives printing and parsing exactly when its three lists have no duplicates |
| Issues.FromTags | crates/core/src/nip34_issues.rs:14-36 | the loop computes each field from the tags of its name |
| Issues.ParseMeaning | crates/core/src/nip34_issues.rs:14-36 | by the raw tags: parsing returns exactly the issue they describe, and fails exactly without an address |
| Issues.ToTags | crates/core/src/nip34_issues.rs:38-56 | the printing statements produce the field runs in order |
| Issues.PrintedForm | crates/core/src/nip34_issues.rs:38-56 | the printed tags, spelled out |
| Issues.RoundTrip | crates/core/src/nip34_issues.rs:14-56 | an issue survives printing and parsing exactly when its two lists have no duplicates |
| GraspLists.FromTagsLossy | crates/core/src/nip34_grasp_list.rs:10-22 | the loop collects the first occurrences of the g values |
| GraspLists.ParseMeaning | crates/core/src/nip34_grasp_list.rs:10-36 | by the raw tags: the list is the first occurrences of the g values, and prints one g tag for each |
| GraspLists.RoundTrip | crates/core/src/nip34_grasp_list.rs:10-36 | a grasp list comes back de-duplicated, hence unchanged exactly when it has no duplicates |
| Nip34Events.ParsedKind | crates/core/src/nip34_events.rs:25-72 | every parsed event has the kind it was parsed under |
| Nip34Events.ParseMeaning | crates/core/src/nip34_events.rs:25-53 | which kind numbers parse, and by which codec; any other kind is refused |
| Nip34Events.FixedPoint | crates/core/src/nip34_events.rs:25-85 | for all eight kinds of event, what a parse returns comes back unchanged from printing and parsing under its own kind |
| Nip34Events.FromTags | crates/core/src/nip34_events.rs:25-53 | the dispatch over the codec loops computes the specified parse |
| Nip34Events.ToTags | crates/core/src/nip34_events.rs:74-85 | the dispatch over the printing methods computes the specified tags |
| Canonical.CanonPreserves | crates/core/src/repo_events.rs:29-132 | reprinting every parseable announcement and state event changes no maintainer, state, clone or push result |
| Canonical.CanonAdmission | crates/core/src/admission.rs:12-52 | reprinting an event's tags changes no admission decision about it |
| Canonical.CanonIdempotent | crates/core/src/nip34_events.rs:25-85 | canonicalising twice is canonicalising once |
| Canonical.CanonMeaning | crates/core/src/nip34_events.rs:25-85 | announcements and states that parse get their printed tags, and every other event stays as it is |
| Canonical.CanonComplete | crates/core/src/nip34_events.rs:25-85 | two events have one canonical form exactly when they parse alike |
| Canonical.CanonPointer | crates/core/src/event_refs.rs:77-85 | reprinting can change the own pointer of an announcement or a state, which reads the first d tag: it is kept exactly when there is no d value or the first and last agree |
| Canonical.PointerMoves | crates/core/src/event_refs.rs:77-85 | an announcement with two d tags whose own pointer changes |
| EventRefs.CollectEventReferences | crates/core/src/event_refs.rs:25-50 | the loop collects event ids and address pointers by tag class, first occurrences only |
| EventRefs.CollectEventReferencesWithSelf | crates/core/src/event_refs.rs:52-71 | the event itself is added by pointer or id, and both lists stay duplicate-free |
| EventRefs.ReferencesMeaning | crates/core/src/event_refs.rs:25-50 | a value is referenced exactly when some tag of the class carries it |
| EventRefs.ReferencesByTags | crates/core/src/event_refs.rs:25-50 | by the raw tags: event ids are the first occurrences in e, E and colon-free q tags, addresses those in a, A and other q tags |
| EventRefs.ReferencesWithSelfMeaning | crates/core/src/event_refs.rs:52-71 | with itself, an event of kind 30000 to 39999 refers to its own pointer and any other to its own id |
| EventRefs.SelfPointerMeaning | crates/core/src/event_refs.rs:60-64 | an event's own pointer is kind:pubkey, with :identifier when it has a d tag |
| EventRefs.FindDTagIsFirst | crates/core/src/event_refs.rs:77-85 | the d tag found is the first one with a value |
| EventRefs.FindDTagByTags | crates/core/src/event_refs.rs:77-85 | the same by position in the raw tags |
| EventFilters.BuildRelatedEventFilters | crates/core/src/event_filters.rs:31-83 | the filters built are the specified list, in order |
| EventFilters.RelatedMeaning | crates/core/src/event_filters.rs:31-83 | exactly which events the filters match under the relay's rule; a reply is matched by its reference only when it has both the lower-case and the upper-case tag |
| EventFilters.RelatedByTags | crates/core/src/event_filters.rs:31-83 | by the raw tags of the event: exactly which other events its filters match |
| EventFilters.PointerMeaning | crates/core/src/event_filters.rs:85-115 | what the filter of a pointer matches: kind:author with or without an identifier, a state pointer also matching announcements |
| EventFilters.FiltersForm | crates/core/src/event_filters.rs:31-83 | the filters, spelled out |
| EventFilters.PlainReplyMissed | services/relay/src/filter.rs:82-92 | a reply that carries its event reference only as an e tag, its address reference in at most one spelling and no quote is not matched, whatever other tags it has |
| EventFilters.MissedReply | services/relay/src/filter.rs:82-92 | a concrete reply that is missed |
| EventFilters.SelfPointerFilter | crates/core/src/event_filters.rs:85-107 | the filter of an event's own pointer, with an identifier or without, in every case of colons in the fields: it names kind, author and identifier exactly when neither has a colon |
| EventFilters.FindsItself | crates/core/src/event_filters.rs:31-107 | an addressable event with colon-free author and, if it has a d tag, colon-free identifier matches its own filters |
| Admission.AnnouncementAdmitted | crates/core/src/admission.rs:23-46 | an announcement is admitted exactly when the host is known and normalises and the raw tags carry an identifier, a clone URL and a relay with that host |
| Admission.AnnouncementDecision | crates/core/src/admission.rs:23-46 | every decision and error about an announcement by the raw tags, in the order of the checks |
| Admission.OthersNeedRelated | crates/core/src/admission.rs:47-51 | any kind but 30617 and 30618 waits for related events, with filters that match exactly the events related by the raw tags |
| Admission.StatesAdmitted | crates/core/src/admission.rs:19-21 | kind 30618 is always admitted |
| Addresses.DisplayParse | crates/core/src/nip34_common.rs:14-58 | an address parses back from its text exactly when new accepts it and its identifier has no colon |
| Addresses.ParseMeaning | crates/core/src/nip34_common.rs:28-47 | exactly the texts that are addresses: 30617, a 64-digit hex key and a colon-free identifier |
| Addresses.ColonIsLost | crates/core/src/nip34_common.rs:14-46 | for every key, an address that new accepts and parse refuses |
| Addresses.ParseDisplay | crates/core/src/nip34_common.rs:28-58 | what parses is displayed as the text it came from |
| Tokenizer.Tokenize | crates/core/src/command_cli.rs:176-214 | the loop over characters computes the specified tokens or refuses |
| Tokenizer.TokensConserve | crates/core/src/command_cli.rs:176-214 | an input is refused exactly when it has an odd number of active quotes; otherwise the tokens are non-empty and concatenate to the input without active quotes, active backslashes and separators |
| Tokenizer.SeparatorSplits | crates/core/src/command_cli.rs:196-200 | a separator divides the tokens into those before and those after it |
| Tokenizer.OneToken | crates/core/src/command_cli.rs:182-213 | an input without separators is at most one token |
| Tokenizer.TrailingBackslash | crates/core/src/command_cli.rs:183-192 | a backslash with nothing after it is dropped |
| Tokenizer.QuoteInverse | crates/core/src/command_cli.rs:176-214 | any list of non-empty strings, quoted and joined by spaces, tokenizes back to itself |
| CommandCli.ParseCliCommand | crates/core/src/command_cli.rs:49-98 | the parser computes the specified command or the class of its first error |
| CommandCli.CommandTable | crates/core/src/command_cli.rs:49-169 | exactly the commands that some input parses to, as a table of namespaces, actions and operands |
| CommandCli.TextErrors | crates/core/src/command_cli.rs:49-59 | exactly when the prefix is missing or a quote is unterminated |
| CommandCli.TokenErrors | crates/core/src/command_cli.rs:60-168 | exactly when the command is empty, its namespace or action unknown, or its arguments invalid |
| CommandCli.TrimMeaning | crates/core/src/command_cli.rs:50 | trimming removes exactly the white space at both ends |
| CommandCli.PlacementConserves | crates/core/src/command_cli.rs:71-88 | a repo command's target is its first token without an equals sign and the arguments spell all other tokens in order |
| CommandCli.ParsedWellFormed | crates/core/src/command_cli.rs:49-169 | every parsed command is well formed, and has a target exactly when it is a repo command |
| CommandCli.CanonicalForm | crates/core/src/command_cli.rs:49-169 | the canonical text of a command parses back to it exactly when some input parses to it |
| CommandCli.UpdateTakesPositionals | crates/core/src/command_cli.rs:144-162 | repo update accepts positional arguments, although its error message asks for key=value |
| RelayWait.Connection.WaitForOk | crates/relay-adapter/src/lib.rs:440-469 | the loop consumes the stream and moves the clock as the specified wait does |
| RelayWait.Connection.WaitForEvent | crates/relay-adapter/src/lib.rs:471-510 | the loop consumes the stream and moves the clock as the specified event wait does, EVENT before EOSE on each message |
| RelayWait.Connection.ProbeWriteRead | crates/relay-adapter/src/lib.rs:292-317 | the probe is the two waits in sequence on one stream, the second with its own deadline |
| RelayWait.DecisiveItems | crates/relay-adapter/src/lib.rs:512-577 | which items decide each wait, and how |
| RelayWait.VerdictMeaning | crates/relay-adapter/src/lib.rs:440-577 | the item that gives each outcome, spelled out for every outcome |
| RelayWait.WaitOutcome | crates/relay-adapter/src/lib.rs:440-510 | every outcome of a wait, exactly: the first decisive item read in time gives it, and without one it is a timeout |
| RelayWait.ClockMeaning | crates/relay-adapter/src/lib.rs:448-456 | the clock is the latest of the start and the arrivals read |
| RelayWait.WaitDecided | crates/relay-adapter/src/lib.rs:440-510 | a wait is decided by the first decisive item read in time, consuming exactly the items up to it |
| RelayWait.WaitTimesOut | crates/relay-adapter/src/lib.rs:448-456 | without such an item the wait times out, on the deadline |
| RelayWait.EventWaitSucceeds | crates/relay-adapter/src/lib.rs:471-510 | the event wait succeeds exactly when the event is read in time, before every end-of-stored-events for its subscription and every failure |
| RelayWait.UnrelatedInsert | crates/relay-adapter/src/lib.rs:440-510 | inserting an item that decides nothing and delays nothing keeps the outcome if and only if it does not arrive on the very deadline together with the item that would have decided the wait then; the clock is the same in any case |
| RelayWait.UnrelatedRest | crates/relay-adapter/src/lib.rs:440-510 | the inserted item is consumed or still pending, and after a decided wait it is pending exactly when all later items are; only a wait that times out on a tie at its deadline reads it instead of the next item |
| RelayWait.DeadlineTie | crates/relay-adapter/src/lib.rs:448-456 | a stream, for every decisive item, on which the insertion does change the outcome |
| RelayWait.UnrelatedProbe | crates/relay-adapter/src/lib.rs:292-317 | across the two waits in sequence, an unrelated item that delays nothing keeps the outcome if and only if it takes the last read of neither wait, or only from an OK after which the second wait is decided by no item in time; the condition is in terms of positions in the stream |
| RelayWait.UndisturbedProbe | crates/relay-adapter/src/lib.rs:292-317 | so it changes nothing when it comes strictly before the next item, or together with it at any time but the two deadlines |
| RelayWait.ProbeSucceeds | crates/relay-adapter/src/lib.rs:292-317 | the probe succeeds exactly when a positive OK decides the first wait and the event decides the second |
| RelayWait.ProbeOutcome | crates/relay-adapter/src/lib.rs:292-317 | every outcome of the probe, exactly, by the items of the stream |
| RelayWait.SubIdMeaning | crates/relay-adapter/src/lib.rs:308 | the subscription of the second wait is gittree-probe- and the first eight characters of the event id |

## Left out

- Error texts, offending values inside errors and `short_hash`: only the error class is kept.
- Which illegal entry `RepoState::validate` reports depends on hash map order; the model says only that there is one.
- `validate` of announcements, proposals, issues, statuses and grasp lists, and `parse_validated`: checks of one field at a time, with no property across fields or operations.
- `lists_grasp_host` beyond its search: URL normalisation is a parameter of the admission model; `grasp.rs`, `grasp_servers` and `UserGraspList::validate` rest on URL parsing and are not part of this model.
- JSON text, SHA-256, Schnorr signatures, hex and bech32: relay messages are decoded values with a malformed case.
- Git's own work on a push: the store applies every update of an accepted batch in order, an all-zero revision deleting the ref; compare-and-swap on the old revision is not part of this model.
- Transport failures of the state lookup in the pre-receive hook, and connection and key loading in the probe; whether the probe's two sends succeed is a parameter.
- Real clocks and scheduling: arrivals carry timestamps and processing takes no time.
- The web app, storage, configuration, migration, observability, Forgejo client and authentication crates.
