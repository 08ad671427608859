# Verified model of the ROKO edge validator tools

This project models the evidence-and-gating logic of the validator tools in Dafny 4.11 and proves what it
establishes. `dafny verify dfyconfig.toml` checks everything; no member is assumed.

| files | what they model |
|---|---|
| `ValidatorWatch`, `WatchEvaluation`, `WatchMeaning`, `WatchSampling` | recovery acceptance: the checks on a list of samples, `evaluate`, its verdict in the samples' fields, and how samples are taken |
| `KeyWindowTrace`, `KeyWindow` | the guarded session-key window, with every command failing at will and INT/TERM between commands |
| `WalletEnrollment`, `WalletSchedules`, `WalletRuns` | the resumable four-call enrollment: its plan, everything wallet and chain can do in any order, and the runs themselves |
| `Finalization` | the promise that waits for finalization |
| `Word64`, `XxHash64`, `XxHashSeparation`, `StorageKeys` | the hand-written XXH64 on Python integers, its inverses, and the storage keys |
| `XxHashNumbers`, `XxHashAnswers` | XXH64 worked out on bit vectors, and published answers |
| `ScaleVector` | compact lengths and fixed-width vectors, against the SCALE encoder (Polkadot Protocol Specification, appendix A.2.2) |
| `FinalizedSet` | the active set, from raw finalized storage to membership |
| `KeyTuple`, `QueuedSet`, `TransitionGate`, `TransitionMeaning` | the 226-byte key tuple, the queued-set comparison, the transition gates, and what they say in the inputs' fields |
| `CanonicalJson`, `JsonReader`, `Receipt`, `TransitionStatus` | canonical JSON text and a reader for it (RFC 8259), sealing and verifying a receipt, and the status that becomes one |
| `SourceSelection`, `NtpProbe`, `SourceSummary` | choosing time sources, parsing an NTP reply (section 8 of RFC 5905), summarizing samples |
| `ArgumentFilter` | sanitizing node arguments |
| `Bytes`, `Text`, `Results`, `SetFacts` | shared byte strings, lower-casing, options and results, set sizes |

Conventions. Python integers are `int`; `& MASK64` is written out as reduction modulo 2^64 and every lane and result
carries the type `word`, so staying below 2^64 is checked at each step. `|`, `^`, `<<` and `>>` are recursive functions
on unbounded naturals. Loops that update variables are methods proved equal to a function or predicate, and the claims
are proved of that. A definition that code and specification share is pinned by a second statement without it: in the
fields of the input, by a round trip, or by known answers. Some proofs use `hide` to keep a definition folded.

Four expectations hold only under a condition:

* `measure_all` sorts by `minDelayMs or inf`, so a delay of exactly zero ranks last. The ranking is by delay, as
  `choose_sources` needs, if and only if no eligible delay is zero or none is positive
  (`SourceSelection.RankingIsByDelayIff`). Where no delay is negative, the same condition decides whether every count
  gives a choice of least total delay (`SourceSelection.LeastDelayIff`, `SourceSelection.ZeroDelayPassedOver`).
* `decode_compact_length` accepts lengths that no SCALE encoder writes, such as `01 00` for zero. What it read re-encodes
  to the same bytes if and only if the prefix is in canonical form (`ScaleVector.ReencodesIffCanonical`,
  `ScaleVector.LongZeroAccepted`).
* `finalized` signs with nonce -1, so the account's next index is read again after the gate compared it, and a node's
  pool may have forgotten a signed call. What can come of reading the account applies each call at most once, and keeps
  the locked balance within the stake, if and only if no call signed earlier can still be included when it is read
  (`WalletSchedules.OnceIffIdle`, `WalletSchedules.BalanceWithinStakeIffIdle`); `WalletSchedules.LockedTwice` is a run
  that locks twice. A pool that shows every signed call makes the gate of `cli.mjs` exactly that condition
  (`WalletSchedules.HonestGateIffIdle`), so with such pools, or an operator who waits until it holds, any number of runs
  apply each call at most once (`WalletRuns.Lifetime`).
* `_to_ntp` truncates toward zero, so a timestamp survives it to within 2^-32 s if and only if it is not before 1970 or
  is a whole second (`NtpProbe.TimestampRoundTripIff`, `NtpProbe.HalfSecondBefore1970`).

## Model

| member | source | states |
|---|---|---|
| WatchEvaluation.Evaluate | bin/roko-validator-watch:192-281 | Rejects exactly an empty list or a nonpositive count; passes exactly when the samples' fields show recovery over their longest ready end, whose length it reports; each reported check, counter, set, candidate and the proof table is what it claims |
| WatchMeaning.AcceptsIffRecovered | bin/roko-validator-watch:196-281 | The verdict in fields: every sample of the ready end is synced, matched and ready, with its quorum of sources, one finalized height and hash, a session, a named account and an authority; heights, sessions, account and authority are consistent over the whole list; the ready end gains height, crosses sessions and proves authorship as demanded |
| WatchMeaning.ReadyIsOperational | bin/roko-validator-watch:239-241 | What a ready sample shows, field by field |
| WatchMeaning.ReadyEndIsWindow | bin/roko-validator-watch:242-246 | The final streak is the one length at which the ready end stops |
| WatchMeaning.FreshIff | bin/roko-validator-watch:251-265 | What a counted proof shows: its own fields, the height at which its session was first seen, its authority |
| WatchMeaning.QuorumCounted | bin/roko-validator-watch:203-207 | The quorum count is the number of samples whose two peer counts reach a minimum of at least one |
| WatchMeaning.LongestReadyStretch | bin/roko-validator-watch:242-243 | No stretch of ready samples is longer than the reported maximum, and one is as long |
| WatchEvaluation.ScanSamples | bin/roko-validator-watch:196-244 | The first loop's running flags and dictionaries are statements about all samples: valid heights, neighbour checks, one authority per session at any distance, the candidate and session sets, streaks |
| WatchEvaluation.CollectProofs | bin/roko-validator-watch:251-265 | The proof table holds exactly the hashes shown by some fresh sample, each with the last fresh record for it |
| WatchEvaluation.NeighboursIffOrdered | bin/roko-validator-watch:212-228 | The comparisons of neighbours amount to order at any distance: heights and sessions never fall, one height has one hash and session, a later session is strictly higher |
| WatchEvaluation.OrderedAtDistance | bin/roko-validator-watch:213-228 | Any two samples of a checked history are in order |
| WatchEvaluation.AuthoritySnoc | bin/roko-validator-watch:235-239 | Comparing with the last recorded index alone detects every disagreement in a session |
| WatchEvaluation.FreshByBaseline | bin/roko-validator-watch:251-264 | The running baseline is the height at the session's first sample in the window, and the freshness test is against it |
| WatchEvaluation.ProofSnoc | bin/roko-validator-watch:265 | One more sample extends the table by exactly its own hash, the later record winning |
| WatchEvaluation.SessionsOfWindow | bin/roko-validator-watch:249-250 | More than one session index in the window means two samples of different sessions |
| WatchEvaluation.WeakerDemandsStillPass | bin/roko-validator-watch:275-278 | A smaller count, no authorship demand or no boundary demand never turns a pass into a failure |
| WatchEvaluation.ProofStaysInItsSession | bin/roko-validator-watch:253-265 | In an accepted run a counted proof is above every height seen in any earlier session anywhere in the list and above the window's first height, and below every height of a later session |
| WatchEvaluation.ProofIntervalsOrdered | bin/roko-validator-watch:251-265 | Proofs of different sessions lie in disjoint height intervals in session order; with the boundary demand there is only one session |
| ValidatorWatch.EndingRunIsLongestSuffix | bin/roko-validator-watch:242-246 | The final streak is the longest all-operational suffix |
| ValidatorWatch.LongestRunIsMaximum | bin/roko-validator-watch:242-243 | The maximum streak bounds every operational stretch and is reached by one |
| WatchSampling.TakeSample | bin/roko-validator-watch:83-89 | The first of three attempts that is not a moved snapshot, or failure when all three moved |
| WatchSampling.SampledFacts | bin/roko-validator-watch:92-189 | A sample that gets through has one finalized height, a session and checked identities; a proof marked canonical is finalized and by the session's authority |
| WatchSampling.SampleOnceIff | bin/roko-validator-watch:92-155 | Exactly which replies give a sample, and which mean that the head moved |
| WatchSampling.CanonicalIff | bin/roko-validator-watch:144-155 | A sample is marked canonical exactly when the chain has the proof's hash at its height, up to case, and height, authority, session and account fit |
| WatchSampling.SampledHistories | bin/roko-validator-watch:147-155 | On sampled input the per-record finality and proof gates decide nothing that sampling has not decided |
| KeyWindow.Helper.Run | bin/roko-session-key-window:186-203 | For every failing command and signal: the policy is byte-equal to the backup and the service runs Safe, or the service was stopped and the exit code is 1; it stops only if recovery fails; where nothing fails and no signal comes it enrolls, recovers and exits 0, and it exits 0 only after successful enrollment and Safe seen after the last restart; commands bounded by twice the attempts plus four; reuse never generates |
| KeyWindow.Helper.RestoreSafe | bin/roko-session-key-window:151-176 | Recovers Safe on disk and in the service, verified; stops the service exactly when some step of recovery fails; acts at most once |
| KeyWindow.Helper.TryRestore | bin/roko-session-key-window:140-166 | The copy, restart and wait succeed exactly when every command does, the copy is the backup, it reads Safe and a Safe service is seen within the attempts |
| KeyWindow.Helper.OnExit | bin/roko-session-key-window:178-185 | Always leaves the run recovered or stopped, with a failing exit code, 1 if stopped |
| KeyWindow.Helper.OpenAndEnroll | bin/roko-session-key-window:186-199 | Reaches enrollment only through an observed Unsafe service, and whenever no command failed and no signal came; any early end leaves recovery pending or the state untouched |
| KeyWindow.Helper.OpenWindow | bin/roko-session-key-window:186-193 | The Unsafe service is reached exactly when the policy is written, the restart succeeds, Unsafe is seen within the attempts and no signal came |
| KeyWindow.Helper.WaitForPolicy | bin/roko-session-key-window:124-138 | At most the configured checks; success means the expected mode was observed |
| KeyWindow.Helper.WritePolicy | bin/roko-session-key-window:112-122 | The policy file is the old one or the complete new one |
| KeyWindow.Helper.RestorePriorPolicy | bin/roko-session-key-window:140-149 | Success means byte equality with the backup, whatever the copy did |
| KeyWindow.Helper.RunEnrollment | bin/roko-session-key-window:195-199 | One enrollment in the chosen mode; its failure ends the stretch |
| KeyWindow.UnsafeFileNotSafe | bin/roko-session-key-window:97 | The temporary policy never passes for the exact Safe state |
| KeyWindow.ReadsSafeIff | bin/roko-session-key-window:97 | A file reads safe exactly when, carriage returns apart, it is the line and nothing but line ends after it |
| KeyWindow.SomeWorldGoesThrough | bin/roko-session-key-window:186-203 | A course of events in which nothing fails exists for every backup |
| KeyWindowTrace.LegalCounts | bin/roko-session-key-window:190-201 | At most two restarts and one enrollment |
| KeyWindowTrace.StopIsLast | bin/roko-session-key-window:167-174 | Nothing follows a stop, so there is at most one |
| KeyWindowTrace.EnrollAfterUnsafe | bin/roko-session-key-window:191-199 | Enrollment follows at once on a check that saw Unsafe, with only checks since the restart that opened the window |
| KeyWindowTrace.ClosedTrace | bin/roko-session-key-window:151-176 | A closed window ends on a check that saw Safe after a restart on the Safe policy; its phase tells exactly whether enrollment succeeded |
| WalletSchedules.OnceIffIdle | wallet/cli.mjs:62-82 | After any careful history, where a next step is due: every schedule that can come of reading the account applies each call at most once if and only if no call signed earlier can still be included |
| WalletSchedules.BalanceWithinStakeIffIdle | wallet/logic.mjs:11-14 | Where a lock is due: the balance stays within the stake on every such schedule if and only if no call signed earlier can still be included |
| WalletSchedules.LockedTwice | wallet/logic.mjs:30 | A run that locks 20 for a stake of 10: the pool forgets the first lock, which resurfaces before the index is read again |
| WalletSchedules.RepeatExecutes | wallet/logic.mjs:30 | From any state with the due call signed but forgotten, a schedule that applies that call twice in a row |
| WalletSchedules.HonestGateIffIdle | wallet/cli.mjs:65 | After any careful history, if the pool shows every signed call the pending-nonce gate opens exactly when none can still be included |
| WalletSchedules.CarefulRunsFollowPlan | wallet/cli.mjs:52-82 | On every schedule that reads the account only while no signed call can still be included: the finalized calls are a prefix of the initial plan, each at most once and in order, and the total locked is the initial shortfall |
| WalletSchedules.KeysNeverReplaced | wallet/logic.mjs:9 | On every schedule, whatever is forgotten, repeated or late: registered keys stay, and no replacement is ever signed |
| WalletSchedules.AllowedEffects | wallet/logic.mjs:8-18 | Calls an enrollment can sign, in any order and number, undo nothing, bond only the stake and never make the account conflict |
| WalletRuns.Lifetime | wallet/cli.mjs:52-84 | Any number of runs, each cut short anywhere: if each meets a pool that shows every signed call or waits until none can be included, each call takes effect at most once and in order and the total locked is the initial shortfall; registered keys stay unconditionally |
| WalletRuns.Account.Run | wallet/cli.mjs:52-84 | One run is a schedule of the model; it never fails to converge, `plan` signs nothing, success means all is done, a conflict was there from the start; it reads only an idle account if the pool is honest or the account was idle; without faults it succeeds within five iterations over an idle account, and over any other an honest pool makes it do nothing |
| WalletRuns.Account.Submit | wallet/cli.mjs:73-82 | Signing with the index read again: a finalized call shortens the plan whatever else was included meanwhile; what becomes of a call given up on is left open |
| WalletRuns.Account.Wait | wallet/cli.mjs:62-65 | Signed calls may be included or expire while time passes, in any number, undoing nothing; over an idle account none is included |
| WalletEnrollment.NextStepFollowsPlan | wallet/logic.mjs:8-18 | The step is refused exactly on conflicting keys or a bond below the stake, absent exactly when all is done, and otherwise the head of the plan |
| WalletEnrollment.NextStepCases | wallet/logic.mjs:8-18 | Each answer with exactly the states that get it: conflicting keys before a low bond, then lock, bond, keys, intent |
| WalletEnrollment.PlanOrder | wallet/logic.mjs:11-17 | At most four calls, strictly in the order lock, bond, setKeys, validate |
| WalletEnrollment.FinalizeKeepsConsistent | wallet/logic.mjs:8-18 | Finalizing the next call advances the plan by one |
| WalletEnrollment.PlanPrefixOnce | wallet/cli.mjs:52-84 | Finalized calls that are a prefix of the plan have strictly rising rank: each at most once, in order |
| WalletEnrollment.PlanPrefixLocks | wallet/logic.mjs:11-14 | They lock max(0, stake - initial balance) in all once anything is done, and nothing for an account that started bonded |
| WalletEnrollment.IncludedCallShortensPlan | wallet/logic.mjs:11-17 | A call read off one state closes its item of that state's plan in whatever later state it is included |
| Finalization.Drive | wallet/logic.mjs:19-41 | For every interleaving: settles by the earliest timer, rejected submission or invalid, dropped, usurped or finalized status, with success only for a finalized status that did not fail; reports submission at most once, unsubscribes exactly once when settled and subscribed |
| Finalization.Promise.Handle | wallet/logic.mjs:29-39 | Each event moves the promise to what the events so far dictate |
| Finalization.Promise.OnCallback | wallet/logic.mjs:30-38 | A status reports once and settles as its own fields say, if it ends the wait |
| Finalization.FirstTerminalIsFirst | wallet/logic.mjs:22-39 | The outcome is that of the earliest event that ends the wait |
| Finalization.SettledInFields | wallet/logic.mjs:22-39 | Each of the five outcomes with exactly the fields of the earliest ending event that give it |
| XxHash64.Xxhash64 | lib/validator_storage.py:11-44 | The imperative hash equals the stripe-and-unit reference for every input length and seed |
| XxHashAnswers.ShortForm | lib/validator_storage.py:26-44 | Below 32 bytes the hash starts from seed, fifth prime and length and absorbs the units of the whole input |
| XxHashAnswers.LongForm | lib/validator_storage.py:15-44 | From 32 bytes on it starts from the merged lanes and the length and absorbs the units after the last stripe |
| XxHashAnswers.EmptyAnswer | lib/validator_storage.py:26-44 | The published hash of nothing |
| XxHashAnswers.SessionAnswer | lib/validator_storage.py:29-44 | The hashes of `Session` under seeds 0 and 1 |
| XxHashAnswers.NextKeysAnswer | lib/validator_storage.py:29-32 | The hash of `NextKeys`, one unit of eight bytes |
| XxHashAnswers.LongAnswer | lib/validator_storage.py:15-44 | The published hash of a text of 39 bytes: lanes, rotations, merging and tail |
| XxHash64.ConsumeStripes | lib/validator_storage.py:15-21 | The in-place lane loop equals the recursive stripe fold and stops at the last full stripe |
| XxHash64.UpdateLanes | lib/validator_storage.py:18-20 | Each lane takes its own 8-byte word of the stripe |
| XxHash64.ConsumeTail | lib/validator_storage.py:29-39 | The three tail loops together absorb exactly the units of the tail |
| XxHash64.MergeLanes | lib/validator_storage.py:22-25 | The lanes are summed and folded in order |
| XxHashSeparation.EveryByteConsumedOnce | lib/validator_storage.py:15-39 | The stripes followed by the tail units spell the input: each byte is consumed exactly once by one phase |
| XxHashSeparation.SeparatesTailUnit | lib/validator_storage.py:11-44 | Inputs of one length that agree on all stripes and all tail units but one never collide |
| XxHashSeparation.SeparatesTailByte | lib/validator_storage.py:29-44 | Changing any single byte after the last stripe always changes the hash |
| XxHashSeparation.BijectiveOnEightBytes | lib/validator_storage.py:26-44 | On 8-byte inputs every 64-bit value has exactly one preimage, which is computed |
| XxHashSeparation.SeparatesSeeds | lib/validator_storage.py:26-44 | Below 32 bytes, hashes under two seeds are equal exactly when the seeds are equal modulo 2^64 |
| XxHashSeparation.AvalancheUndo | lib/validator_storage.py:40-44 | The closing scramble is a bijection on 64-bit values |
| XxHashSeparation.FinishUndo | lib/validator_storage.py:32-38 | Rotate, multiply and add can be undone |
| XxHashSeparation.ContributionInjective | lib/validator_storage.py:30-38 | Different units of one width contribute different values |
| XxHashSeparation.AbsorbUnitsInjective | lib/validator_storage.py:29-39 | Absorbing the same units keeps different states different |
| XxHashSeparation.AbsorbStripesIsFold | lib/validator_storage.py:17-21 | The lanes depend on the full stripes only |
| Word64.MultiplyUndo | lib/validator_storage.py:13 | Each odd multiplier is invertible modulo 2^64 |
| Word64.RotateUndo | lib/validator_storage.py:7-8 | Rotation is undone by rotating through the remaining bits |
| Word64.XorShiftUndoes | lib/validator_storage.py:40-44 | The xor-shift is injective, with an explicit inverse |
| Word64.XorShiftRedoes | lib/validator_storage.py:40-44 | The inverse is two-sided, so the xor-shift is onto |
| StorageKeys.TwoxHalvesDiffer | lib/validator_storage.py:47-49 | For names under 32 bytes the two halves of a `twox128` differ |
| StorageKeys.SessionPrefix | lib/validator_storage.py:47-53 | The prefix of the session pallet is `cec5070d609dd3497f72bde07fc96ba0` |
| StorageKeys.MapKeyParts | lib/validator_storage.py:56-60 | A map key is the value key, the little-endian hash of the account and the account in lower case |
| StorageKeys.MapKeysSeparateAccounts | lib/validator_storage.py:56-60 | Map keys are equal exactly when their prefixes are and the accounts agree up to case; the account can be read back |
| StorageKeys.HexRoundTrip | lib/validator_storage.py:59-60 | Decoding hexadecimal and encoding it again lower-cases it |
| ScaleVector.CompactRoundTrip | lib/validator_storage.py:63-77 | Every length below 2^536 survives encoding and decoding in its mode, whatever follows |
| ScaleVector.ReencodesIffCanonical | lib/validator_storage.py:63-77 | A decoded prefix re-encodes to the bytes read exactly when it is canonical |
| ScaleVector.LongZeroAccepted | lib/validator_storage.py:69-71 | A concrete non-canonical prefix the decoder accepts |
| ScaleVector.CompactAnswers | lib/validator_storage.py:63-77 | The documented examples of each mode, decoded and encoded |
| ScaleVector.DecodedFits | lib/validator_storage.py:63-77 | A decoded count is below 2^536 and its prefix lies within the input |
| ScaleVector.DecodedEntries | lib/validator_storage.py:80-87 | Decoded entries have the count and width announced and concatenate to exactly the bytes after the prefix |
| ScaleVector.VectorRoundTrip | lib/validator_storage.py:80-87 | Every list of equal-width entries survives encoding and decoding |
| FinalizedSet.ActiveIffStored | lib/validator_transition.py:52-53 | Whatever validator set is stored, an account given in any case counts as active exactly when its bytes are a member (with line 60) |
| FinalizedSet.EntryIsAccount | lib/validator_transition.py:60 | A decoded entry equals an account in text, up to case, exactly when it equals it in bytes |
| QueuedSet.ValidateQueuedSet | lib/validator_transition.py:297-322 | Accepts exactly bounded, well-formed sets in which no account repeats in any spelling |
| QueuedSet.ValidIff | lib/validator_transition.py:297-322 | What an accepted set is in the fields of its entries: names, types and widths of the seven keys, hexadecimal, no account twice |
| QueuedSet.CompareTuple | lib/validator_transition.py:358-364 | The offset loop computes the differing positions, or the length |
| QueuedSet.MatchesIffJoined | lib/validator_transition.py:358-365 | A match means exactly: full length, and the local tuple is the queued keys joined, up to case |
| QueuedSet.MismatchNamed | lib/validator_transition.py:358-364 | A name is reported exactly when that position differs; the length exactly when every position agrees |
| QueuedSet.DifferingInOrder | lib/validator_transition.py:358-362 | Names come in protocol order, each once |
| QueuedSet.FindEntryFinds | lib/validator_transition.py:337-338 | The entry found is the account's, and none is found only when there is none |
| QueuedSet.EvidenceAnyOrder | lib/validator_transition.py:325-373 | Evidence and failures are unchanged by any reordering of an accepted list |
| TransitionGate.CleanMeansOneTuple | lib/validator_transition.py:56-96 | A clean list means submitted, finalized, reported, locally observed, temporal and any queued keys are one tuple up to case |
| TransitionGate.CleanIffEveryGate | lib/validator_transition.py:67-110 | The failure list is empty exactly when every gate holds |
| TransitionMeaning.CleanIffReady | lib/validator_transition.py:56-110 | The failure list is empty exactly when the inputs' fields show a registered, held, reported and equally queued tuple, a report that agrees, and for an active member a mapping, convergence and a proven block |
| TransitionMeaning.ActiveIff | lib/validator_transition.py:99-107 | Authorship is a proof whose block is finalized, has the chain's hash at its height and the producer's index, for an account in the active set |
| TransitionMeaning.HeldIff | lib/validator_transition.py:17-41 | What custody of a registered tuple says of the report's fields |
| TransitionMeaning.FinalizedListedIff | lib/validator_transition.py:67-76 | Each failure of the finalized state is listed exactly for its reason |
| TransitionMeaning.ReadinessListedIff | lib/validator_transition.py:77-86 | Each failure of the readiness report is listed exactly for its reason |
| TransitionMeaning.ActiveListedIff | lib/validator_transition.py:99-110 | An active member without mapping, convergence or proven authorship has exactly that listed |
| TransitionMeaning.KeyListed | lib/validator_transition.py:87-96 | A key is listed exactly when its record does not match the registered key |
| TransitionGate.TransitionLocalCustody | lib/validator_transition.py:17-41 | Custody is the node's own answer, or all seven keys observed for this candidate or none |
| TransitionGate.KeyGates | lib/validator_transition.py:87-96 | The third offset loop reports exactly the positions that fail |
| TransitionGate.QueuedGates | lib/validator_transition.py:325-373 | The imperative comparison gives the specified evidence and failures |
| TransitionStatus.CheckTransition | lib/validator_transition.py:44-125 | Refuses exactly malformed arguments; otherwise the status carries exactly the gates' failures and the flags they imply |
| TransitionStatus.Status.TransitionReceipt | lib/validator_receipt.py:26-91 | A receipt comes out exactly for a well-formed qualification and no prohibited field; it shows its inputs, every listed failure and the recomputed flags, and verifies; safe to enable means exactly ready inputs and matching identities; authorship proven means a member of the active set with a proven block; safe to author, authorship proven and safe-and-active coincide |
| TransitionStatus.Status.GatedActive | lib/validator_transition.py:99-110 | An active member with a clean list is ready to author and has authored |
| TransitionStatus.Status.SealDocument | lib/validator_receipt.py:90-91 | Writing the seal changes nothing else on the page, and what is verified is the whole sealed page |
| TransitionStatus.Status.DocumentFacts | lib/validator_transition.py:111-123 | On the page each fact stands under its own name and `failedStages` names every failure in order |
| Receipt.SealVerifiesIff | lib/validator_receipt.py:12-23 | Sealing makes any fields verify, whatever seal they carried, exactly when they have the schema and no prohibited field outside the seal |
| Receipt.SealBinds | lib/validator_receipt.py:17-23 | Under the seal of a receipt that verifies nothing else verifies, whatever is changed, added or removed at any depth, unless it is an explicit collision of the hash |
| Receipt.VerifiesIffSealed | lib/validator_receipt.py:17-23 | What verifies is exactly what sealing leaves unchanged, with the schema and no prohibited field |
| Receipt.SealIdempotent | lib/validator_receipt.py:12-14 | Sealing a sealed receipt changes nothing |
| Receipt.SealWritten | lib/validator_receipt.py:90 | What the written seal is: its names, the algorithm and the hash of the canonical text of the rest |
| Receipt.DigestIgnoresSeal | lib/validator_receipt.py:12-14 | The digest is the same whatever stands in the integrity field, or nothing |
| Receipt.DigestBinds | lib/validator_receipt.py:12-14 | Equal digests mean equal fields apart from the seal, or a collision of the hash |
| Receipt.CleanIffNoPath | lib/validator_contract.py:36-44 | The scan passes exactly when no path of any depth ends in a prohibited field |
| Receipt.ProhibitedExamples | lib/validator_contract.py:16-42 | Sensitive words are found anywhere in a name and in any case; the one exempt name is not prohibited |
| CanonicalJson.DumpsInjective | lib/validator_receipt.py:14 | Two values have the same canonical text exactly when they are the same value, escapes, nesting and member order included |
| JsonReader.CanonicalTextRead | lib/validator_receipt.py:14 | A reader written from the JSON grammar reads every canonical text back to its value |
| CanonicalJson.DumpsSeparates | lib/validator_receipt.py:14 | A value and where its text stops can be told from any longer text |
| CanonicalJson.SortedKeysRise | lib/validator_receipt.py:14 | The members come strictly sorted by key |
| CanonicalJson.EscapeUndo | lib/validator_receipt.py:14 | Every character's escape can be undone, and its first two characters tell its length |
| SourceSelection.ChooseSources | lib/stratum1_select/candidate_ranking.py:73-87 | The two loops with early exit compute the greedy choice |
| SourceSelection.ChoiceShape | lib/stratum1_select/candidate_ranking.py:75-87 | The choice has min(count, distinct eligible rows) rows, all eligible and different |
| SourceSelection.ChoiceOperators | lib/stratum1_select/candidate_ranking.py:77-87 | An operator repeats only when every eligible operator is present |
| SourceSelection.ChoiceIsOptimal | lib/stratum1_select/candidate_ranking.py:73-87 | No selection of that size has more operators, and none with as many has a smaller total delay |
| SourceSelection.ChoiceDominates | lib/stratum1_select/candidate_ranking.py:73-87 | At every cut of the ranking the choice holds at least as many near rows as any rival |
| SourceSelection.DominanceBoundsDelay | lib/stratum1_select/candidate_ranking.py:70 | Holding more of every near part makes the total delay no larger |
| SourceSelection.RankingIsByDelayIff | lib/stratum1_select/candidate_ranking.py:70 | The ranking is by delay exactly when no eligible delay is zero or none is positive |
| SourceSelection.LeastDelayIff | lib/stratum1_select/candidate_ranking.py:70-87 | Where no eligible delay is negative: for every count the choice has the least total delay among selections of its size with as many operators, exactly when no eligible delay is zero or none is positive |
| SourceSelection.ZeroDelayPassedOver | lib/stratum1_select/candidate_ranking.py:70 | Rows with delays 0 and 1: the zero ranks last and a choice of one takes the other |
| SourceSummary.MeasureCandidate | lib/stratum1_select/candidate_ranking.py:22-42 | At most the asked number of queries, a pause between any two, and none after a server asks to stop |
| SourceSummary.SummaryOffsetBound | lib/stratum1_select/candidate_ranking.py:45-58 | From the packets on: the median offset is off by at most half the longest round trip of the usable replies, given the one-way delays of those alone |
| SourceSummary.SummaryValues | lib/stratum1_select/candidate_ranking.py:45-58 | The reported delay is that of some usable reply and of none larger, and the offset the median of the usable ones |
| SourceSummary.MedianInTheMiddle | lib/stratum1_select/candidate_ranking.py:56 | The median is the mean of the two middle values: at least half of all values lie on either side |
| SourceSummary.EveryQueryRecorded | lib/stratum1_select/candidate_ranking.py:31-41 | Every query leaves exactly one reading or error |
| SourceSummary.KissOfDeathNeverEligible | lib/stratum1_select/candidate_ranking.py:61-62 | A server that ever answered kiss-o'-death is not eligible |
| SourceSummary.MedianWithin | lib/stratum1_select/candidate_ranking.py:56 | The median lies within any bounds of the values |
| SourceSummary.EligibleIff | lib/stratum1_select/candidate_ranking.py:45-63 | Eligible exactly with two usable replies, all of stratum 1, and no request to back off |
| NtpProbe.ServerReplyAccepted | lib/stratum1_select/ntp_probe.py:56-70 | A packet is accepted exactly when it echoes the request, has a stratum, is in server mode and carries a time; its fields are read back |
| NtpProbe.ShortReplyIff | lib/stratum1_select/ntp_probe.py:57-58 | A reply is short exactly below 48 bytes |
| NtpProbe.StopCodes | lib/stratum1_select/ntp_probe.py:63-65 | A server asks to stop exactly by `RATE`, `DENY` or `RSTR` |
| NtpProbe.EpochAnswers | lib/stratum1_select/ntp_probe.py:32-33 | The era starts in 1900 and half the fraction is half a second |
| NtpProbe.OffsetErrorBound | lib/stratum1_select/ntp_probe.py:68-70 | The delay is the sum of the one-way delays and the offset is off by half their difference |
| NtpProbe.TimestampRoundTripIff | lib/stratum1_select/ntp_probe.py:27-33 | A timestamp survives fixed-point form exactly when not before 1970 or whole |
| NtpProbe.HalfSecondBefore1970 | lib/stratum1_select/ntp_probe.py:27-33 | Half a second before 1970 comes back as half a second after |
| ArgumentFilter.SanitizeNodeArguments | lib/node_snapshot/privacy_filter.py:56-73 | The index-jumping loop equals a parse of each position on its own, cut at 128 entries |
| ArgumentFilter.FlagsReported | lib/node_snapshot/privacy_filter.py:56-73 | Every flag is reported in order at its own position: cut at the first equals sign, or with the next token as value unless that is a flag |
| ArgumentFilter.ValueComesOut | lib/node_snapshot/privacy_filter.py:48-53 | An allowed value comes out as its first 128 characters, a path as the scrubber returns it, anything else redacted |
| ArgumentFilter.SanitizedOutputHidesValues | lib/node_snapshot/privacy_filter.py:48-73 | Command lines that differ only in values of flags off the allow list, or in stray words, give identical output |
| ArgumentFilter.ShownValuesAllowed | lib/node_snapshot/privacy_filter.py:48-53 | A value on show belongs to an allow-listed flag or is the redaction mark |

## Left out

- KeyWindow.Helper.Run: signals that arrive inside `restore_safe` or `on_exit`, SIGKILL, and whether `systemctl stop` itself succeeds are outside what the script guarantees; the service is taken to change only at restarts, stops and while a check waits, and comes up from a restart in any mode.
- Argument parsing and the preflight of the key window, before its traps, only die or go on, and change nothing.
- WalletRuns.Account.Run: the gates on package, runtime, peer, minimum bond and fees are one nondeterministic gate on each side of the reading.
- WalletRuns.Account.Wait: whether an included call succeeds is left open each time, so a chain that would refuse a repeated bond is one case among others.
- WalletRuns.Lifetime: stake and keys are the same in every run, as the documentation asks, and no other program signs for the account.
- Finalization.Drive: a submission that throws before returning a promise is not modelled.
- WatchSampling.SampledFacts: `sample_once` is modelled on values, without the dictionaries it fills in place; the shape checks on fields that reach neither a check nor a proof (peer counts, time quality, texts, peer exclusions) can only make a sample fail, and are left out with the JSON-RPC envelope.
- WatchEvaluation.Evaluate: the sorted order of session indexes, the order of the proof list and the fields copied through for display.
- TransitionStatus.CheckTransition: RPC calls are inputs; field-by-field validation of the readiness report is kept only as far as the tuple claims need it; node roles are omitted.
- TransitionStatus.Status.TransitionReceipt: that a receipt comes out is stated of the finished page, without the fact that the page's own field names pass the scan; whether the reviewed identities are well formed and match the chain is one answer each; advice in the failure texts is cut, and fields of the report that no gate reads (session index, peer counts, key types) are not on the page.
- CanonicalJson.DumpsInjective: numbers are integers, as in every receipt; encoding the text as UTF-8 is not part of this model, and SHA-256 is an arbitrary function.
- XxHash64.Xxhash64: seeds are any integers; encoding names as UTF-8 is not part of this model.
- ScaleVector.DecodedEntries: the raw response is given as bytes, or as missing when it is not a hexadecimal string.
- SourceSummary.SummaryOffsetBound: rounding to hundredths of a millisecond; times are exact reals.
- ArgumentFilter.SanitizeNodeArguments: the path scrubber is an arbitrary function, since it reads the home directory.
- Timing-policy validation (`validate_timing_policy`), hardware and time collectors, installers, `authority_peers` and the enrollment package itself: flat conjunctions or I/O.
