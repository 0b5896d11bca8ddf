# A verified model of the mobile egress proxy

The repository runs an authenticated proxy on a phone and sends its traffic out over one cellular network
that a root-installed policy reserves for it. This project models the decisions that system rests on and
proves what they guarantee over every input, every run or every reachable state.

* **Root policy** (`MarkAudit`, `MarkMeaning`, `MangleAudit`, `PacketWalk`, `RootPolicy`, `InstalledPolicy`,
  `IdentityChoice`, `OccupiedMarks`, `NamespacesApart`, `ProductChain`): the audit of an `iptables` mangle listing as
  a three-colour depth-first walk, the meaning of a clean audit for rule words and for packets, the selection of the
  reserved identity for every snapshot and across restarts, and what the installed rules do.
* **Cellular owner, effect gate, policy coordinator** (`CellularOwner`, `CellularRuntime`,
  `PolicyCoordinator`, `PolicyProtocol`): every lock region is one atomic step of a protocol whose steps
  interleave freely.
* **Rotation and remote commands** (`Rotation`, `RotationHistory`, `RotationTrail`, `RestoreDuty`,
  `RotationAnswers`, `ControlLedger`, `ControlHistory`): the one-operation machine, the facts it accumulates, the
  restore it owes, and the ledger that keeps a repeated command from starting a second rotation.
* **Byte codecs** (`Proto`, `ProtoScan`, `TemporaryCredential`, `TemporaryRecord`, `ExternalCredential`,
  `Provisioning`, `LenientFields`, `WireForms`, `DerSignature`, `Base64`, `Utf8`): exact inverses, acceptance of
  exactly the canonical forms, and leases that survive restarts.
* **Proxy ingress** (`ProxyAuth`, `ProxyStream`, `Socks5`, `Socks5Refusals`, `HttpConnect`, `HttpText`, `MixedIngress`,
  `ProxyAgreement`): the two parsers, their common port, and when the two ways of presenting a credential agree.
* **Connector and readiness** (`Connector`, `Readiness`): bounded candidates with a fair share of the
  deadline, and a readiness verdict that is never stale.

State the program updates in place is a class whose methods are proved against functions on values; loops are
methods with invariants; the theorems are lemmas about those functions. Marks are sets of bit positions,
machine integers are naturals with their limits written out, and text is either Unicode scalars or UTF-8 bytes.

## Where a property is false of the code

* A rule whose `set-xmark` value has bits outside its mask can move the candidate bit although the audit calls
  it clean, because only the mask is inspected. `MarkAudit.OneOverZeroMovesCandidate` gives such a rule and
  `MarkAudit.CleanRuleExactCondition` says exactly which clean rules keep the candidate;
  `PacketWalk.CleanListingExactCondition` says the same of all walks through a clean listing.
* A stale owner event while a network is admitted queues the same generation again, and a reconcile can then run
  while the gate is open. `PolicyProtocol.StaleEventBreaksExclusion` gives the run for every such event, and
  `PolicyProtocol.AloneExactlyWhenCalm` the exact condition: a sequence of owner events keeps reconciles alone in
  every interleaving if and only if none of them is stale while a network is admitted.
* A stored username with a colon makes the HTTP Basic and the username/password path disagree, unless it is the
  temporary one and its pair, cut at the first colon, is the primary pair. `ProxyAuth.PathsAgreeExactly` gives this
  exact condition, `ProxyAuth.RecutBreaksPrimary` and `ProxyAuth.RecutBreaksTemporary` the pairs on which they
  differ. Over clients with any username, `ProxyAuth.PathsAgreeOnEveryClient` says the paths agree exactly when no
  stored username or password holds a colon.
* One stored pair that is too long or too short for SOCKS5 makes SOCKS5 refuse every client, while HTTP CONNECT still
  admits them: `ProxyAgreement.LongPrimarySplits` gives an admission and a client. For every admission
  `ProxyAgreement.ProtocolsAgreeExactly` says exactly when the two protocols admit the same clients, and
  `ProxyAgreement.UnambiguousAgreeExactly` what that is for unambiguous ones: every stored pair fits, or no stored
  pair can be presented.
* A refused rotation call may still change private facts (`Rotation.RefusedCallMayRaiseOwner`).
  `Rotation.RefusedCallChangesExactly` says exactly when: it reports a generation newer than any seen for the live
  operation. The published snapshot never changes (`Rotation.RefusedCallKeepsSnapshot`).

## Model

| member | source | states |
|---|---|---|
| `MarkAudit.AuditMarkSemantics` | crates/cellular/src/root_policy.rs:964-1021 | the token loop returns the first fault in order, and `Ambiguous` for a mark target without a known mark option |
| `MarkAudit.CleanAtEveryToken` | crates/cellular/src/root_policy.rs:964-1021 | no fault is reported exactly when every token of the rule is clean |
| `MarkAudit.CleanOpKeepsCandidate` | crates/cellular/src/root_policy.rs:964-1021 | a mark option the audit calls clean leaves the candidate bits of both marks when its value avoids them |
| `MarkAudit.CleanRuleKeepsCandidate` | crates/cellular/src/root_policy.rs:964-1021 | a clean rule whose values lie inside their masks leaves the candidate bits of the packet and the connection mark, for every starting mark |
| `MarkAudit.CleanRuleExactCondition` | crates/cellular/src/root_policy.rs:1092-1103 | a clean rule keeps the candidate bits of every mark if and only if no option sets a candidate bit and every candidate bit is toggled an even number of times |
| `MarkAudit.CleanRuleOnBit` | crates/cellular/src/root_policy.rs:964-1021 | a clean rule that never sets a candidate bit flips it exactly by the parity of its toggles, and leaves the other mark's bit |
| `MarkAudit.ForcedEndsAlike` | crates/cellular/src/root_policy.rs:1092-1103 | a candidate bit some option sets ends the same whatever it was |
| `MarkAudit.EmptyMaskMovesCandidate` | crates/cellular/src/root_policy.rs:1092-1103 | a value with a candidate bit under an empty mask moves that bit |
| `MarkAudit.OneOverZeroMovesCandidate` | crates/cellular/src/root_policy.rs:1092-1103 | the rule with `1/0` is audited clean and moves the candidate bit |
| `MarkMeaning.BitsOfMeaning` | crates/cellular/src/root_policy.rs:1092-1103 | the bits of a word are its binary digits that are one |
| `MarkMeaning.NumberReads` | crates/cellular/src/root_policy.rs:1105-1113 | every 64-bit number is read back from decimal and from hexadecimal after `0x` or `0X` |
| `MarkMeaning.BareSpecTouches` | crates/cellular/src/root_policy.rs:1092-1103 | a readable mark spec without a mask touches every candidate of a 32-bit mark; an unreadable one is undecided |
| `MarkMeaning.MaskedSpecTouches` | crates/cellular/src/root_policy.rs:1092-1103 | a spec with a mask touches a candidate if and only if the mask has one of its bits |
| `MarkMeaning.WordCleanExactly` | crates/cellular/src/root_policy.rs:964-1027 | a word of a rule is clean if and only if its argument, read as a number or a spec, avoids the candidate, and save or restore has both masks avoiding it |
| `MarkMeaning.WordAmbiguousExactly` | crates/cellular/src/root_policy.rs:964-1027 | a word is ambiguous if and only if its argument is missing or cannot be read |
| `MarkMeaning.RuleCleanExactly` | crates/cellular/src/root_policy.rs:964-1021 | a rule is clean if and only if all its words are and a mark target has a known mark option |
| `MarkMeaning.BareMarkCollides` | crates/cellular/src/root_policy.rs:976-1010 | matching or setting a mark without a mask, and saving or restoring without both masks, collides with every candidate |
| `MangleAudit.ChainTargetOf` | crates/cellular/src/root_policy.rs:1035-1053 | the scan for `-j` and `-g` agrees with the left-to-right target function |
| `MangleAudit.TargetMeaning` | crates/cellular/src/root_policy.rs:1029-1061 | a rule has a named target exactly when it jumps and every jump names that one target; it has none exactly when it does not jump |
| `MangleAudit.ParseListing` | crates/cellular/src/root_policy.rs:858-901 | a listing is returned exactly for well-formed lines, and it describes them: declared chains and, per chain, its rules in order |
| `MangleAudit.DescriptionUnique` | crates/cellular/src/root_policy.rs:858-901 | well-formed lines have one description |
| `MangleAudit.Visit` | crates/cellular/src/root_policy.rs:903-949 | the depth-first walk ends; a clean return has finished the chain and everything it reaches, any other verdict names a fault reachable from OUTPUT |
| `MangleAudit.PathDescends` | crates/cellular/src/root_policy.rs:903-949 | along every path from OUTPUT the finishing order strictly falls, so a finished walk has no cycle |
| `MangleAudit.FinishedCovers` | crates/cellular/src/root_policy.rs:903-962 | a finished walk from OUTPUT covers every reachable chain, all acyclic and all of whose rules pass |
| `MangleAudit.FaultBreaks` | crates/cellular/src/root_policy.rs:903-962 | a reported fault is incompatible with an acyclic, passing reachable part |
| `MangleAudit.AuditMangleOutput` | crates/cellular/src/root_policy.rs:858-962 | `Clean` if and only if the listing is well formed, product lines are allow-listed, and the part reachable from OUTPUT is acyclic with every rule passing; other verdicts carry their reason |
| `PacketWalk.StepDescends` | crates/cellular/src/root_policy.rs:858-962 | in an acyclic listing every step of a packet lowers the cost of its call stack |
| `PacketWalk.WalksEnd` | crates/cellular/src/root_policy.rs:858-962 | every walk of a packet through an acyclic listing is bounded by a number the listing fixes |
| `PacketWalk.CleanListingKeepsCandidate` | crates/cellular/src/root_policy.rs:964-1021 | in every walk through a clean listing no rule outside the allow-list moves a candidate bit, given values inside masks |
| `PacketWalk.CleanListingExactCondition` | crates/cellular/src/root_policy.rs:858-1021 | no walk of a clean listing moves a candidate bit at a foreign rule if and only if every reachable foreign rule that acts on a mark is neutral |
| `PacketWalk.ReachRule` | crates/cellular/src/root_policy.rs:858-962 | every rule of a reachable chain is reached by some walk with any marks |
| `PacketWalk.ForeignWalkKeepsCandidate` | crates/cellular/src/root_policy.rs:964-1021 | over a whole walk without product rules the candidate bits end where they began |
| `RootPolicy.AuditReservedPolicySpace` | crates/cellular/src/root_policy.rs:406-438 | `Clean` exactly when both mangle audits are clean and no foreign rule line uses the reserved marks or priorities; such a line is a collision |
| `RootPolicy.RootPolicyContract.constructor` | crates/cellular/src/root_policy.rs:168-177 | a fresh contract has no active identity |
| `RootPolicy.RootPolicyContract.ClearActiveIdentity` | crates/cellular/src/root_policy.rs:187-189 | forgets the identity and nothing else |
| `RootPolicy.RootPolicyContract.ResolveIdentity` | crates/cellular/src/root_policy.rs:209-270 | a held identity is kept if it is still eligible and clean and is never exchanged; without one the first eligible clean candidate is selected and held |
| `RootPolicy.RootPolicyContract.VerifyFailClosedBase` | crates/cellular/src/root_policy.rs:272-307 | accepts exactly an identity with a clean reserved space, exactly attached chains in both families, both guards and no lookup; otherwise the first mismatch |
| `RootPolicy.RootPolicyContract.HasAnyProductSignature` | crates/cellular/src/root_policy.rs:331-364 | finds a product line or a line of any candidate, and leaves the active identity as it was |
| `RootPolicy.OwnedLinesDiffer` | crates/cellular/src/root_policy.rs:753-796 | two candidates with the same chain lines are the same candidate |
| `RootPolicy.AttachedExactMeaning` | crates/cellular/src/root_policy.rs:366-404 | `AttachedExact` means one definition, one jump and exactly the owned chain lines |
| `RootPolicy.ExactChainsLeaveOneEligible` | crates/cellular/src/root_policy.rs:209-270 | with both families exactly attached only that identity is prefix-compatible |
| `RootPolicy.RestartSelectsSameIdentity` | crates/cellular/src/root_policy.rs:209-307 | whenever the fail-closed check accepts a snapshot under an identity, a fresh contract resolves that snapshot to the same identity |
| `RootPolicy.HeldIsCandidate` | crates/cellular/src/root_policy.rs:209-270 | over every run a contract holds only its own candidates |
| `RootPolicy.RestartKeepsIdentity` | crates/cellular/src/root_policy.rs:209-307 | whatever one lifetime did, a snapshot it verifies is resolved to the same identity by the next |
| `RootPolicy.HeldIdentityStays` | crates/cellular/src/root_policy.rs:209-270 | resolution never replaces a held identity by another |
| `RootPolicy.SelectionsAgree` | crates/cellular/src/root_policy.rs:209-270 | over any run without a clear, all selected identities are equal |
| `RootPolicy.FailClosedExactly` | crates/cellular/src/root_policy.rs:272-307 | each answer of the fail-closed check if and only if it is the first of its demands that is not met |
| `RootPolicy.FamilyStateExactly` | crates/cellular/src/root_policy.rs:366-404 | each other family state if and only if the listing has that many definitions and jumps and does or does not hold the exact chain |
| `RootPolicy.DanglingExactly` | crates/cellular/src/root_policy.rs:209-232 | a jump dangles if and only if it is present while the chain is not declared or has no rule |
| `IdentityChoice.FreshChoiceExactly` | crates/cellular/src/root_policy.rs:209-270 | for every snapshot a fresh contract selects a candidate if and only if it is the first whose chain lines fit and whose space is clean, and none if and only if there is none or a jump dangles |
| `IdentityChoice.HeldChoiceExactly` | crates/cellular/src/root_policy.rs:209-270 | a contract answers with the identity it holds if and only if that is still usable |
| `IdentityChoice.CandidateReservesOneBit` | crates/cellular/src/root_policy.rs:50-102 | each candidate reserves one bit of a 32-bit mark |
| `IdentityChoice.MarksAreApart` | crates/cellular/src/root_policy.rs:50-102 | the mark of one candidate touches the bit of another if and only if they are the same |
| `IdentityChoice.BareFwmarkIsForeign` | crates/cellular/src/root_policy.rs:711-733 | a routing rule on a mark without a mask is foreign to every candidate |
| `IdentityChoice.PrintedRuleExactly` | crates/cellular/src/root_policy.rs:711-751 | a rule on one candidate's mark is foreign to another if and only if it takes a reserved priority, and to its own unless it is the guard or the lookup |
| `OccupiedMarks.OccupiedSelectsNext` | crates/cellular/src/root_policy.rs:1162-1192 | with the first n candidates' marks set by other owners the next candidate is selected, and with all four none |
| `OccupiedMarks.SelectedSurvivesRelease` | crates/cellular/src/root_policy.rs:1195-1215 | the selected candidate stays selected when those rules disappear |
| `OccupiedMarks.OccupiedIsUnsigned` | crates/cellular/src/root_policy.rs:331-364 | such rules are not taken for the product's own |
| `NamespacesApart.OtherBuildIsUndisturbed` | crates/cellular/src/root_policy.rs:50-102 | whatever a release build has installed, every candidate of a debug build is usable and its first is selected, and the other way round |
| `ProductChain.ProductTrafficIsMarked` | crates/cellular/src/root_policy.rs:753-796 | the installed rules, for every packet and marks: the product's traffic off the device gets the reserved bit on both marks when it opens a connection and on the packet from the connection later; nothing else changes |
| `InstalledPolicy.InstalledVerifies` | crates/cellular/src/root_policy.rs:1330-1361 | for every uid, namespace and candidate the installed chain lines, jump and guards are accepted as fail-closed |
| `InstalledPolicy.LookupIsNoticed` | crates/cellular/src/root_policy.rs:1363-1372 | the same policy with a routing lookup through any safe table is refused for that lookup |
| `InstalledPolicy.EveryCandidateCanBeHeld` | crates/cellular/src/root_policy.rs:209-307 | a fresh contract that finds a candidate's policy installed holds that candidate and accepts the policy |
| `InstalledPolicy.InstalledMangleIsClean` | crates/cellular/src/root_policy.rs:753-962 | the installed listing passes the mangle audit in both families, for every candidate mark |
| `InstalledPolicy.InstalledIsAttached` | crates/cellular/src/root_policy.rs:366-404 | the installed listing is exactly attached |
| `InstalledPolicy.RuleLineReads` | crates/cellular/src/root_policy.rs:693-751 | a printed routing rule reads back as its priority and its mark |
| `InstalledPolicy.OwnRuleExactly` | crates/cellular/src/root_policy.rs:698-751 | a rule on the own mark is the guard or the lookup if and only if its priority and action say so |
| `InstalledPolicy.MissingGuardIsNoticed` | crates/cellular/src/root_policy.rs:289-299 | without the guard of either family the installed policy is refused for it |
| `InstalledPolicy.ProductLineIsFound` | crates/cellular/src/root_policy.rs:331-364 | any one mangle line of the product, of any candidate or of the legacy selector, is found |
| `InstalledPolicy.ProductRuleIsFound` | crates/cellular/src/root_policy.rs:331-364 | so is any guard and any IPv4 lookup of any candidate |
| `CellularOwner.CellularEgress.constructor` | crates/cellular/src/lib.rs:214-227 | starts unknown, with no network and no sequence |
| `CellularOwner.CellularEgress.ObserveNetwork` | crates/cellular/src/lib.rs:279-309 | applies exactly the newer observations; the new state is the owner function's |
| `CellularOwner.CellularEgress.NetworkIsLost` | crates/cellular/src/lib.rs:311-336 | applies exactly the newer losses; the new state is the owner function's |
| `CellularOwner.RunStaysCoherent` | crates/cellular/src/lib.rs:279-336 | over every run a network is held exactly while admitted, and admission has no reason |
| `CellularOwner.SequenceNeverFalls` | crates/cellular/src/lib.rs:279-336 | the sequence never falls, and stays the same exactly when no event in between was applied |
| `CellularOwner.AuthorityValidatesUntilNextEvent` | crates/cellular/src/lib.rs:238-277 | a token validates later if and only if no owner event was applied since it was issued |
| `CellularOwner.InvalidStaysInvalid` | crates/cellular/src/lib.rs:259-277 | an invalid token never validates again |
| `CellularOwner.SequenceDeterminesAdmission` | crates/cellular/src/lib.rs:279-336 | within one run a sequence number determines the published admission |
| `CellularOwner.SupersededLossKeepsNetwork` | crates/cellular/src/lib.rs:311-331 | losing another handle never evicts the admitted network |
| `CellularOwner.AppliedExactlyWhenNewest` | crates/cellular/src/lib.rs:279-340 | an event is applied if and only if its sequence exceeds that of every event before it |
| `CellularOwner.HeldExactly` | crates/cellular/src/lib.rs:116-128 | over every run a network is held if and only if an applied sighting found it cellular, with internet, not VPN and validated, and no later applied event lost it, saw it without all four or saw another with all four |
| `CellularOwner.WatchedExactly` | crates/cellular/src/lib.rs:279-336 | the observed network is the last one whose sighting counted and that was not lost since |
| `CellularOwner.PublishedExactly` | crates/cellular/src/lib.rs:279-336 | for every run and next event what is published: the first failing flag as the reason, the loss, the admission, or no change |
| `CellularOwner.AuthorityExactly` | crates/cellular/src/lib.rs:238-277 | an authority is issued, and validates, if and only if it names the held network and the largest sequence |
| `CellularRuntime.CellularRuntimeCoordinator.ObserveNetwork` | crates/runtime/src/cellular_runtime.rs:105-115 | closes the gate before the owner moves, keeping the gate invariant |
| `CellularRuntime.CellularRuntimeCoordinator.NetworkLost` | crates/runtime/src/cellular_runtime.rs:117-128 | closes the gate before the owner moves, keeping the gate invariant |
| `CellularRuntime.CellularRuntimeCoordinator.AuthorizeRootPolicy` | crates/runtime/src/cellular_runtime.rs:158-178 | opens the gate exactly for the owner's current admitted generation and closes it for any other |
| `CellularRuntime.CellularRuntimeCoordinator.Acquire` | crates/runtime/src/cellular_runtime.rs:243-253 | grants exactly behind an open gate and counts the permit |
| `CellularRuntime.CellularRuntimeCoordinator.DropPermit` | crates/runtime/src/cellular_runtime.rs:288-301 | one permit fewer, the count still exact |
| `PolicyCoordinator.CellularPolicyCoordinator.OfferNewOwnerRequest` | crates/runtime/src/cellular_policy_coordinator.rs:367-400 | queues the newest request, counts a displaced one, disarms recovery, and asks for a drain only if none is scheduled |
| `PolicyCoordinator.CellularPolicyCoordinator.TakeLatest` | crates/runtime/src/cellular_policy_coordinator.rs:402-433 | takes the queued request, or ends the drain when there is none |
| `PolicyCoordinator.CellularPolicyCoordinator.RecordExecuted` | crates/runtime/src/cellular_policy_coordinator.rs:402-433 | counts one executed request and changes nothing else |
| `PolicyCoordinator.CellularPolicyCoordinator.ScheduleRecovery` | crates/runtime/src/cellular_policy_coordinator.rs:529-558 | arms one timer of the current epoch unless one is pending, with the delay of the attempt |
| `PolicyCoordinator.CellularPolicyCoordinator.FireRecovery` | crates/runtime/src/cellular_policy_coordinator.rs:560-588 | only the armed timer of the current epoch queues its request, and only for a current generation |
| `PolicyCoordinator.CellularPolicyCoordinator.ResetRecovery` | crates/runtime/src/cellular_policy_coordinator.rs:626-633 | disarms every timer by moving the epoch |
| `PolicyCoordinator.SameGenerationExactly` | crates/runtime/src/cellular_policy_coordinator.rs:649-663 | two admissions are one generation if and only if they agree in sequence, state and network, and one without a sequence is the unknown one |
| `PolicyCoordinator.RetriesSlowDown` | crates/runtime/src/cellular_policy_coordinator.rs:669-674 | retry delays never shrink, grow up to the sixth and stay at a minute |
| `PolicyProtocol.GateNamesCurrentGeneration` | crates/runtime/src/cellular_runtime.rs:105-178 | in every interleaving an open gate names the owner's current admitted generation and `in_flight` equals the live permits |
| `PolicyProtocol.QueueIsConserved` | crates/runtime/src/cellular_policy_coordinator.rs:367-588 | in every interleaving at most one drain exists, a queued request has a drain, and offers plus fired recoveries equal executed plus coalesced plus queued plus in process |
| `PolicyProtocol.KnownIsCurrent` | crates/runtime/src/cellular_policy_coordinator.rs:649-663 | for published admissions the currentness test is equality with what the owner publishes now |
| `PolicyProtocol.ExclusionStep` | crates/runtime/src/cellular_policy_coordinator.rs:367-588 | every step whose owner event, if any, is fresh or finds nothing admitted keeps: one token per admitted generation among callers, queue, drain, timer and open gate |
| `PolicyProtocol.RunIsExclusive` | crates/runtime/src/cellular_policy_coordinator.rs:367-588 | the exclusion invariant holds in every state of every run without a stale event under an admitted network |
| `PolicyProtocol.ReconcileRunsAlone` | crates/runtime/src/cellular_policy_coordinator.rs:435-521 | in every such run a reconcile runs only while the gate is closed with no permit in flight |
| `PolicyProtocol.StaleEventBreaksExclusion` | crates/runtime/src/cellular_policy_coordinator.rs:343-400 | after any events that leave a network admitted, any stale event leads to a reconcile behind an open gate with a permit out |
| `PolicyProtocol.AloneExactlyWhenCalm` | crates/runtime/src/cellular_policy_coordinator.rs:367-588 | a sequence of owner events keeps reconciles alone in every state of every interleaving if and only if none is stale while a network is admitted |
| `PolicyProtocol.RepeatedSightingBreaksExclusion` | crates/runtime/src/cellular_policy_coordinator.rs:343-400 | the same sighting twice is already such a sequence |
| `PolicyProtocol.TransientFailureArmsRecovery` | crates/runtime/src/cellular_policy_coordinator.rs:506-520 | exactly the five failures the source calls retryable arm a timer for their request unless one is armed |
| `PolicyProtocol.LastingOutcomeResetsRecovery` | crates/runtime/src/cellular_policy_coordinator.rs:506-520 | every other failure disarms recovery and leaves the gate |
| `PolicyProtocol.EnforcedOpensExactly` | crates/runtime/src/cellular_policy_coordinator.rs:489-505 | an enforced current request opens the gate for its own network if and only if one is admitted |
| `PolicyProtocol.EnforcedElsewhereCloses` | crates/runtime/src/cellular_runtime.rs:158-178 | an enforced request for a network the owner left closes the gate |
| `PolicyProtocol.PendingRecoveryHasTimer` | crates/runtime/src/cellular_policy_coordinator.rs:529-588 | in every interleaving a pending recovery has a timer of its epoch |
| `PolicyProtocol.ArmedTimerQueues` | crates/runtime/src/cellular_policy_coordinator.rs:560-588 | that timer queues its request, if current, with a drain to take it |
| `Rotation.RotationStateMachine.StartOperation` | crates/rotation/src/lib.rs:238-272 | one operation at a time, a fresh id, no wrap-around, and the refusals in order |
| `Rotation.RotationStateMachine.Lookup` | crates/rotation/src/lib.rs:511-535 | refuses a stale id first and a terminal phase second |
| `Rotation.RotationStateMachine.RecordBeforeAddress` | crates/rotation/src/lib.rs:274-293 | accepted only while preparing and at the starting generation |
| `Rotation.RotationStateMachine.DataDisableMutationStarted` | crates/rotation/src/lib.rs:295-305 | a started mutation must be restored |
| `Rotation.RotationStateMachine.DataDisableEffectCompleted` | crates/rotation/src/lib.rs:307-338 | an applied disable waits for the loss, and a loss already seen advances at once |
| `Rotation.RotationStateMachine.DataEnableEffectCompleted` | crates/rotation/src/lib.rs:340-361 | an applied enable waits for recovery, and facts already seen advance at once |
| `Rotation.RotationStateMachine.ObserveCellularFact` | crates/rotation/src/lib.rs:363-404 | the new operation is that of the fact function, including private facts raised by refused calls |
| `Rotation.RotationStateMachine.ObserveRootPolicyFact` | crates/rotation/src/lib.rs:406-444 | the new operation is that of the fact function |
| `Rotation.RotationStateMachine.RecordAfterAddress` | crates/rotation/src/lib.rs:446-472 | the after-address at the probed generation alone decides changed or unchanged |
| `Rotation.RotationStateMachine.FailOperation` | crates/rotation/src/lib.rs:474-488 | an active operation fails with the reason given |
| `Rotation.RotationStateMachine.RecordRestoreResult` | crates/rotation/src/lib.rs:490-509 | a failed operation records its restore, which clears the obligation exactly when data is enabled |
| `Rotation.CallKeepsInv` | crates/rotation/src/lib.rs:274-542 | every call keeps the phase invariant: restore is owed in loss-wait and enabling, never from recovery through success |
| `Rotation.PhaseMovesForward` | crates/rotation/src/lib.rs:274-542 | within an operation the phase rank never falls except from root-policy wait back to recovery wait, and a terminal phase stays |
| `Rotation.RefusedCallKeepsSnapshot` | crates/rotation/src/lib.rs:238-542 | a refused call leaves the published snapshot and the next id |
| `Rotation.RefusedCallMayRaiseOwner` | crates/rotation/src/lib.rs:363-404 | a refused observation can raise the private owner generation |
| `Rotation.RefusedCallChangesExactly` | crates/rotation/src/lib.rs:363-444 | after every run a refused call changes the machine if and only if it reports a newer generation for the live operation, and then only raises that generation and retires older facts |
| `Rotation.RunKeepsInv` | crates/rotation/src/lib.rs:238-542 | the invariant holds after every run |
| `Rotation.IdsIncrease` | crates/rotation/src/lib.rs:238-272 | operation ids strictly increase over every run |
| `RestoreDuty.RestoreOwedExactly` | crates/rotation/src/lib.rs:295-509 | over every log, failed operations included, restore is owed if and only if the last accepted call that bears on it is a started, applied or uncertain disable or an enable that was not applied |
| `RotationAnswers.AcceptedExactly` | crates/rotation/src/lib.rs:274-542 | after every run a call is accepted if and only if it names the current operation and is awaited in its phase, and stale if and only if it names another |
| `RotationAnswers.RefusalNamesReason` | crates/rotation/src/lib.rs:274-509 | a refused call with the right id is stale in its generation or out of phase, as the call and phase say |
| `RotationAnswers.StartExactly` | crates/rotation/src/lib.rs:238-272 | after every run a start is refused for no generation, a live operation or used-up ids, in this order, and for nothing else |
| `RotationAnswers.StartBegins` | crates/rotation/src/lib.rs:238-272 | an accepted start publishes the next id with nothing known but the generation |
| `RotationAnswers.IdsCountStarts` | crates/rotation/src/lib.rs:238-272 | the id of the current operation is the number of accepted starts |
| `RotationAnswers.FailureExactly` | crates/rotation/src/lib.rs:307-488 | over every log an operation has failed if and only if an accepted call of it reported that failure |
| `RotationAnswers.RestoreResultExactly` | crates/rotation/src/lib.rs:490-509 | the restore result is the last one accepted for the operation |
| `RotationAnswers.RotationCanSucceed` | crates/rotation/src/lib.rs:238-472 | from every idle machine with an id left a rotation can be completed, as changed if and only if the addresses differ |
| `RotationHistory.RecoveryFactsRefineHistory` | crates/rotation/src/lib.rs:150-209 | until probing starts, each recovery fact is absent or the newest generation seen, as decided by the last facts at that generation |
| `RotationHistory.PositiveFactsCommute` | crates/rotation/src/lib.rs:363-444 | positive cellular and root facts of one generation commute |
| `RotationHistory.LossRevokesEarlierRoot` | crates/rotation/src/lib.rs:172-183 | a loss at the newest generation revokes an earlier root authorization of it |
| `RotationTrail.LogKeepsTrail` | crates/rotation/src/lib.rs:238-542 | along every log the operation carries a trail of the entries that justify its phase |
| `RotationTrail.SuccessNeedsWholeTrail` | crates/rotation/src/lib.rs:274-472 | success implies, in this order, before-address at the start generation, applied disable, a newer loss before enabling, applied enable, and admission and authorization of one newest generation whose after-address decides |
| `RotationTrail.RecoveryIsNewerThanLoss` | crates/cellular/src/lib.rs:279-336 | if the facts project one owner run, the recovered generation is strictly newer than the loss |
| `ControlLedger.ControlState.Reserve` | crates/runtime/src/control_runtime.rs:710-722 | reserves only an empty slot |
| `ControlLedger.ControlState.AckResult` | crates/runtime/src/control_runtime.rs:802-824 | moves exactly a matching terminal operation to the front of a window of thirty-two, dropping the oldest |
| `ControlLedger.ControlState.ObserveRotation` | crates/runtime/src/control_runtime.rs:826-864 | sets a missing result of the matching operation and never replaces one |
| `ControlLedger.ControlState.MarkAcceptanceDeliveryFailed` | crates/runtime/src/control_runtime.rs:1000-1018 | rejects only the matching operation that has no result yet |
| `ControlLedger.ControlState.RecordActivationFailure` | crates/runtime/src/control_runtime.rs:738-750 | replaces whatever result the pending request has by rejected |
| `ControlLedger.SecondRequestIsRejected` | crates/runtime/src/control_runtime.rs:659-689 | a command beside another pending one is answered `REJECTED` without an operation, and nothing else changes |
| `ControlLedger.UnpreparedRequestIsRejected` | crates/runtime/src/control_runtime.rs:696-709 | so is a new command that is not prepared |
| `ControlLedger.RepeatIsAnswered` | crates/runtime/src/control_runtime.rs:680-694 | a repeated command is told its operation and, if there is one, its result, and starts nothing |
| `ControlLedger.NewRequestIsAccepted` | crates/runtime/src/control_runtime.rs:696-736 | a new command that is prepared, reserved and written is accepted under its id and only then activated |
| `ControlLedger.LostAcceptanceIsRejected` | crates/runtime/src/control_runtime.rs:724-732 | an acceptance that cannot be written rejects its operation unless that has a result |
| `ControlLedger.ActivationIsSettled` | crates/runtime/src/control_runtime.rs:738-752 | a refused activation rejects its operation, an accepted one leaves it pending |
| `ControlLedger.TerminalIsRecorded` | crates/runtime/src/control_runtime.rs:826-864 | a terminal rotation is recorded once, for the pending operation it names |
| `ControlLedger.ResultIsTold` | crates/runtime/src/control_runtime.rs:780-800 | a recorded result is told under its request and id and stays until acknowledged |
| `ControlLedger.AckRetires` | crates/runtime/src/control_runtime.rs:802-824 | an acknowledgement retires a pending operation of that request with a result to the front, and does nothing else |
| `ControlLedger.WithoutForgets` | crates/runtime/src/control_runtime.rs:802-824 | exactly the operations of the retired request leave the window before it is put in front |
| `ControlHistory.FindRecentFinds` | crates/runtime/src/control_runtime.rs:665-677 | the lookup finds an operation of that request exactly when the window holds one |
| `ControlHistory.WindowStep` | crates/runtime/src/control_runtime.rs:659-864 | at every step the window is the last thirty-two acknowledged requests, all distinct and none pending |
| `ControlHistory.RunIsKept` | crates/runtime/src/control_runtime.rs:659-864 | window, ids, results and activations are consistent in every state of every run |
| `ControlHistory.ActivatedOnceAfterAcceptance` | crates/runtime/src/control_runtime.rs:724-750 | an operation is activated at most once and only after its own ACCEPTED was written |
| `ControlHistory.ResultsNeverDisagree` | crates/runtime/src/control_runtime.rs:755-800 | all RESULTs naming one operation carry the same value, across sessions |
| `ControlHistory.PreparedOnlyWhenForgotten` | crates/runtime/src/control_runtime.rs:679-700 | a request is prepared only when it is neither pending nor among the last thirty-two acknowledged |
| `ControlHistory.RepeatNeedsThirtyTwoAcks` | crates/runtime/src/control_runtime.rs:659-864 | two activations of one request are separated by acknowledgements of at least thirty-two other requests |
| `DerSignature.TakeDerLength` | crates/control/src/lib.rs:439-459 | short form, or one or two bytes naming at least 128 |
| `DerSignature.LengthExactly` | crates/control/src/lib.rs:439-459 | a length is read if and only if it is one byte below 128, `0x81` and a byte from 128, or `0x82` and two bytes of at least 128 |
| `DerSignature.TakeDerInteger` | crates/control/src/lib.rs:402-423 | takes exactly a non-negative minimal INTEGER inside the input |
| `DerSignature.CopyInteger32` | crates/control/src/lib.rs:425-437 | writes the value right-aligned into its thirty-two bytes and nothing else, or refuses and writes nothing |
| `DerSignature.P256DerSignatureToP1363` | crates/control/src/lib.rs:378-400 | accepts an input if and only if it is the DER encoding of some 1 <= r, s < 2^256, and returns their thirty-two byte forms |
| `DerSignature.DerIsInjective` | crates/control/src/lib.rs:378-400 | no two pairs of scalars share an encoding |
| `DerSignature.FixedHoldsNumber` | crates/control/src/lib.rs:425-437 | the fixed form has thirty-two bytes and the same big-endian value |
| `DerSignature.SignatureText` | crates/control/src/lib.rs:210-222 | the text form of any accepted signature has 86 base64url characters and decodes to it |
| `Base64.EncodeBase64` | crates/control/src/lib.rs:481-506 | the chunk loop gives the encoding, for both alphabets, padded or not |
| `Base64.RoundTrip` | crates/control/src/lib.rs:481-506 | decoding gives the bytes back in all four variants |
| `Base64.EncodingIsInjective` | crates/proxy/src/http_connect.rs:133-154 | equal texts encode equal bytes |
| `Base64.UrlForm` | crates/control/src/lib.rs:366-376 | the unpadded URL form has the exact length and only characters the validator accepts |
| `Base64.PaddedForm` | crates/control/src/lib.rs:481-506 | padding appends one `=` per byte missing from the last group, to four characters per group |
| `Proto.WriteVarint` | crates/credentials/src/proto.rs:23-30 | appends the varint of the value |
| `Proto.WriteField` | crates/credentials/src/proto.rs:6-21 | appends tag and payload of a field |
| `Proto.ProtoReader.constructor` | crates/credentials/src/proto.rs:46-49 | starts at the beginning of the input |
| `Proto.ProtoReader.ReadVarint` | crates/credentials/src/proto.rs:71-85 | reads the varint at the position, never past the end, at most ten bytes |
| `Proto.ProtoReader.ReadTag` | crates/credentials/src/proto.rs:55-69 | reads a tag with a non-zero field number and moves forward |
| `Proto.ProtoReader.ReadBytes` | crates/credentials/src/proto.rs:87-93 | reads length-delimited bytes that lie inside the input |
| `Proto.ProtoReader.Skip` | crates/credentials/src/proto.rs:95-109 | skips exactly one payload of a known wire type |
| `WireForms.TagExactly` | crates/credentials/src/proto.rs:55-69 | a tag is read if and only if the varint is a field number below 2^29, not nought, and a wire type |
| `WireForms.SkipExactly` | crates/credentials/src/proto.rs:95-109 | an unknown field is skipped by exactly its payload for the four wire types and refused for the others |
| `Proto.ProtoReader.Advance` | crates/credentials/src/proto.rs:111-118 | moves only within the input |
| `Proto.VarintIsU64` | crates/credentials/src/proto.rs:71-85 | whatever is read is a u64 and the position moved forward inside the input |
| `Proto.VarintRoundTrip` | crates/credentials/src/proto.rs:23-85 | every written u64 is read back from any place, consuming exactly its bytes |
| `Proto.FieldRoundTrip` | crates/credentials/src/proto.rs:6-93 | every written field is read back by tag and payload |
| `Proto.MessageIsInjective` | crates/credentials/src/proto.rs:6-30 | a message determines its fields |
| `ProtoScan.ScanFields` | crates/credentials/src/persistence.rs:41-80 | the lenient scan ends on every input and agrees with the field-by-field function |
| `ProtoScan.ScanRoundTrip` | crates/credentials/src/persistence.rs:32-80 | a message of known fields in order is scanned back to exactly those fields |
| `LenientFields.ScanExactly` | crates/credentials/src/persistence.rs:41-91 | any list of fields in any order is scanned if and only if known ones have their wire type and no number twice; the slots then hold exactly the known fields |
| `TemporaryCredential.EncodeTemporaryLease` | crates/credentials/src/temporary.rs:148-161 | writes the canonical lease |
| `TemporaryCredential.DecodeTemporaryLease` | crates/credentials/src/temporary.rs:166-222 | accepts exactly the encodings of valid leases and returns that lease |
| `TemporaryCredential.LeaseRoundTrip` | crates/credentials/src/temporary.rs:148-222 | every valid lease is the one its encoding stands for |
| `TemporaryCredential.RestartIsTransparent` | crates/credentials/src/temporary.rs:61-222 | any run with restarts anywhere ends as the run without them, in a valid lease |
| `TemporaryCredential.DeadStaysDead` | crates/credentials/src/temporary.rs:108-143 | nothing reactivates an expired or revoked lease |
| `TemporaryCredential.ActiveExactlyWhileSteady` | crates/credentials/src/temporary.rs:108-143 | a lease is active if and only if every reading so far was in order and before the deadline and nothing was withdrawn |
| `TemporaryCredential.AdmittedExactlyWhileSteady` | crates/credentials/src/temporary.rs:61-143 | a reading is admitted if and only if it and all before it are non-decreasing in [activation, activation+86400) |
| `WireForms.LeaseBytes` | crates/credentials/src/temporary.rs:148-161 | the bytes of a lease, field by field |
| `WireForms.ValidLeaseExactly` | crates/credentials/src/temporary.rs:61-222 | the leases that decode are exactly those an activation and its life can produce |
| `WireForms.ActivateExactly` | crates/credentials/src/temporary.rs:61-84 | each refusal of an activation, and the lease of one day, if and only if its cause holds |
| `TemporaryRecord.EncodeTemporaryRecord` | crates/credentials/src/temporary.rs:296-303 | writes the canonical record |
| `TemporaryRecord.DecodeTemporaryRecord` | crates/credentials/src/temporary.rs:305-382 | accepts exactly the encodings of valid records and returns that record |
| `TemporaryRecord.RecordRoundTrip` | crates/credentials/src/temporary.rs:296-382 | every valid record is the one its encoding stands for |
| `TemporaryRecord.IssuedIsValid` | crates/credentials/src/temporary.rs:245-266 | an issued record is valid |
| `TemporaryRecord.LivedRecordRestores` | crates/credentials/src/temporary.rs:281-382 | whatever a valid record lives through, its durable form restores it |
| `TemporaryRecord.RecordRestartIsTransparent` | crates/credentials/src/temporary.rs:281-382 | any run of a persisted record with restarts anywhere ends as the run without them, with its secrets |
| `WireForms.RecordBytes` | crates/credentials/src/temporary.rs:296-303 | the bytes of a record |
| `WireForms.SecretExactly` | crates/credentials/src/temporary.rs:245-266 | a secret is accepted if and only if it has a visible character, no NUL and at most 255 bytes |
| `WireForms.IssueExactly` | crates/credentials/src/temporary.rs:245-266 | a record is issued if and only if both secrets are accepted and the lease activates, with the error of the first that fails |
| `ExternalCredential.RevokedStaysRevoked` | crates/credentials/src/lib.rs:89-109 | over every run versions never fall and a revoked version is never active again |
| `ExternalCredential.EncodeState` | crates/credentials/src/persistence.rs:32-39 | writes the canonical state |
| `ExternalCredential.DecodeState` | crates/credentials/src/persistence.rs:41-91 | the state of the scanned fields, with unknown fields skipped |
| `ExternalCredential.StateRoundTrip` | crates/credentials/src/persistence.rs:32-91 | every valid state is decoded from its encoding |
| `ExternalCredential.CanonicalAcceptedExactly` | crates/credentials/src/persistence.rs:93-118 | persisted bytes resolve if and only if they are the encoding of a valid state, to that state |
| `ExternalCredential.ResolutionIsStable` | crates/credentials/src/persistence.rs:93-155 | any successful resolution, once persisted, resolves to use-current with the same state and bytes |
| `ExternalCredential.LegacyResolvesExactly` | crates/credentials/src/persistence.rs:120-144 | with a root and both legacy values resolution succeeds if and only if the text reads as a version of at least one; that version, revoked exactly when the flag says so, is to be persisted |
| `ExternalCredential.LegacyVersionReads` | crates/credentials/src/persistence.rs:120-144 | every version written in decimal is resolved, revoked or not |
| `ExternalCredential.OutcomeExactly` | crates/credentials/src/persistence.rs:93-155 | mixed schemas, half a legacy pair, a missing root, a root without state and a first install each if and only if that is what was found |
| `ExternalCredential.LivedExactly` | crates/credentials/src/lib.rs:89-109 | over every run the version counts the rotations up to the last 64-bit value and the state is revoked if and only if nothing renewed it since a revocation |
| `ExternalCredential.BothFieldsRead` | crates/credentials/src/persistence.rs:41-91 | version nought and flags above one are refused, each with its error |
| `ExternalCredential.FlagAloneRefused` | crates/credentials/src/persistence.rs:41-91 | a record without a version is malformed |
| `LenientFields.StateDecodesExactly` | crates/credentials/src/persistence.rs:41-91 | any list of fields decodes to a state if and only if it carries that version and flag, whatever else it carries |
| `WireForms.StateBytes` | crates/credentials/src/persistence.rs:32-39 | the bytes of an active and of a revoked state |
| `Provisioning.EncodeEnvelope` | crates/credentials/src/provisioning.rs:55-72 | encodes exactly active states with valid material and refuses the rest |
| `Provisioning.DecodeEnvelope` | crates/credentials/src/provisioning.rs:74-169 | the envelope of the scanned fields, one error for everything else |
| `Provisioning.EnvelopeRoundTrip` | crates/credentials/src/provisioning.rs:55-169 | every valid envelope is decoded from its encoding |
| `Provisioning.DecodedIsValid` | crates/credentials/src/provisioning.rs:74-207 | only valid envelopes whose id matches their version are decoded |
| `LenientFields.EnvelopeDecodesExactly` | crates/credentials/src/provisioning.rs:74-169 | any list of fields decodes to an envelope if and only if it carries schema one and its six parts and the envelope is valid |
| `WireForms.EnvelopeBytes` | crates/credentials/src/provisioning.rs:55-72 | the bytes of an envelope |
| `WireForms.MaterialExactly` | crates/credentials/src/provisioning.rs:180-208 | material is valid if and only if the challenge has 32 bytes, the username is `mish-` and 32 lower-case hexadecimal digits and the password 64 of them |
| `WireForms.CredentialIdExactly` | crates/credentials/src/lib.rs:85-87 | ids of different versions differ |
| `Utf8.TextRoundTrip` | crates/credentials/src/provisioning.rs:171-178 | text comes back from its UTF-8 bytes |
| `ProxyAuth.ConstantTimeEq` | crates/proxy/src/auth.rs:198-207 | is equality of byte strings of any lengths |
| `ProxyAuth.MatchesUsernamePassword` | crates/proxy/src/auth.rs:54-57 | matches exactly the stored pair |
| `ProxyAuth.ExpectedBasicAuthorization` | crates/proxy/src/http_connect.rs:124-131 | the Basic value of the material |
| `ProxyAuth.MatchesHttpBasic` | crates/proxy/src/auth.rs:47-52 | matches exactly the stored Basic value |
| `ProxyAuth.BasicDeterminesUserPass` | crates/proxy/src/http_connect.rs:124-154 | equal Basic values carry equal bytes |
| `ProxyAuth.ClassifyUsernamePassword` | crates/proxy/src/auth.rs:152-169 | the primary pair first, the temporary one only while available |
| `ProxyAuth.ClassifyHttpBasic` | crates/proxy/src/auth.rs:137-150 | the primary value first, the temporary one only while available |
| `ProxyAuth.PathsAgreeExactly` | crates/proxy/src/auth.rs:108-182 | both paths give every client with a colon-free username the same principal if and only if the stored usernames are colon-free, or the temporary one recuts to the primary pair |
| `ProxyAuth.PathsAgreeOnEveryClient` | crates/proxy/src/auth.rs:108-182 | both paths give every client whatever the same principal if and only if no stored username or password holds a colon |
| `ProxyAuth.RecutBreaksTemporary` | crates/proxy/src/auth.rs:137-169 | beside a colon-free primary username, a temporary one with a colon makes the paths differ on the recut pair, unless that is the primary pair |
| `ProxyAuth.BasicMeansReading` | crates/proxy/src/http_connect.rs:124-154 | exactly one client with a colon-free username has the Basic value of a stored pair |
| `ProxyAuth.RecutBreaksPrimary` | crates/proxy/src/auth.rs:137-169 | a primary username with a colon makes the paths differ on the recut pair |
| `ProxyStream.ByteStream.Read` | crates/proxy/src/mixed.rs:98-109 | a replayed byte first, then the stream, in order |
| `ProxyStream.ByteStream.ReadExact` | crates/proxy/src/socks5.rs:163-185 | fills the buffer however reads are cut up, or reports the end |
| `Socks5.NegotiateUsernamePassword` | crates/proxy/src/socks5.rs:163-185 | result, unread rest and reply of the greeting stage |
| `Socks5.Authenticate` | crates/proxy/src/socks5.rs:187-218 | result, unread rest and reply of the authentication stage |
| `Socks5.ReadConnectRequest` | crates/proxy/src/socks5.rs:220-325 | result, unread rest and reply of the request stage |
| `Socks5.AcceptSocks5Connect` | crates/proxy/src/socks5.rs:124-132 | the three stages in order, with all replies written |
| `Socks5.HandshakeReads` | crates/proxy/src/socks5.rs:124-325 | every well-formed handshake with an accepted pair yields its target, both replies, and every later byte unread |
| `Socks5.HandshakeRefused` | crates/proxy/src/socks5.rs:187-218 | a well-formed handshake with a refused pair is answered with the failure status and read no further |
| `Socks5.AcceptedIsHandshake` | crates/proxy/src/socks5.rs:124-325 | whatever is accepted is such a handshake followed by the unread rest |
| `Socks5.AcceptedExactly` | crates/proxy/src/socks5.rs:124-325 | a stream is accepted if and only if the stored credentials fit and it starts with a well-formed handshake presenting an accepted pair |
| `Socks5Refusals.OtherVersionRefused` | crates/proxy/src/socks5.rs:163-168 | another version is refused without a reply |
| `Socks5Refusals.OtherMethodsRefused` | crates/proxy/src/socks5.rs:170-182 | a greeting without username and password, an empty one included, is told that no method is acceptable |
| `Socks5Refusals.NoUsernameRefused` | crates/proxy/src/socks5.rs:187-196 | another subnegotiation version or an empty username is malformed and refused with status one |
| `Socks5Refusals.NoPasswordRefused` | crates/proxy/src/socks5.rs:198-207 | so is an empty password |
| `Socks5Refusals.MalformedRequestRefused` | crates/proxy/src/socks5.rs:220-228 | after every accepted opening, another version or a non-zero reserved octet is a general failure |
| `Socks5Refusals.OtherCommandRefused` | crates/proxy/src/socks5.rs:230-258 | BIND, UDP ASSOCIATE and other commands have their own errors and the reply that the command is not supported |
| `Socks5Refusals.OtherAddressTypeRefused` | crates/proxy/src/socks5.rs:300-307 | another address type is not supported |
| `Socks5Refusals.BadNameRefused` | crates/proxy/src/socks5.rs:271-298 | an empty name or one with a control character is refused with a reply, one that is not UTF-8 without |
| `Socks5Refusals.ZeroPortRefused` | crates/proxy/src/socks5.rs:316-325 | port nought is a general failure, after any host |
| `Socks5Refusals.HandshakeCut` | crates/proxy/src/socks5.rs:124-325 | a handshake cut at any byte is an early end of the stream with exactly the replies of the stages before |
| `HttpConnect.ScanHeader` | crates/proxy/src/http_connect.rs:46-62 | the header loop agrees with the in-order scan, first fault first |
| `HttpConnect.ScanFindsTheOne` | crates/proxy/src/http_connect.rs:46-64 | well-formed fields with exactly one authorization yield its trimmed value |
| `HttpConnect.ParseHttpConnectRequest` | crates/proxy/src/http_connect.rs:15-69 | size, end, text, request line, fields, credential and authority are judged in that order |
| `HttpConnect.HeaderAcceptedExactly` | crates/proxy/src/http_connect.rs:29-69 | a header yields a target if and only if it is a three-word CONNECT line of HTTP/1.0 or 1.1, all fields are well formed, exactly one authorization is accepted, and the authority parses to that target |
| `HttpText.LinesRejoin` | crates/proxy/src/http_connect.rs:28-29 | the lines of a header, none with a line break, give the header back |
| `HttpText.JoinedLinesSplit` | crates/proxy/src/http_connect.rs:28-29 | lines without breaks, joined, are split back |
| `HttpText.FieldLineExactly` | crates/proxy/src/http_connect.rs:45-54 | a line is a field if and only if it is a non-empty name without white space, a colon and a value |
| `HttpText.SameIgnoringCaseExactly` | crates/proxy/src/http_connect.rs:55-55 | names match if and only if they agree letter by letter up to ASCII case |
| `HttpText.AuthorizationExactly` | crates/proxy/src/http_connect.rs:48-60 | a field is the authorization if and only if its name is, in any case; its value is trimmed |
| `HttpConnect.HeaderIsText` | crates/proxy/src/http_connect.rs:26-27 | a request is text exactly when what precedes its end is |
| `HttpConnect.ParsedTargetIsValid` | crates/proxy/src/http_connect.rs:71-122 | every parsed authority is a destination the target type allows |
| `HttpConnect.AuthorityAcceptedExactly` | crates/proxy/src/http_connect.rs:71-122 | an authority yields a target if and only if it is a bracketed IPv6 host or a plain IPv4 host or name, with a port, and the target is the one it spells |
| `HttpConnect.AuthorityRoundTrip` | crates/proxy/src/http_connect.rs:71-122 | a rendered name and port parse back to the same destination |
| `HttpConnect.IncompleteExactly` | crates/proxy/src/http_connect.rs:19-24 | a request is incomplete if and only if it has neither ended nor passed the limit |
| `HttpConnect.AcceptHttpConnectStream` | crates/proxy/src/mixed.rs:56-82 | consumes exactly through the first CRLF CRLF, or stops after 16385 bytes or at the end, and judges what it consumed |
| `MixedIngress.AcceptMixedConnect` | crates/proxy/src/mixed.rs:22-119 | result, unread rest and replies are those of the direct parser the first byte selects; any other first byte is consumed and refused |
| `ProxyAgreement.RequestReads` | crates/proxy/src/http_connect.rs:15-69 | a written CONNECT request parses to its authority if its authorization is accepted and is refused otherwise |
| `ProxyAgreement.RequestFits` | crates/proxy/src/http_connect.rs:19-21 | a request with a pair of at most 255 bytes each stays below the limit |
| `ProxyAgreement.VerdictsAgree` | crates/proxy/src/auth.rs:108-182 | for an unambiguous admission the Basic text and the pair get the same verdict |
| `ProxyAgreement.HttpAnswers` | crates/proxy/src/http_connect.rs:15-131 | for every admission, a client is given its target over HTTP CONNECT exactly when it is the reading of a stored pair in force |
| `ProxyAgreement.SocksAnswers` | crates/proxy/src/socks5.rs:124-325 | for every admission, a client gets `InvalidCredentialLength` over SOCKS5 if a stored pair does not fit, else its target exactly when it is a stored pair in force |
| `ProxyAgreement.OneClientOneAnswer` | crates/proxy/src/auth.rs:108-196 | under an unambiguous admission one pair and one destination get the same target or a refusal over both protocols if every stored pair fits; if one does not, SOCKS5 refuses with `InvalidCredentialLength` whatever HTTP answers |
| `ProxyAgreement.LongPrimarySplits` | crates/proxy/src/auth.rs:179-196 | a primary of 300 bytes and a short temporary pair: HTTP admits that pair and SOCKS5 answers `InvalidCredentialLength` |
| `ProxyAgreement.ProtocolsAgreeExactly` | crates/proxy/src/auth.rs:108-196 | for every admission and destination, both protocols admit the same clients with colon-free usernames if and only if: with all stored pairs fitting, each is read as stored or as the primary; otherwise none reads as a pair that fits |
| `ProxyAgreement.UnambiguousAgreeExactly` | crates/proxy/src/auth.rs:108-196 | for an unambiguous admission, if and only if every stored pair fits or none both fits and has a colon-free username |
| `ProxyAgreement.SocksShutExactly` | crates/proxy/src/auth.rs:179-196 | SOCKS5 answers `InvalidCredentialLength` if and only if a stored username or password is empty or longer than 255 bytes |
| `Connector.BoundedIpv4Candidates` | crates/runtime/src/cellular_connector.rs:477-495 | the first eight distinct IPv4 addresses, or an error when there is none |
| `Connector.DistinctMeaning` | crates/runtime/src/cellular_connector.rs:477-495 | the distinct addresses are exactly the IPv4 ones, each once, in the order of their first occurrence |
| `Connector.ResolveCurrentDomain` | crates/runtime/src/cellular_connector.rs:279-330 | addresses are returned if and only if the answer came in time, the authority was confirmed after it and some address is usable; each error if and only if its own stage failed |
| `Connector.PrepareAttempt` | crates/runtime/src/cellular_connector.rs:457-460 | an attempt is prepared for the fourth effect from here, its authority confirmed at the second, with its share of the deadline; otherwise time or authority ran out |
| `Connector.SettleAttempt` | crates/runtime/src/cellular_connector.rs:461-472 | a stream is passed on only in time and with the authority still confirmed; the next candidate only after a refusal that was no rejection, with the authority confirmed right after it |
| `Connector.TryCandidates` | crates/runtime/src/cellular_connector.rs:456-475 | every logged connect ran three effects after its own confirmation, every one but the last was refused and survived, and the answer is the stream, what stopped the loop, or the last refusal |
| `Connector.ConnectHost` | crates/runtime/src/cellular_connector.rs:416-475 | at most eight attempts, in candidate order, each just validated and under the authority issued when the call began; success means the last connect succeeded and the authority was confirmed after it; every other answer is the one its cause demands |
| `Connector.StreamMeansHeldAuthority` | crates/runtime/src/cellular_connector.rs:416-475 | if the world shows one run of the owner, a returned stream means that the authority was valid at every effect from its issue to the return |
| `Connector.NextSliceIsNoSmaller` | crates/runtime/src/cellular_connector.rs:497-512 | when attempts end by their deadlines, slices never shrink |
| `Connector.EveryAttemptGetsItsShare` | crates/runtime/src/cellular_connector.rs:497-512 | no attempt's slice is below the floor of the initial remaining time over the number of candidates, and none passes the operation deadline |
| `Readiness.EgressProbeCoordinator.constructor` | crates/application/src/lib.rs:68-73 | starts without freshness or ticket |
| `Readiness.EgressProbeCoordinator.NextFreshness` | crates/application/src/lib.rs:116-124 | the next freshness, or nothing when exhausted |
| `Readiness.EgressProbeCoordinator.BeginProbe` | crates/application/src/lib.rs:75-80 | issues the one current ticket with a new freshness |
| `Readiness.EgressProbeCoordinator.InvalidateProbe` | crates/application/src/lib.rs:84-88 | a new freshness and no current ticket |
| `Readiness.EgressProbeCoordinator.CompleteBounded` | crates/application/src/lib.rs:97-114 | consumes exactly the current ticket and classifies by the budget |
| `Readiness.FreshnessIncreases` | crates/application/src/lib.rs:75-124 | over every run freshness never falls and grows with every begin or invalidate |
| `Readiness.OneObservationPerTicket` | crates/application/src/lib.rs:97-114 | later observations carry strictly newer freshness, so a ticket yields at most one |
| `Readiness.ReadyMeansFresh` | crates/readiness/src/lib.rs:123-201 | ready implies an in-budget success bound to all five current owner keys, with nothing begun or invalidated since its ticket |
| `Readiness.VerdictExactly` | crates/readiness/src/lib.rs:175-205 | READY, DEGRADED and NOT_READY each if and only if the five facts are present and good or not, belong to one runtime and credential, and the probe with those keys and freshness succeeded or failed |
| `Readiness.EligibleExactly` | crates/readiness/src/lib.rs:123-173 | a probe may be bound to these keys if and only if the five facts are good, of one runtime and credential, and report them |
| `Readiness.FreshnessCounts` | crates/application/src/lib.rs:75-124 | over every run freshness is the number of begins and invalidations, up to the last 64-bit value |
| `Readiness.TicketExactly` | crates/application/src/lib.rs:75-114 | a ticket is current if and only if its begin was the last issue and it was not completed since |
| `Readiness.FreshProbeMakesReady` | crates/application/src/lib.rs:75-124 | an open ticket completed in time with success, and nothing issued since, makes good coherent facts ready |

## Left out

- `crates/android-ffi`, `crates/android-network`, `tools`, `lab`, `config` and the Kotlin code: projections, foreign calls, scripts and deployment data.
- TLS, WebSocket, Tokio and socket plumbing, and the relay after a tunnel is accepted.
- `mesh_composition`, `lifecycle`, `proxy_recovery` and the reconnect backoff: small tables whose guarantees depend on code outside them.
- The bodies of the root-policy runtime, the rotation runtime and the DNS resolver: any result; `prepare` hands out ids it never repeats.
- JSON, SHA-256, HMAC and the text form of IP addresses: parameters, or not modelled.
- `PolicyProtocol.AloneExactlyWhenCalm`: start happens once and first, and there is no shutdown, poisoned lock or failed spawn; interface-name hints and the saturation of counters are not modelled.
- `ProductChain.ProductTrafficIsMarked`: the OUTPUT chain holds the product's jump alone, and a connection state, a destination or a mark match other than those installed is not modelled.
- `PacketWalk.CleanListingKeepsCandidate`: covers the mark options the audit knows; matches of other rule options are taken to be arbitrary.
- `Socks5.AcceptSocks5Connect`: a stream is what the peer sends before it closes; failing writes and interrupted reads are not modelled, and the credential verdict is one function of the pair.
- `HttpConnect.AcceptHttpConnectStream`: read errors other than the end of the stream are not modelled.
- The refusals of `ProxyCredentialAdmission::with_temporary`: the theorems about admissions hold of those it refuses as well.
- The reply that reports a connected destination to a SOCKS5 client, and the HTTP status lines.
- `Connector.ConnectHost`: clock overflow and poisoned locks are not modelled.
- `Connector.EveryAttemptGetsItsShare`: assumes that attempts end by their own deadlines and that the two clock readings of one computation agree.
- `ControlHistory.RunIsKept`: one control task; session timing, telemetry and shutdown are not modelled.
- `ControlLedger.ControlState.RecordActivationFailure`: timing marks and the last-result diagnostic are not modelled.
- `ProtoScan.ScanFields`: the two lenient decoders share one scan; checks that they make during the scan with the same error are made after it.
- `Rotation.RotationStateMachine.FailOperation`: also stands for the deadline call, which fails with its own reason.
- Table, interface and route helpers of the root policy, cleanup verification and stale-owner deletion: text builders and predicates without state.
- Debug redaction, timing side channels and DNS diagnostics.
