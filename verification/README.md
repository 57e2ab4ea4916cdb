# Verified model of AuditSpec

This project models the parts of AuditSpec whose correctness is an argument over all inputs or all runs, and proves
that argument in Dafny 4.11. `dafny verify dfyconfig.toml` checks all of it.

* **Contract synthesis.** `Contracts`, `Solver`, `Compiler` and `Synthesis` model the audit compiler: the bucket scan
  for twins, the branch-and-bound weighted hitting-set solver, and the counterexample-guided loop with its passive-first
  driver. Mechanisms observe worlds through an uninterpreted function; adapter and threat-model validation is an
  abstract set of rejection reasons.
* **Exhaustive specifications.** `Subsets`, `ContractSearch`, `ContractCompiler` and `ContractDuality` model the
  exhaustive compiler over finite tables, `FiniteBackend` the capped one, and `Agreement` proves that all of them and
  the loop agree. `JsonEquality` holds the two equalities of JSON values they use.
* **Information order.** `InformationOrder`, `FiniteTables`, `Certificates` and `Lifecycle` model factorization,
  replayable certificates, lifecycle descent and the audit horizon. `Adequacy` composes model adequacy with evidence
  determinacy.
* **Evidence Vault.** `VaultTypes`, `VaultModel` and `VaultRuns` model the journal, replay, and the vault directory as
  a machine of atomic writes with a crash possible before every write. `Vault` holds the commands and recovery as
  methods of a class that changes the directory, proved against that machine; `Retrieval` is retrieval for audit.
* **Canonical JSON.** `Canonical`, `Reader` and `CanonicalTheorems` model the printer, a strict parser, and their laws.
* **Expressions.** `PythonValues`, `Expression`, `LegacyExpression` and `Translation` model the typed expression
  language, the legacy evaluator, and the translation between them.
* **Mediation and dispatch.** `Topology` and `MediatedCoverage` model the mediation proof and what a coverage
  capability is worth; `Receipts`, `Dispatcher` and `DispatcherRuns` model the ledgers and the coverage closure.

Digests are injective by construction and separated by domain, signatures are a relation of which only honest signing
is assumed, instants are integers, and costs are non-negative real numbers without rounding.

## Where the code and its promises differ

* `retire_component` does not check the spelling of claim ids, but replay does. After a retirement with a malformed
  claim id the journal is refused from then on. `VaultModel.RetirementReplayed` gives the exact condition,
  `VaultModel.MalformedClaimIdIsNotReplayed` an input. The vault's runs are those without such an event.
* The exhaustive compiler compares claims and observations with Python's `==`, for which `True` is `1`; the analysis
  of auditability compares canonical text. `ContractDuality.DualityExactly` says for which pairs of rows the two agree
  on every contract, and `BlurredClaims` and `BlurredObservations` are accepted tables on which they do not.
* Certificates are verified with the same `==`. What is accepted is equal in Python to what its own rows produce, but
  may say `1` for `True`: `Certificates.AcceptedIsGenuineExactly` and `Lifecycle.AcceptedLifecycleExactly` say when some
  table produces it, `NumberForBoolean` and `LifecycleNumberForBoolean` are accepted certificates that none produces.
* Tuples and lists both become lists in the typed expression language, sets become frozen, and unary plus is dropped.
  `Translation.TranslationPreserves` holds where no tuple display is inside an operand of an equality or membership test
  or inside an element of a set, no set display is an element of a set, and unary plus is applied to integers. Outside,
  `EqualityChangesExactly`, `MembershipChangesExactly`, `SetDisplayExactly` and `UnaryPlusExactly` say construct by
  construct when the meaning changes.
* The translation evaluates what Python skips: operands after a failed comparison, and the branch not taken. So it
  raises exactly when some part of the legacy expression raises, evaluated or not, as `TranslationPreserves` states;
  `Translation.SkippedBranchRaises` is an expression that Python evaluates and its translation does not.
* Model adequacy looks at the truth value of a query's answer, the compiler at the answer itself. For a query with more
  than two answers a faithful query and a contract that decides the truth need not give CONTRACT_READY:
  `Adequacy.RawAnswersExactly` is the exact difference, `Adequacy.CountingQueryIsNotReady` an input.
* An undispatched call that was disposed of can still be executed, and a mutating call can be executed without state
  roots. `DispatcherRuns.ClosedRunsAreComplete` says that these two, and nothing else, leave coverage incomplete;
  `LateExecution` and `RootlessExecution` are runs for each.

## Model

| member | source | states |
|---|---|---|
| Contracts.DependencyClosure | src/auditspec/compiler.py:724-739 | returns the least dependency-closed superset of the chosen names, and refuses exactly when no closed superset stays within the allowed mechanisms |
| Contracts.AddRequired | src/auditspec/compiler.py:731-738 | one step of the worklist: adds exactly the missing dependencies, or refuses because one is not allowed |
| Contracts.CostMonotone | src/auditspec/compiler.py:765-767 | a larger contract never costs less, and with positive costs a strictly larger one costs strictly more |
| Solver.MinimumWeightContract | src/auditspec/compiler.py:742-809 | None exactly when no dependency-closed subset of the costed mechanisms hits every constraint; otherwise a closed hitting set of minimum cost, and with positive costs the least such tuple |
| Solver.MinimumUnique | src/auditspec/compiler.py:742-809 | with positive costs the minimum does not depend on the order of constraints or of the search |
| Solver.Reduce | src/auditspec/compiler.py:749-757 | restricting to costed names and dropping subsumed constraints refuses only unsatisfiable inputs and leaves constraints that the same contracts satisfy |
| Solver.RepresentsHits | src/auditspec/compiler.py:749-757 | the reduced constraints are hit by exactly the contracts that hit the original ones |
| Solver.Search.Recurse | src/auditspec/compiler.py:763-806 | branching, dependency closure and cost pruning lose no better solution: afterwards the incumbent is no worse than any solution that extends the selection, nor than the old incumbent |
| Solver.Search.Offer | src/auditspec/compiler.py:768-776 | a leaf replaces the incumbent exactly so that it stays the cost-then-tuple minimum of what has been seen |
| Solver.Search.Branch | src/auditspec/compiler.py:797-806 | one choice accounts for every solution that contains it |
| Solver.Choices | src/auditspec/compiler.py:778-796 | the pivot is a remaining constraint and the choices are exactly its mechanisms |
| Compiler.CheckContract | src/auditspec/compiler.py:184-250 | refuses exactly the contracts with unavailable mechanisms; otherwise auditable iff the contract is closed, meets every derived requirement and is determinate, with the exact unmet requirements and missing dependencies, and a genuine twin when it is not determinate |
| Compiler.FindTwin | src/auditspec/compiler.py:206-244 | the one-pass bucket scan finds a twin exactly when the observations do not determine the answer |
| Compiler.ObservationsDecide | src/auditspec/compiler.py:159-165 | two worlds have the same observation key exactly when no mechanism of the contract tells them apart |
| Compiler.StructuralAssurance | src/auditspec/compiler.py:167-182 | no unmet requirement and no missing dependency mean exactly that requirements are met and the contract is closed |
| Synthesis.StructuralConstraints | src/auditspec/compiler.py:313-325 | collects exactly the requirements nobody provides, and constraints equivalent to the others |
| Synthesis.EncodesRequirements | src/auditspec/compiler.py:313-325 | hitting the structural constraints is the same as meeting the requirements |
| Synthesis.DeterminateHits | src/auditspec/compiler.py:396-423 | every assured contract contains a separator of every answer-differing pair: counterexample constraints are sound |
| Synthesis.TwinIsNew | src/auditspec/compiler.py:396-423 | each twin has a separator set that is new and missed by the current selection |
| Synthesis.SynthesizeWithModes | src/auditspec/compiler.py:299-446 | an auditable status carries an assured contract of minimum cost with a deletion witness for every mechanism; a failure that is not INCONCLUSIVE means that no eligible contract exists, with its reason; iterations are at most the answer-differing pairs plus one; "Structural assurance failed" is unreachable |
| Synthesis.Round | src/auditspec/compiler.py:352-431 | one iteration either ends with an exact answer or adds one new pair and the next minimum |
| Synthesis.Refine | src/auditspec/compiler.py:421-431 | re-solving with the new constraint keeps the invariant, or shows that no assured contract exists |
| Synthesis.Progress | src/auditspec/compiler.py:396-423 | adding the separators of a twin keeps the constraints sound and records a new pair |
| Synthesis.NothingSeparates | src/auditspec/compiler.py:398-420 | an empty separator set means that every eligible mechanism sees the two worlds alike |
| Synthesis.MinimalityWitnesses | src/auditspec/compiler.py:494-521 | a mechanism gets a witness exactly when dropping it loses assurance; recorded twins are genuine, and structural witnesses list exactly the unmet requirements and missing dependencies of the reduced contract |
| Synthesis.OptimalIsIrredundant | src/auditspec/compiler.py:494-521 | with positive costs no mechanism of an optimal contract can be dropped |
| Synthesis.SeenBound | src/auditspec/compiler.py:352-446 | the pairs recorded by the loop are answer-differing pairs, which bounds its length |
| Synthesis.Synthesize | src/auditspec/compiler.py:252-297 | passive first: with enough iterations a passive contract is returned whenever one exists, an active one only when none does, and the run succeeds iff some assured contract exists |
| Topology.ShortestPath | src/auditspec/topology.py:72-96 | a path no longer than any other between the two nodes that avoids the removed node, or None exactly when there is none |
| Topology.VerifyMediation | src/auditspec/topology.py:20-69 | valid iff every source/sink pair of the channel is connected and each of its paths visits the mediator; bypass witnesses are real paths that avoid it |
| Topology.HeadIsShortest | src/auditspec/topology.py:72-96 | breadth-first order: when the sink is reached, the path found is a shortest one |
| Topology.CheckPair | src/auditspec/topology.py:45-61 | a pair is settled by one search for connection and one with the mediator removed |
| MediatedCoverage.ProvenMediators | src/auditspec/compiler.py:113-122 | the channels a coverage capability may name are exactly those whose mediation is proven under the threat model |
| MediatedCoverage.NegativeEvidenceIsMediated | src/auditspec/compiler.py:85-127 | an assured contract contains, for every channel its query depends on, a mechanism whose capture point lies on every path of that channel |
| InformationOrder.FirstTwin | src/auditspec/core/information_order.py:743-768 | one pass over buckets of canonical text returns the first row whose claim differs from that of the first row with its evidence |
| InformationOrder.TwinDecides | src/auditspec/core/information_order.py:743-768 | no twin is found exactly when the claim factors through the evidence, and a twin found is genuine |
| InformationOrder.FactorsIffDecodes | src/auditspec/core/information_order.py:61-73 | factorization is the existence of a decoder |
| InformationOrder.PostprocessingCannotRepair | src/auditspec/core/information_order.py:463-504 | no deterministic function of the evidence restores a claim the evidence has lost |
| FiniteTables.NormalizeIgnoresOrder | src/auditspec/core/information_order.py:581-603 | normalization does not depend on the order of rows |
| FiniteTables.NormalizedRows | src/auditspec/core/information_order.py:581-603 | a normalized table holds the supplied rows, valid, with unique identifiers in order |
| FiniteTables.NormalizeIdempotent | src/auditspec/core/information_order.py:581-603 | normalizing twice changes nothing |
| FiniteTables.CollectDistinct | src/auditspec/core/information_order.py:599-602 | the identifier count equals the row count exactly when identifiers are unique |
| Certificates.Partition | src/auditspec/core/information_order.py:707-721 | one group for every canonical text, in text order, with exactly its rows in row order and the last value written |
| Certificates.PartitionUnique | src/auditspec/core/information_order.py:707-721 | a table has only one partition |
| Certificates.InducedDecoder | src/auditspec/core/information_order.py:61-73 | when the claim factors, the decoder table is a function on evidence that gives every row its claim, sorted by canonical text |
| Certificates.AnalyzeAuditability | src/auditspec/core/information_order.py:43-98 | a certificate exactly for valid tables and identifiers, with partitions, decoder or twin of those rows |
| Certificates.QuotientMeaning | src/auditspec/core/information_order.py:43-98 | FACTORIZATION iff the supplied rows factor, and then the table decodes them; otherwise the twin names two supplied rows |
| Certificates.QuotientInvariant | src/auditspec/core/information_order.py:43-98 | rows supplied in another order give the same certificate |
| Certificates.VerifyAuditabilityCertificate | src/auditspec/core/information_order.py:101-112 | accepts exactly the certificates equal in Python to what their own rows produce; every genuine certificate is accepted, and the verdict of an accepted one is true of its rows |
| Certificates.QuotientRespectsSame | src/auditspec/core/information_order.py:43-98 | tables of the same canonical text have certificates of the same canonical text |
| Certificates.AcceptedIsGenuineExactly | src/auditspec/core/information_order.py:112 | an accepted certificate has the canonical text of one that some table produces iff its values have the canonical text of the recomputed ones |
| Certificates.NumberForBoolean | src/auditspec/core/information_order.py:112 | counterexample: a decoder answering 1 for the claim True is accepted, although no table produces that certificate |
| Certificates.EqualToGenuineIsNotEnough | src/auditspec/core/information_order.py:101-112 | counterexample: a certificate equal in Python to a genuine one is refused when a replaced value in its rows creates a twin |
| Lifecycle.AnalyzeLifecycle | src/auditspec/core/information_order.py:318-395 | a certificate exactly for valid tables with a deterministic transformation whose source evidence supports the claim |
| Lifecycle.Descent | src/auditspec/core/information_order.py:318-395 | PRESERVED iff some decoder of the transformed evidence reproduces every claim, and then the induced table is one; otherwise the twin names two merged states |
| Lifecycle.DescentNeedsSupport | src/auditspec/core/information_order.py:318-395 | a claim that survives a deterministic transformation was supported before it |
| Lifecycle.LifecycleInvariant | src/auditspec/core/information_order.py:318-395 | certificates do not depend on the order of rows |
| Lifecycle.VerifyLifecycleCertificate | src/auditspec/core/information_order.py:398-409 | accepts exactly the certificates equal in Python to what their own rows produce; every genuine certificate is accepted, and determinism, support and status of an accepted one are true of its rows |
| Lifecycle.AcceptedLifecycleExactly | src/auditspec/core/information_order.py:409 | an accepted certificate has the canonical text of one that some table produces iff its values have the canonical text of the recomputed ones |
| Lifecycle.LifecycleNumberForBoolean | src/auditspec/core/information_order.py:409 | counterexample: an induced decoder answering 1 for the claim True is accepted, although no table produces that certificate |
| Lifecycle.TableFacts | src/auditspec/core/information_order.py:669-704 | determinism, support and descent can be read off the normalized table |
| Lifecycle.SemanticAuditHorizon | src/auditspec/core/information_order.py:535-578 | reports sufficiency of every point, prefix closure and the last sufficient index; refuses exactly malformed timelines and regained claims without new evidence |
| Lifecycle.HorizonIsPrefixClosed | src/auditspec/core/information_order.py:535-578 | when each channel is a function of the previous one, a lost claim is never regained, so the timeline is not refused |
| Lifecycle.HorizonIsAnIndex | src/auditspec/core/information_order.py:573-576 | for such a timeline exactly the points up to the last index suffice |
| Subsets.SubsetCount | src/auditspec/core/information_order.py:155-157 | the candidates number exactly 2^n |
| Subsets.AllSubsetsExactly | src/auditspec/core/information_order.py:156-157 | the candidates are exactly the sorted tuples of the subsets |
| ContractSearch.FeasibleIsLargest | src/auditspec/core/information_order.py:136-143 | the feasible mechanisms form the largest closed admissible contract |
| ContractSearch.FeasibleMechanisms | src/auditspec/core/information_order.py:136-143 | computes exactly the mechanisms with an admissible dependency closure |
| ContractSearch.CriticalPairs | src/auditspec/core/information_order.py:771-791 | lists exactly the pairs of rows with unequal claims, in order |
| ContractSearch.GapIsAPair | src/auditspec/core/information_order.py:208-226 | some contract is adequate exactly when every critical pair has a feasible separator |
| ContractCompiler.Explore | src/auditspec/core/information_order.py:152-187 | explores min(cap, 2^n) states and completes exactly when the cap allows all of them |
| ContractCompiler.HittingIsSufficiency | src/auditspec/core/information_order.py:172-176 | hitting every separator set is the same as separating every critical pair |
| ContractCompiler.CandidatesAreAdequate | src/auditspec/core/information_order.py:168-187 | the candidates with nothing missing are the closed admissible sets that separate every pair |
| ContractCompiler.CandidateTable | src/auditspec/core/information_order.py:155-187 | the candidate table lists exactly the dependency-closed sets of feasible mechanisms |
| ContractCompiler.LowerCostInfeasible | src/auditspec/core/information_order.py:271-285 | the claim of the optimality certificate is always true: every candidate of lower cost misses a critical pair |
| ContractCompiler.Select | src/auditspec/core/information_order.py:188-235 | the sufficient candidate that is least by cost, size and name tuple, or none when no adequate contract exists |
| ContractCompiler.FirstUnseparated | src/auditspec/core/information_order.py:208-211 | finds the first pair without a separator, and one exists whenever the feasible mechanisms do not suffice |
| ContractCompiler.MinimalityCertificate | src/auditspec/core/information_order.py:244-270 | every selected mechanism gets a witness: its removal breaks closure or leaves a critical pair; the search for that pair never fails |
| ContractCompiler.SeparationCertificate | src/auditspec/core/information_order.py:237-243 | each critical pair with the least selected mechanism that separates it |
| ContractCompiler.BestIsIrredundant | src/auditspec/core/information_order.py:244-270 | costs are positive, so a closed proper subset never suffices |
| ContractCompiler.Compile | src/auditspec/core/information_order.py:115-298 | ANALYSIS_INCOMPLETE exactly when the cap is below 2^n; a completed verdict is exact |
| ContractCompiler.VerdictDetermined | src/auditspec/core/information_order.py:188-298 | EVIDENCE_GAP iff some critical pair has no feasible separator, with that first pair as obstruction; completed verdicts agree under different caps |
| ContractCompiler.CompileMinimumContract | src/auditspec/core/information_order.py:115-187 | refuses exactly malformed tables, catalogs and claim ids, the claim id only once enumeration completed |
| ContractDuality.Duality | src/auditspec/core/information_order.py:743-791 | over a table with no blurred pair a contract is sufficient exactly when an analysis of its joint observations finds a factorization |
| ContractDuality.DualityExactly | src/auditspec/core/information_order.py:771-791 | pair by pair the two notions agree for all contracts if and only if the pair is not blurred by Python equality |
| ContractDuality.BlurredClaims | src/auditspec/core/information_order.py:774-775 | counterexample: on an accepted table with the claims True and 1 the empty contract is sufficient, but a twin exists |
| ContractDuality.BlurredObservations | src/auditspec/core/information_order.py:144-151 | counterexample: on an accepted table True against 1 is not counted as a separation, although the claim factors |
| ContractDuality.JointSame | src/auditspec/core/information_order.py:743-768 | joint observations have the same canonical text exactly when every mechanism agrees |
| JsonEquality.SameIsEqual | src/auditspec/core/information_order.py:771-791 | values with the same canonical text are equal in Python |
| JsonEquality.SameWithinAType | src/auditspec/core/finite_backend.py:221 | on values of one declared type, where Booleans face Booleans, canonical text and Python equality decide alike |
| FiniteBackend.CheckDeterminacy | src/auditspec/core/finite_backend.py:207-249 | stops exactly when the worlds it needs exceed what remains; otherwise finds a clash iff the contract is not determinate, and reports the worlds it used |
| FiniteBackend.Enumerate | src/auditspec/core/finite_backend.py:97-122 | never looks at more worlds than the cap, and is cut short exactly when the total work exceeds it |
| FiniteBackend.SynthesizeFinite | src/auditspec/core/finite_backend.py:86-190 | incomplete exactly when the cap is below the total work; otherwise an exact verdict |
| FiniteBackend.CapIrrelevant | src/auditspec/core/finite_backend.py:86-190 | completed verdicts under different caps choose the same contract |
| FiniteBackend.SelectedIsIrredundant | src/auditspec/core/finite_backend.py:158-181 | even with zero costs no selected mechanism can be dropped, so the branch "global_cost_witness" is unreachable |
| FiniteBackend.EmptyIsCandidate | src/auditspec/core/finite_backend.py:123-126 | the empty contract is always a candidate, so a gap always has a twin to report |
| FiniteBackend.TotalIsCost | src/auditspec/core/mechanism_ir.py:41-50 | weighing the summed cost vector is summing the weighed costs |
| Agreement.LoopAgreesWithExhaustive | src/auditspec/compiler.py:299-446 | on the same table the counterexample loop and the exhaustive compiler both fail, or succeed at the same minimum cost |
| Agreement.LoopAgreesWithBackend | src/auditspec/core/finite_backend.py:86-130 | the counterexample loop and the capped backend both fail, or succeed at the same minimum cost |
| Agreement.ExhaustiveAgreesWithBackend | src/auditspec/core/information_order.py:152-235 | the two exhaustive solvers even select the same contract |
| Agreement.AdequateIsAssured | src/auditspec/core/information_order.py:129-187 | the exhaustive compiler and the loop look for the same contracts |
| Adequacy.ConcreteExecutions | src/auditspec/model_adequacy.py:237-254 | exactly the pairs of a world and an external combination that satisfy the constraints |
| Adequacy.CheckAdequacy | src/auditspec/model_adequacy.py:267-344 | adequate iff external truth is the query on every abstraction; MODEL_GAP iff two executions collapse with different truth; refuses empty domains and abstractions outside the model |
| Adequacy.TwinsWitnessInadequacy | src/auditspec/model_adequacy.py:346-396 | a model twin exists exactly when the model is inadequate |
| Adequacy.Composition | src/auditspec/model_adequacy.py:407-468 | a determinate contract for a faithful query decides the external truth of concrete executions |
| Adequacy.InadequacyIsFinal | src/auditspec/model_adequacy.py:407-427 | no contract decides the truth of an inadequate model |
| Adequacy.CompileAssurance | src/auditspec/model_adequacy.py:407-468 | CONTRACT_READY means that executions the contract cannot tell apart have the same truth; EVIDENCE_GAP carries two abstract worlds with different answers that nothing eligible separates; with enough iterations CONTRACT_READY iff the query is faithful and some contract is assured for its answers |
| Adequacy.RawAnswersExactly | src/auditspec/compiler.py:76-83 | a contract determines the answers of the query iff it determines their truth values and tells apart any two worlds whose answers differ but mean the same |
| Adequacy.AnswersAgreeExactly | src/auditspec/model_adequacy.py:305 | two worlds ask the same of every contract under both readings iff no two different answers of the same truth value stand between them |
| Adequacy.TruthIsAnswer | src/auditspec/model_adequacy.py:305-312 | with one answer for each truth value the compiler looks for exactly the contracts that decide truth |
| Adequacy.CountingQueryIsNotReady | src/auditspec/model_adequacy.py:407-468 | counterexample: a faithful query that counts, decided by the empty contract, for which no contract is assured |
| Expression.ValidateNode | src/auditspec/core/expression.py:287-407 | the type of a node and its node count, or refusal |
| Expression.TypeSoundness | src/auditspec/core/expression.py:287-538 | a validated expression in a fitting environment evaluates to a value of its declared type, unless and only unless it reaches a min or max of an empty collection |
| Expression.ScalarOperatorSound | src/auditspec/core/expression.py:410-467 | operators applied to values of their argument types give a value of their result type |
| Expression.AggregateSound | src/auditspec/core/expression.py:424-467 | collection operators are typed likewise and raise only for an empty min or max |
| LegacyExpression.RunChain | src/auditspec/expr.py:86-94 | the comparison loop computes the short-circuit chain |
| Translation.TranslationPreserves | src/auditspec/core/expression.py:174-284 | on the fragment a validated translation raises exactly when some part of the legacy expression raises, and otherwise evaluates to the value corresponding to the legacy result, across chained comparisons, not in, branches and negation |
| Translation.PlainResultsEqual | src/auditspec/core/expression.py:156-171 | for Booleans, integers and strings the two results are equal unless some part raises |
| Translation.ChainPreserves | src/auditspec/core/expression.py:230-263 | unless something along the chain raises, the eager conjunction of comparisons agrees with the chain that stops early |
| Translation.EqualityExactly | src/auditspec/core/expression.py:264-272 | two values are equal iff the values they become are equal and no tuple faces a list |
| Translation.EqualityChangesExactly | src/auditspec/core/expression.py:230-272 | an equality test changes its answer iff the values its operands become are equal and a tuple faces a list |
| Translation.MembershipChangesExactly | src/auditspec/core/expression.py:230-272 | a membership test changes its outcome iff a hashable tuple is looked up in a set, or only items of another shape are found |
| Translation.SetDisplayExactly | src/auditspec/core/expression.py:264-272 | a set display keeps its meaning iff some element is unhashable exactly when some element is a tuple or list |
| Translation.SkippedBranchRaises | src/auditspec/core/expression.py:273-283 | counterexample: a conditional whose skipped branch looks up a list in a set is True, while its valid translation raises |
| Translation.TupleEqualityChanges | src/auditspec/core/expression.py:264-272 | counterexample: a tuple compared with a list is False before and True after translation |
| Translation.TupleEqualityValidates | src/auditspec/core/expression.py:287-407 | that translation is accepted by the validator |
| Translation.UnaryPlusExactly | src/auditspec/core/expression.py:210-211 | for an operand that does not raise, unary plus keeps its meaning exactly on integers |
| CanonicalTheorems.Defined | src/auditspec/core/canonical.py:50-87 | the printer succeeds exactly on the values of the profile |
| CanonicalTheorems.RoundTrip | src/auditspec/core/canonical.py:50-133 | the strict reader returns the printed value, up to the insertion order of keys |
| CanonicalTheorems.Injective | src/auditspec/core/canonical.py:50-87 | two values have the same canonical text exactly when they are equal |
| CanonicalTheorems.InsertionOrderIrrelevant | src/auditspec/core/canonical.py:76-82 | dicts with the same items print alike |
| CanonicalTheorems.ReaderIsStrict | src/auditspec/core/canonical.py:106-133 | the reader only returns values with unique keys inside the profile |
| CanonicalTheorems.DigestInputInjective | src/auditspec/core/canonical.py:94-99 | digest inputs separate domains and values |
| CanonicalTheorems.QuoteLoop | src/auditspec/core/canonical.py:18-40 | the appending loop escapes the string and refuses exactly unpaired surrogates |
| Canonical.PythonAndRustKeyOrderAgree | rust/auditspec/src/canonical.rs:60-93 | the UTF-16BE byte order of Python is the code-unit order of Rust, as section 3.2.3 of RFC 8785 requires |
| Canonical.KeyOrderIsNotCodePointOrder | src/auditspec/core/canonical.py:43-47 | the key order is not code point order |
| Canonical.SortIgnoresOrder | src/auditspec/core/canonical.py:76-82 | sorting by key forgets insertion order |
| VaultReplay.Replay | src/auditspec/core/evidence_vault.py:885-1014 | the chain loop and the state loop accept exactly the journals whose chain and fold succeed, and return both |
| VaultReplay.JournalUnique | src/auditspec/core/evidence_vault.py:1345-1398 | journals accepted with the same vault root carry the same payloads and key history |
| VaultReplay.KeyChain | src/auditspec/core/evidence_vault.py:1401-1426 | every event is signed by the key in force at its position; the key history is duplicate-free and starts at the initial key |
| VaultReplay.Append | src/auditspec/core/evidence_vault.py:885-947 | replay of an extended journal is one step from the old state |
| VaultModel.AppendAccepted | src/auditspec/core/evidence_vault.py:1182-1218 | an appended event is accepted by replay exactly as its state step allows |
| VaultModel.CommandKeeps | src/auditspec/core/evidence_vault.py:313-710 | what every command checks implies that replay accepts its event and that state and store invariants survive |
| VaultModel.AllowedDeletion | src/auditspec/core/evidence_vault.py:569-608 | the retention decision behind a deletion means live, not held, and past the minimum retention |
| VaultModel.PhysicalIsUnshared | src/auditspec/core/evidence_vault.py:1114-1141 | a physical deletion is one no other live reference shares |
| VaultModel.RetirementReplayed | src/auditspec/core/evidence_vault.py:1429-1474 | replay accepts a retirement the command allowed if and only if its claim ids are well-formed |
| VaultModel.MalformedClaimIdIsNotReplayed | src/auditspec/core/evidence_vault.py:670-710 | counterexample: a claim id the command accepts and replay refuses |
| VaultModel.WriteKeeps | src/auditspec/core/evidence_vault.py:1149-1269 | every atomic write keeps the directory invariant |
| VaultRuns.RunSafe | src/auditspec/core/evidence_vault.py:313-1269 | in every run of commands, recoveries and crashes the directory invariant holds at every point |
| VaultRuns.RunRetains | src/auditspec/core/evidence_vault.py:1114-1180 | archived components and live evidence are on disk with their bytes, at most one deletion is pending, and it conflicts with no live reference |
| VaultRuns.RunRespectsLifecycle | src/auditspec/core/evidence_vault.py:423-443 | held evidence is never pending or deleted, deletions come after minimum retention, and nothing is captured against a retired component |
| VaultRuns.Successor | src/auditspec/core/evidence_vault.py:681-696 | following replacements terminates, keeps the kind and ends at a component that is not replaced |
| VaultRuns.RunGrows | src/auditspec/core/evidence_vault.py:948-1014 | records are never removed or changed, and a release is never undone |
| VaultRuns.RecoveryConverges | src/auditspec/core/evidence_vault.py:1220-1269 | each write of recovery leads to the same recovered disk |
| VaultRuns.CrashedRecoveries | src/auditspec/core/evidence_vault.py:1220-1269 | any number of crashed recoveries followed by a completed one ends as one uninterrupted recovery |
| VaultRuns.CleanIsRecovered | src/auditspec/core/evidence_vault.py:1258-1269 | a disk is its own recovery exactly when nothing is pending and it holds exactly the referenced objects |
| VaultRuns.RecoveredIsClean | src/auditspec/core/evidence_vault.py:1225-1269 | the outcome of recovery is clean and a second recovery changes nothing |
| VaultRuns.RecoveredAuthority | src/auditspec/core/evidence_vault.py:1220-1269 | recovery never changes the signing authority |
| VaultRuns.PutKeepsOutcome | src/auditspec/core/evidence_vault.py:1149-1180 | a stored object without its event leaves no trace after recovery |
| VaultRuns.DeletionCompletes | src/auditspec/core/evidence_vault.py:660-667 | the writes of a deletion after its intent are those of recovery and end in the recovered disk |
| Vault.Directory.AppendEvent | src/auditspec/core/evidence_vault.py:1182-1218 | appends exactly the signed event, or refuses a signer that is not the active key |
| Vault.Directory.PutObject | src/auditspec/core/evidence_vault.py:1149-1180 | stores content under its address and never fails on an existing object |
| Vault.Directory.Recover | src/auditspec/core/evidence_vault.py:1220-1269 | wherever it stops, recovering again leads to the same disk; it fails only for a stale signer, so "conflicts with live object references" is unreachable |
| Vault.Directory.CollectGarbage | src/auditspec/core/evidence_vault.py:1258-1269 | leaves exactly the referenced objects |
| Vault.Directory.DeleteEvidence | src/auditspec/core/evidence_vault.py:611-667 | ends in the recovered disk of its intent; interrupted, recovery leads there or to the untouched disk; refused exactly for its authority, unknown evidence or the retention decision; "already unavailable" is unreachable |
| Vault.Directory.RetireComponent | src/auditspec/core/evidence_vault.py:670-710 | writes its event; the journal stays acceptable iff the claim ids are well-formed; fails only for a stale signer or an unresolved, retired or mis-kinded component or replacement |
| Vault.Directory.AppendEvidence | src/auditspec/core/evidence_vault.py:378-458 | stores the object and the event; fails only for a stale signer, malformed or repeated identifiers, misordered dates, and unresolved, mis-kinded or retired references |
| Vault.Directory.ArchiveComponent | src/auditspec/core/evidence_vault.py:342-376 | stores the object and the event; fails only for a stale signer or refused arguments, and a late refusal leaves nothing that survives recovery |
| Vault.Directory.CreateBundle | src/auditspec/core/evidence_vault.py:460-499 | seals exactly the named live evidence; fails only for a stale signer or refused arguments |
| Vault.Directory.PlaceLegalHold | src/auditspec/core/evidence_vault.py:501-536 | holds exactly the named live evidence; fails only for a stale signer or refused arguments |
| Vault.Directory.ReleaseLegalHold | src/auditspec/core/evidence_vault.py:538-561 | releases an active hold; fails only for a stale signer, a malformed authority, or a hold unknown or released |
| Vault.Directory.RotateJournalAuthority | src/auditspec/core/evidence_vault.py:313-340 | appends the successor key; fails only for a stale signer or a key already in the history |
| Vault.Directory.ObjectAvailable | src/auditspec/core/evidence_vault.py:643-646 | the object of evidence that may be deleted is on disk |
| Retrieval.RetrieveForAudit | src/auditspec/core/evidence_vault.py:712-786 | gaps and material are exactly what the bundled rows contribute, gaps in priority order |
| Retrieval.VaultRetrieval | src/auditspec/core/evidence_vault.py:712-786 | in every reachable vault retrieval returns exactly the live evidence, byte for byte as addressed, and never reports damaged bytes, a differing binding, an unresolved version root or an unresolved bridge |
| Retrieval.DependencyOutcome | src/auditspec/core/evidence_vault.py:1016-1091 | component gaps only ever come from metadata, never from a missing component or object |
| Dispatcher.InstrumentedDispatcher.RecordRequest | src/auditspec/adapters/instrumented.py:77-107 | records a request once, accepts exact repetition and refuses conflicting reuse |
| Dispatcher.InstrumentedDispatcher.CloseRequests | src/auditspec/adapters/instrumented.py:109-122 | disposes of exactly the requests without result or disposition |
| Dispatcher.InstrumentedDispatcher.ExecuteCall | src/auditspec/adapters/instrumented.py:124-178 | the four ledgers after one call, for every executor behaviour |
| DispatcherRuns.RunConsistent | src/auditspec/adapters/instrumented.py:50-178 | in every sequence of events identifiers are unique in each ledger, answers and dispositions repeat recorded requests, and write effects belong to answered mutating calls of the agent |
| DispatcherRuns.ToolCoverageExactly | src/auditspec/adapters/receipts.py:135-192 | tool-result coverage is complete iff each call of the agent has exactly one of a result and a disposition |
| DispatcherRuns.WriteCoverageExactly | src/auditspec/adapters/receipts.py:218-267 | write coverage is complete iff each mutating call of the agent has exactly one of an effect and a disposition |
| DispatcherRuns.ClosedRunsAreComplete | src/auditspec/adapters/instrumented.py:77-250 | after requests are closed both coverages are complete iff no result of the agent landed on a disposed call, or on a mutating call whose state roots were missing or empty; executor failures, wrong identifiers and calls of others never matter |
| DispatcherRuns.ToolCoverageOfRun | src/auditspec/adapters/receipts.py:135-192 | after requests are closed tool-result coverage is complete iff no result of the agent landed on a disposed call |
| DispatcherRuns.WriteCoverageOfRun | src/auditspec/adapters/receipts.py:218-267 | after requests are closed write coverage is complete iff each landed result of a mutating call of the agent left an effect or was of a disposed call, and not both |
| DispatcherRuns.RunHarm | src/auditspec/adapters/instrumented.py:77-178 | a call is doubled or muddled in the ledgers of a run iff some event of the run harmed it |
| DispatcherRuns.LateExecution | src/auditspec/adapters/instrumented.py:109-178 | counterexample: a call requested, disposed of and then executed leaves tool-result coverage incomplete, whatever follows |
| DispatcherRuns.RootlessExecution | src/auditspec/adapters/instrumented.py:124-178 | counterexample: a mutating call without a state root after execution leaves write coverage incomplete, whatever follows |
| DispatcherRuns.LateExecutionIsFinal | src/auditspec/adapters/receipts.py:163-177 | a call both answered and disposed of makes coverage incomplete, and no later event repairs that |
| DispatcherRuns.StepGrows | src/auditspec/adapters/instrumented.py:60-178 | ledgers are append-only |
| Receipts.DistinctByCount | src/auditspec/adapters/receipts.py:166-170 | comparing the size of the identifier set with the number of entries tests uniqueness |

## Left out

- Compiler.FindTwin: answers and observations are compared by structural equality; Python's identification of `True` with `1` inside the audit compiler is not modelled.
- Compiler.CheckContract: capabilities are a datatype instead of prefixed strings, and adapter, threat-model and replay-contract validation are given reasons.
- Solver.MinimumWeightContract: costs are real numbers; the rounding of binary floating point, and so the order of nearly equal sums, is not modelled.
- Synthesis.Synthesize: notes, human-readable reasons and timing of a result are left out, as is `verify_certificate`, which recomputes separators over both modes.
- Contracts.DependencyClosure: the closure is a set; the order in which the worklist visits names is not part of the result.
- Lifecycle.VerifyLifecycleCertificate: roots are functions of the certificate body and are not repeated in it, nor are counts and Boolean flags that only restate other fields; the root of the source certificate stands for its canonical text.
- Certificates.VerifyAuditabilityCertificate: roots, counts and flags as above.
- Certificates.AnalyzeAuditability: the world description of a row is carried along by the code and not modelled.
- ContractCompiler.CompileMinimumContract: integer costs are embedded in the reals; the outcome does not repeat the candidate table and the optimality certificate, whose contents are `CandidateTable`, `CandidatesAreAdequate` and `LowerCostInfeasible`; digests of tables are functions of the outcome and left out, as is verification of ANALYSIS_INCOMPLETE certificates, which only recomputes a digest.
- FiniteBackend.SynthesizeFinite: the two loops over sizes and combinations are one loop over the same sequence; the wire form of the optimization witness is left out.
- Expression.TypeSoundness: function calls, record fields, maps, and the scalar types other than boolean, integer and string are not modelled; literals are not limited to the I-JSON range.
- Expression.ValidateNode: as above; the limit on nodes is not applied.
- FiniteBackend.CheckDeterminacy: observations are compared by equality where the code buckets by canonical text; for observations of one mechanism over declared domains, which have one type, that is the same by `JsonEquality.SameWithinAType`, records with Boolean fields apart.
- Agreement.LoopAgreesWithExhaustive: states as a hypothesis that Python equality of claims and observations in the table is equality of the answers and observations of the loop.
- Translation.TranslationPreserves: parsing of legacy text is Python's and not modelled; subscripts, division, modulo and other syntax the translation refuses are one constructor that does not evaluate, and Python operators on operands no validated expression produces count as raising.
- Translation.EqualityChangesExactly: stated for a single comparison whose operands are in the fragment; a longer chain is the conjunction of its links.
- Adequacy.CheckAdequacy: case validation, labels and digests are left out; predicates over executions are functions.
- CanonicalTheorems.RoundTrip: equality of values is equality up to the insertion order of keys, which is Python's and Rust's equality of objects; UTF-8 encoding of the text is not modelled.
- VaultReplay.JournalUnique: event roots do not cover signatures, so a root determines payloads and not raw bytes.
- VaultRuns.RunSafe: runs contain no retirement with a malformed claim id; see above.
- Vault.Directory.Recover: the loop over pending deletions visits them in name order; there is at most one.
- Vault.Directory.AppendEvidence: the world scope keeps only its bridge reference; media types and sizes of objects are left out, and with them the refusal of a malformed media type.
- Vault.Directory.ArchiveComponent: media types are left out, and with them the refusal of a malformed one.
- Vault.Directory.RotateJournalAuthority: keys, digests and instants are types, so the refusals of a malformed successor key, reason digest or timestamp are not modelled.
- Vault.Directory.PlaceLegalHold: the refusals of a malformed reason digest or timestamp are not modelled.
- Vault.Directory.ReleaseLegalHold: the refusals of a malformed reason digest or timestamp are not modelled.
- Retrieval.RetrieveForAudit: judgements about component metadata, with the migration certificate check, are functions; obstruction rows and the assurance record are left out, as is the recomputation of the bundle root, which is a digest of the rows.
- Dispatcher.InstrumentedDispatcher.ExecuteCall: classification of tools as mutating is a fixed function; arguments are their canonical text.
- DispatcherRuns.WriteCoverageExactly: the count-only variants of both coverage receipts are left out.
- File-system detail of the vault (temporary files, fsync, links, permissions, the lock) is left out; object put, event append and unlink are atomic. Read-only opening and trust pins are left out.
- Journals of earlier schema versions, without intents, are accepted by the model's replay step as in the code, but the vault's runs do not write them.
- Cryptography is left out: no claim is made about collisions or forgery.
- The isolated verifier, official gates, symbolic engine, registries, command line, packaging, and the long field-by-field assurance and manifest checks are left out.
- Floating-point information measures, weight sampling and ambiguity metrics of the compiler are left out.
- Migration bundles, the no-posthoc-repair record and obstruction classification are left out; the law behind them is `InformationOrder.PostprocessingCannotRepair`.
